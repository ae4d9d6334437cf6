/**
 * archiver/compress.go: the level gate and buffer handling around DEFLATE.
 * The DEFLATE coder itself is the abstract `Flate` library.
 */
module Compression {
  import opened Bytes
  import opened Errors
  import opened Libraries
  import opened Streams

  /** The levels flate accepts and Compress lets through. */
  predicate LevelInRange(level: int)
  {
    0 <= level <= 9
  }

  /** What Compress returns: an error for a level outside 0..9, else the DEFLATE stream. */
  function Compressed(f: Flate, data: seq<byte>, level: int): (r: Result<seq<byte>>)
    ensures r.Success? <==> LevelInRange(level)
    ensures r.Failure? ==> r.error == InvalidLevel(level)
  {
    if level < 0 || level > 9 then Failure(InvalidLevel(level))
    else Success(f.deflate(data, level))
  }

  /** What Decompress returns: the inflated bytes, or an error for a malformed stream. */
  function Decompressed(f: Flate, data: seq<byte>): (r: Result<seq<byte>>)
    ensures r.Failure? <==> f.inflate(data).None?
    ensures r.Failure? ==> r.error == CorruptInput
  {
    match f.inflate(data)
    case None => Failure(CorruptInput)
    case Some(plain) => Success(plain)
  }

  /** The gate rejects a level below 0 or above 9 whatever the data and the library. */
  lemma LevelGate(f: Flate, data: seq<byte>, level: int)
    ensures (level < 0 || level > 9) <==> Compressed(f, data, level) == Failure(InvalidLevel(level))
  {
  }

  /** Decompress(Compress(d, l)) == d for every level the gate lets through. */
  lemma DecompressCompress(f: Flate, data: seq<byte>, level: int)
    requires Lossless(f) && LevelInRange(level)
    ensures Compressed(f, data, level).Success?
    ensures Decompressed(f, Compressed(f, data, level).value) == Success(data)
  {
    assert f.inflate(f.deflate(data, level)) == Some(data);
  }

  /**
   * A flate.Writer over a destination buffer. It holds its input until
   * Close, which emits the whole DEFLATE stream; nothing reaches the
   * destination before that.
   */
  class FlateWriter {
    const f: Flate
    const dst: Writer
    const level: int
    var pending: seq<byte>

    /** flate.NewWriter(dst, level) */
    constructor (f: Flate, dst: Writer, level: int)
      requires LevelInRange(level)
      ensures this.f == f && this.dst == dst && this.level == level && pending == []
    {
      this.f := f;
      this.dst := dst;
      this.level := level;
      pending := [];
    }

    /** writer.Write(p) */
    method Write(p: seq<byte>)
      modifies this
      ensures pending == old(pending) + p
    {
      pending := pending + p;
    }

    /** writer.Close(): flushes the complete stream into the destination. */
    method Close()
      modifies dst
      ensures dst.bytes == old(dst.bytes) + f.deflate(pending, level)
    {
      dst.Write(f.deflate(pending, level));
    }
  }

  /** Compress: the level gate, then Write and Close on a flate writer over a fresh buffer. */
  method Compress(f: Flate, data: seq<byte>, level: int) returns (r: Result<seq<byte>>)
    ensures r == Compressed(f, data, level)
  {
    if level < 0 || level > 9 {
      return Failure(InvalidLevel(level));
    }
    var buf := new Writer();
    var writer := new FlateWriter(f, buf, level);
    writer.Write(data);
    assert writer.pending == data;
    writer.Close();
    assert buf.bytes == f.deflate(data, level);
    r := Success(buf.bytes);
  }

  /** Decompress: io.Copy from a flate reader into a fresh buffer. */
  method Decompress(f: Flate, data: seq<byte>) returns (r: Result<seq<byte>>)
    ensures r == Decompressed(f, data)
  {
    var buf := new Writer();
    var inflated := f.inflate(data);
    if inflated.None? {
      return Failure(CorruptInput);
    }
    buf.Write(inflated.value);
    assert buf.bytes == inflated.value;
    r := Success(buf.bytes);
  }
}
