/**
 * The byte streams the archive code reads and writes through `io.Reader` and
 * `io.Writer`. A reader is a byte sequence with a cursor; a writer is a byte
 * buffer that writes only append to. The spec functions below give the
 * semantics of `io.ReadFull` and of `binary.Read` with `binary.BigEndian`
 * on a fixed-size integer (which is `io.ReadFull` of its width, then decoding).
 */
module Streams {
  import opened Bytes
  import opened Errors

  /** A value read from a stream, and the cursor just past it. */
  datatype Read<+T> = Read(value: T, next: nat)

  /**
   * io.ReadFull of `n` bytes at `pos`: a read of zero bytes always succeeds;
   * otherwise io.EOF when no byte is left and io.ErrUnexpectedEOF when only
   * some are.
   */
  function ReadFullAt(data: seq<byte>, pos: nat, n: nat): (r: Result<Read<seq<byte>>>)
    requires pos <= |data|
    ensures r.Success? <==> n == 0 || pos + n <= |data|
    ensures r.Success? ==> r.value.next == pos + n <= |data| && r.value.value == data[pos..pos + n]
    ensures r.Failure? ==> r.error == (if pos == |data| then Eof else UnexpectedEof)
  {
    if n == 0 then Success(Read([], pos))
    else if pos == |data| then Failure(Eof)
    else if |data| - pos < n then Failure(UnexpectedEof)
    else Success(Read(data[pos..pos + n], pos + n))
  }

  /** binary.Read of a uint8. */
  function ReadU8At(data: seq<byte>, pos: nat): (r: Result<Read<byte>>)
    requires pos <= |data|
    ensures r.Success? <==> pos + 1 <= |data|
    ensures r.Success? ==> r.value == Read(data[pos], pos + 1)
  {
    var b :- ReadFullAt(data, pos, 1);
    Success(Read(b.value[0], b.next))
  }

  /** binary.Read of a big-endian uint16. */
  function ReadU16At(data: seq<byte>, pos: nat): (r: Result<Read<u16>>)
    requires pos <= |data|
    ensures r.Success? <==> pos + 2 <= |data|
    ensures r.Success? ==> r.value == Read(FromBE16(data[pos..pos + 2]), pos + 2)
  {
    var b :- ReadFullAt(data, pos, 2);
    Success(Read(FromBE16(b.value), b.next))
  }

  /** binary.Read of a big-endian uint32. */
  function ReadU32At(data: seq<byte>, pos: nat): (r: Result<Read<u32>>)
    requires pos <= |data|
    ensures r.Success? <==> pos + 4 <= |data|
    ensures r.Success? ==> r.value == Read(FromBE32(data[pos..pos + 4]), pos + 4)
  {
    var b :- ReadFullAt(data, pos, 4);
    Success(Read(FromBE32(b.value), b.next))
  }

  /** Reading back what BE16 wrote, wherever it sits in the stream. */
  lemma ReadU16Of(prefix: seq<byte>, x: u16, rest: seq<byte>)
    ensures ReadU16At(prefix + BE16(x) + rest, |prefix|) == Success(Read(x, |prefix| + 2))
  {
    var data := prefix + BE16(x) + rest;
    assert data[|prefix|..|prefix| + 2] == BE16(x);
  }

  /** Reading back what BE32 wrote, wherever it sits in the stream. */
  lemma ReadU32Of(prefix: seq<byte>, x: u32, rest: seq<byte>)
    ensures ReadU32At(prefix + BE32(x) + rest, |prefix|) == Success(Read(x, |prefix| + 4))
  {
    var data := prefix + BE32(x) + rest;
    assert data[|prefix|..|prefix| + 4] == BE32(x);
  }

  /** An input stream: the bytes of an opened file and the offset of the next read. */
  class Reader {
    const data: seq<byte>
    var pos: nat

    ghost predicate Valid()
      reads this
    {
      pos <= |data|
    }

    constructor (data: seq<byte>)
      ensures Valid() && this.data == data && pos == 0
    {
      this.data := data;
      pos := 0;
    }

    /** io.ReadFull(r, make([]byte, n)) */
    method ReadFull(n: nat) returns (r: Result<seq<byte>>)
      requires Valid()
      modifies this
      ensures Valid()
      ensures match ReadFullAt(data, old(pos), n)
              case Success(rd) => r == Success(rd.value) && pos == rd.next
              case Failure(e) => r == Failure(e)
    {
      if n == 0 {
        return Success([]);
      }
      if pos == |data| {
        return Failure(Eof);
      }
      if |data| - pos < n {
        // io.ReadFull consumes what is there before it reports the short read
        pos := |data|;
        return Failure(UnexpectedEof);
      }
      r := Success(data[pos..pos + n]);
      pos := pos + n;
    }

    /** binary.Read(r, binary.BigEndian, &v) for a uint8 v. */
    method ReadU8() returns (r: Result<byte>)
      requires Valid()
      modifies this
      ensures Valid()
      ensures match ReadU8At(data, old(pos))
              case Success(rd) => r == Success(rd.value) && pos == rd.next
              case Failure(e) => r == Failure(e)
    {
      var b := ReadFull(1);
      if b.Failure? {
        return Failure(b.error);
      }
      r := Success(b.value[0]);
    }

    /** binary.Read(r, binary.BigEndian, &v) for a uint16 v. */
    method ReadU16() returns (r: Result<u16>)
      requires Valid()
      modifies this
      ensures Valid()
      ensures match ReadU16At(data, old(pos))
              case Success(rd) => r == Success(rd.value) && pos == rd.next
              case Failure(e) => r == Failure(e)
    {
      var b := ReadFull(2);
      if b.Failure? {
        return Failure(b.error);
      }
      r := Success(FromBE16(b.value));
    }

    /** binary.Read(r, binary.BigEndian, &v) for a uint32 v. */
    method ReadU32() returns (r: Result<u32>)
      requires Valid()
      modifies this
      ensures Valid()
      ensures match ReadU32At(data, old(pos))
              case Success(rd) => r == Success(rd.value) && pos == rd.next
              case Failure(e) => r == Failure(e)
    {
      var b := ReadFull(4);
      if b.Failure? {
        return Failure(b.error);
      }
      r := Success(FromBE32(b.value));
    }
  }

  /**
   * An output stream. The archive is written to an os.File and compressed
   * data to a bytes.Buffer; the model has both append to a byte sequence and
   * never fail.
   */
  class Writer {
    var bytes: seq<byte>

    constructor ()
      ensures bytes == []
    {
      bytes := [];
    }

    /** w.Write(p) */
    method Write(p: seq<byte>)
      modifies this
      ensures bytes == old(bytes) + p
    {
      bytes := bytes + p;
    }

    /** binary.Write(w, binary.BigEndian, uint8(x)) */
    method WriteU8(x: byte)
      modifies this
      ensures bytes == old(bytes) + [x]
    {
      bytes := bytes + [x];
    }

    /** binary.Write(w, binary.BigEndian, uint16(x)) */
    method WriteU16(x: u16)
      modifies this
      ensures bytes == old(bytes) + BE16(x)
    {
      bytes := bytes + BE16(x);
    }

    /** binary.Write(w, binary.BigEndian, uint32(x)) */
    method WriteU32(x: u32)
      modifies this
      ensures bytes == old(bytes) + BE32(x)
    {
      bytes := bytes + BE32(x);
    }
  }
}
