/**
 * The small helpers of ui/gui.go that carry logic of their own: reading the
 * compression level back from the selection widget's label, the list of
 * selected files (add without duplicates, clear), and the choice of unit in
 * formatFileSize. Labels and paths are byte strings, as Go strings are.
 */
module Gui {
  import opened Bytes
  import opened Errors

  /** The bytes of a string that is plain ASCII. */
  function Ascii(s: string): (b: seq<byte>)
    requires forall i | 0 <= i < |s| :: s[i] as int < 0x80
    ensures |b| == |s| && forall i | 0 <= i < |s| :: b[i] == s[i] as int
  {
    seq(|s|, i requires 0 <= i < |s| => s[i] as int)
  }

  /** The options of the compression level selector, in order. */
  const CompressionLabels: seq<string> := [
    "0 - No compression",
    "1 - Fastest",
    "2", "3", "4", "5",
    "6 - Default",
    "7", "8",
    "9 - Best compression"
  ]

  /** The level used when nothing, or something that is not a level, is selected. */
  const DefaultLevel: int := 6

  /**
   * getSelectedCompressionLevel: the empty selection gives the default;
   * otherwise the first byte minus '0', computed on bytes (uint8), so that
   * anything below '0' wraps to a large value; a value above 9 also gives
   * the default.
   */
  function SelectedCompressionLevel(selected: seq<byte>): (level: int)
    ensures 0 <= level <= 9
    ensures selected == [] ==> level == DefaultLevel
    ensures selected != [] && '0' as int <= selected[0] <= '9' as int ==> level == selected[0] - '0' as int
    ensures selected != [] && !('0' as int <= selected[0] <= '9' as int) ==> level == DefaultLevel
  {
    if selected == [] then DefaultLevel
    else
      var level := (selected[0] - '0' as int) % 0x100;
      if level < 0 || level > 9 then DefaultLevel else level
  }

  /** Every label of the selector reads back as its own position, the level it names. */
  lemma LabelsGiveTheirLevel(k: nat)
    requires k < |CompressionLabels|
    ensures SelectedCompressionLevel(Ascii(CompressionLabels[k])) == k
  {
    var text := CompressionLabels[k];
    assert text[0] as int == '0' as int + k by {
      assert CompressionLabels[0][0] == '0' && CompressionLabels[1][0] == '1' && CompressionLabels[2][0] == '2';
      assert CompressionLabels[3][0] == '3' && CompressionLabels[4][0] == '4' && CompressionLabels[5][0] == '5';
      assert CompressionLabels[6][0] == '6' && CompressionLabels[7][0] == '7' && CompressionLabels[8][0] == '8';
      assert CompressionLabels[9][0] == '9';
    }
  }

  /** The selector's initial choice, "6 - Default", agrees with the level of the empty selection. */
  lemma InitialSelectionIsDefault()
    ensures SelectedCompressionLevel(Ascii(CompressionLabels[6])) == SelectedCompressionLevel([])
  {
    LabelsGiveTheirLevel(6);
  }

  /** No path occurs twice. */
  predicate NoDuplicates(files: seq<seq<byte>>)
  {
    forall i, j | 0 <= i < j < |files| :: files[i] != files[j]
  }

  /** The part of the GUI's state that the file list helpers change. */
  class Selection {
    var selectedFiles: seq<seq<byte>>

    ghost predicate Valid()
      reads this
    {
      NoDuplicates(selectedFiles)
    }

    constructor ()
      ensures Valid() && selectedFiles == []
    {
      selectedFiles := [];
    }

    /**
     * The body of the file-open callback of selectFiles once a file was
     * chosen: a path already in the list leaves it as it is; any other path
     * goes at the end.
     */
    method SelectFile(filePath: seq<byte>)
      requires Valid()
      modifies this
      ensures Valid()
      ensures filePath in old(selectedFiles) ==> selectedFiles == old(selectedFiles)
      ensures filePath !in old(selectedFiles) ==> selectedFiles == old(selectedFiles) + [filePath]
      ensures selectedFiles == AfterSelect(old(selectedFiles), filePath)
    {
      var i := 0;
      while i < |selectedFiles|
        invariant 0 <= i <= |selectedFiles|
        invariant forall k | 0 <= k < i :: selectedFiles[k] != filePath
      {
        if selectedFiles[i] == filePath {
          return;
        }
        i := i + 1;
      }
      selectedFiles := selectedFiles + [filePath];
    }

    /** clearFiles: the list is empty afterwards. */
    method ClearFiles()
      modifies this
      ensures Valid() && selectedFiles == []
    {
      selectedFiles := [];
    }
  }

  /** The list SelectFile leaves behind, as a value. */
  function AfterSelect(files: seq<seq<byte>>, p: seq<byte>): (r: seq<seq<byte>>)
    ensures p in r
    ensures forall q :: q in r <==> q in files || q == p
  {
    if p in files then files else files + [p]
  }

  /** A sequence of selections keeps the list duplicate-free and holds exactly the selected paths. */
  lemma {:induction false} SelectAll(files: seq<seq<byte>>, ps: seq<seq<byte>>)
    requires NoDuplicates(files)
    ensures NoDuplicates(SelectEach(files, ps))
    ensures forall q :: q in SelectEach(files, ps) <==> q in files || q in ps
    decreases |ps|
  {
    if ps != [] {
      var next := AfterSelect(files, ps[0]);
      assert NoDuplicates(next);
      SelectAll(next, ps[1..]);
      forall q
        ensures q in SelectEach(files, ps) <==> q in files || q in ps
      {
        assert q in ps <==> q == ps[0] || q in ps[1..];
      }
    }
  }

  /** Selecting the paths ps one after the other. */
  function SelectEach(files: seq<seq<byte>>, ps: seq<seq<byte>>): seq<seq<byte>>
    decreases |ps|
  {
    if ps == [] then files else SelectEach(AfterSelect(files, ps[0]), ps[1..])
  }

  /** 1024 raised to e. */
  function Pow1024(e: nat): (p: int)
    ensures p >= 1
  {
    if e == 0 then 1 else 1024 * Pow1024(e - 1)
  }

  const MinInt64: int := -0x8000_0000_0000_0000
  const MaxInt64: int := 0x7FFF_FFFF_FFFF_FFFF

  /** The units formatFileSize picks from: kibibytes up to exbibytes. */
  const Units: string := "KMGTPE"

  /**
   * What formatFileSize prints. Below 1024 it is the exact count followed by
   * " B"; from 1024 on it is bytes/div with one decimal, followed by a unit
   * and "B", where div is the power of 1024 the unit stands for.
   */
  datatype SizeText =
    | Exact(text: string)
    | Scaled(div: int, exp: nat, unit: char)

  /** Every character is a decimal digit. */
  predicate AllDigits(s: string)
  {
    forall i | 0 <= i < |s| :: '0' <= s[i] <= '9'
  }

  /** The decimal digits of n, without leading zeros. */
  function Digits(n: nat): (s: string)
    ensures |s| >= 1 && AllDigits(s)
    ensures |s| > 1 ==> s[0] != '0'
    decreases n
  {
    if n < 10 then [('0' as int + n) as char]
    else
      var s := Digits(n / 10) + [('0' as int + n % 10) as char];
      assert s[0] == Digits(n / 10)[0];
      s
  }

  /** fmt's %d: a minus sign for negative numbers, then the digits. */
  function Decimal(n: int): (s: string)
    ensures |s| >= 1
  {
    if n < 0 then "-" + Digits(-n) else Digits(n)
  }

  /** The value of a string of decimal digits. */
  function DigitsValue(s: string): nat
    requires AllDigits(s)
    decreases |s|
  {
    if s == [] then 0 else DigitsValue(s[..|s| - 1]) * 10 + (s[|s| - 1] as int - '0' as int)
  }

  /** Reading %d's text back: an optional minus sign, then at least one digit. */
  function ParseDecimal(s: string): (r: Option<int>)
  {
    if s == [] then None
    else if s[0] == '-' then (if |s| > 1 && AllDigits(s[1..]) then Some(0 - DigitsValue(s[1..]) as int) else None)
    else if AllDigits(s) then Some(DigitsValue(s))
    else None
  }


  lemma {:induction false} DigitsValueDigits(n: nat)
    ensures DigitsValue(Digits(n)) == n
    decreases n
  {
    if n >= 10 {
      var s := Digits(n);
      assert s[..|s| - 1] == Digits(n / 10);
      DigitsValueDigits(n / 10);
    }
  }

  /** %d's text reads back as the number it was made from. */
  lemma DecimalRoundTrip(n: int)
    ensures ParseDecimal(Decimal(n)) == Some(n)
  {
    if n < 0 {
      var d := Digits(-n);
      assert ("-" + d)[1..] == d;
      DigitsValueDigits(-n);
    } else {
      assert Digits(n)[0] != '-';
      DigitsValueDigits(n);
    }
  }

  /** A positive multiple of m is at least m. */
  lemma MulAtLeast(a: int, m: int)
    requires a >= 1 && m > 0
    ensures a * m >= m
  {
  }

  /** Multiplying by a non-negative factor keeps an ordering. */
  lemma MulMonotone(c: int, a: int, b: int)
    requires c >= 0 && a <= b
    ensures c * a <= c * b
  {
  }

  /** The quotient is the only q with b == q * m + r and 0 <= r < m. */
  lemma DivUnique(b: nat, m: nat, q: int, r: int)
    requires m > 0 && b == q * m + r && 0 <= r < m
    ensures b / m == q
  {
    var q', r' := b / m, b % m;
    if q' > q {
      assert (q' - q) * m == r - r';
      MulAtLeast(q' - q, m);
    } else if q' < q {
      assert (q - q') * m == r' - r;
      MulAtLeast(q - q', m);
    }
  }

  /** b / d / k == b / (d * k) for a non-negative b and positive d and k. */
  lemma DivDiv(b: nat, d: nat, k: nat)
    requires d > 0 && k > 0
    ensures b / d / k == b / (d * k)
  {
    var q, r := b / d, b % d;
    var q2, r2 := q / k, q % k;
    assert q * d == q2 * (d * k) + r2 * d by {
      assert q == q2 * k + r2;
    }
    MulMonotone(d, r2, k - 1);
    assert d * (k - 1) == d * k - d;
    DivUnique(b, d * k, q2, r2 * d + r);
  }

  /** b / d >= 1 and b / d < 1024 bound b by d and 1024 * d. */
  lemma QuotientBounds(b: nat, d: nat)
    requires d > 0
    ensures b / d >= 1 ==> d <= b
    ensures b / d < 1024 ==> b < 1024 * d
  {
    var q := b / d;
    if q >= 1 {
      MulAtLeast(q, d);
    }
    if q < 1024 {
      MulMonotone(d, q, 1023);
    }
  }

  /** No int64 reaches 1024^7 = 2^70; 2^63 is already below 1024^7. */
  lemma Pow1024Seven()
    ensures Pow1024(7) > MaxInt64
  {
  }

  /** Powers of 1024 grow with the exponent. */
  lemma {:induction false} Pow1024Monotone(e: nat, f: nat)
    requires e <= f
    ensures Pow1024(e) <= Pow1024(f)
    decreases f
  {
    if e < f {
      Pow1024Monotone(e, f - 1);
    }
  }

  /**
   * formatFileSize with its mantissa left out: 0 and anything below 1024
   * (negative counts included) print exactly; from 1024 on, the loop
   * divides by 1024 until the quotient is below 1024, and exp counts the
   * extra divisions, so 1024^(exp+1) <= bytes < 1024^(exp+2). For an int64
   * this keeps exp at most 5, an index into "KMGTPE".
   */
  method FormatFileSize(bytes: int) returns (r: SizeText)
    requires MinInt64 <= bytes <= MaxInt64
    ensures bytes < 1024 ==> r == Exact(Decimal(bytes) + " B")
    ensures bytes == 0 ==> r == Exact("0 B")
    ensures bytes >= 1024 ==>
              r.Scaled? && r.exp <= 5 && r.div == Pow1024(r.exp + 1) &&
              r.div <= bytes < 1024 * r.div && r.unit == Units[r.exp]
  {
    if bytes == 0 {
      return Exact("0 B");
    }
    if bytes < 1024 {
      return Exact(Decimal(bytes) + " B");
    }
    var div, exp := 1024, 0;
    var n := bytes / 1024;
    while n >= 1024
      invariant div == Pow1024(exp + 1)
      invariant n >= 1 && n == bytes / div
      decreases n
    {
      DivDiv(bytes, div, 1024);
      div := div * 1024;
      exp := exp + 1;
      n := n / 1024;
    }
    QuotientBounds(bytes, div);
    if exp > 5 {
      Pow1024Monotone(7, exp + 1);
      Pow1024Seven();
      assert false;
    }
    return Scaled(div, exp, Units[exp]);
  }
}
