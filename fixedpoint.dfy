/**
 * The hand-written fixed-point decoder of BenchmarkFloatCustom and the
 * benchmark's running sum over its inputs. A value `-?D{1,2}.D` is decoded
 * into the integer value x 10, by arithmetic on the character codes of the
 * bytes at fixed offsets.
 */
module FixedPoint {
  import opened Common

  /** The decoder's two panics: a byte read past the end of the slice, and
      a slice with no '.' at offset 1 or 2 (after the sign). */
  datatype DecodeError = IndexOutOfRange(index: nat) | UnexpectedPosition(rest: seq<byte>)

  /** The slice starts with the sign byte '-'. */
  predicate Negative(f: seq<byte>) {
    |f| > 0 && f[0] == MINUS
  }

  /** The bytes after an optional leading '-': exactly the sign is stripped. */
  function Magnitude(f: seq<byte>): (g: seq<byte>)
    ensures Negative(f) ==> [MINUS] + g == f
    ensures !Negative(f) ==> g == f
  {
    if Negative(f) then f[1..] else f
  }

  /** '.' at offset 1: one integer digit. */
  predicate DotAtOne(g: seq<byte>) {
    |g| >= 3 && g[1] == DOT
  }

  /** '.' at offset 2 and not at 1: two integer digits. */
  predicate DotAtTwo(g: seq<byte>) {
    |g| >= 4 && g[1] != DOT && g[2] == DOT
  }

  /** The numeric value of a character code relative to '0'. */
  function DigitValue(b: byte): int {
    b - ZERO
  }

  function Signed(negative: bool, n: int): int {
    if negative then -n else n
  }

  /**
   * The decoder body. Only the bytes at offsets 0..2 (one integer digit) or
   * 0..3 (two integer digits) after the sign are read; nothing checks that
   * they are digits.
   */
  function Decode(f: seq<byte>): (r: Result<int, DecodeError>)
    ensures r.Success? <==> |f| > 0 && (DotAtOne(Magnitude(f)) || DotAtTwo(Magnitude(f)))
    ensures |f| > 0 && |Magnitude(f)| >= 3 && Magnitude(f)[1] != DOT && Magnitude(f)[2] != DOT ==>
      r == Failure(UnexpectedPosition(Magnitude(f)))
  {
    if |f| == 0 then Failure(IndexOutOfRange(0))
    else
      var negative, g := Negative(f), Magnitude(f);
      if |g| < 2 then Failure(IndexOutOfRange(1))
      else if g[1] == DOT then
        if |g| < 3 then Failure(IndexOutOfRange(2))
        else Success(Signed(negative, g[0] * 10 + g[2] - ZERO * (10 + 1)))
      else if |g| < 3 then Failure(IndexOutOfRange(2))
      else if g[2] == DOT then
        if |g| < 4 then Failure(IndexOutOfRange(3))
        else Success(Signed(negative, g[0] * 100 + g[1] * 10 + g[3] - ZERO * (100 + 10 + 1)))
      else Failure(UnexpectedPosition(g))
  }

  /**
   * The value Decode computes: the digits' weighted sum, relative to '0',
   * with the sign applied.
   */
  lemma DecodeMeaning(f: seq<byte>)
    ensures |f| > 0 && DotAtOne(Magnitude(f)) ==>
      var g := Magnitude(f);
      Decode(f).value == Signed(Negative(f), 10 * DigitValue(g[0]) + DigitValue(g[2]))
    ensures |f| > 0 && DotAtTwo(Magnitude(f)) ==>
      var g := Magnitude(f);
      Decode(f).value == Signed(Negative(f), 100 * DigitValue(g[0]) + 10 * DigitValue(g[1]) + DigitValue(g[3]))
  {
  }

  /** A well-formed value, possibly followed by other bytes: `-?D.D...` or `-?DD.D...`. */
  predicate Shaped(f: seq<byte>) {
    |f| > 0 &&
    var g := Magnitude(f);
    (|g| >= 3 && IsDigit(g[0]) && g[1] == DOT && IsDigit(g[2])) ||
    (|g| >= 4 && IsDigit(g[0]) && IsDigit(g[1]) && g[2] == DOT && IsDigit(g[3]))
  }

  /** Exactly a well-formed value and nothing after it: `-?D{1,2}\.D`. */
  predicate Exact(f: seq<byte>) {
    Shaped(f) && |Magnitude(f)| == (if Magnitude(f)[1] == DOT then 3 else 4)
  }

  /** A shaped input decodes, to a value of at most three decimal digits. */
  lemma ShapedDecodes(f: seq<byte>)
    requires Shaped(f)
    ensures Decode(f).Success?
    ensures -999 <= Decode(f).value <= 999
    ensures Negative(f) ==> Decode(f).value <= 0
    ensures !Negative(f) ==> Decode(f).value >= 0
  {
  }

  /** Bytes after the value are never read. */
  lemma TrailingBytesIgnored(f: seq<byte>, tail: seq<byte>)
    requires Decode(f).Success?
    ensures Decode(f + tail) == Decode(f)
  {
    var g, h := Magnitude(f), Magnitude(f + tail);
    assert (f + tail)[0] == f[0];
    assert h == g + tail;
    assert h[..|g|] == g;
  }

  /** A leading '-' negates the magnitude; without one the same bytes decode
      to the positive value, and the sign never changes whether decoding succeeds. */
  lemma NegationSymmetric(s: seq<byte>)
    requires |s| == 0 || s[0] != MINUS
    ensures Decode([MINUS] + s).Success? <==> Decode(s).Success?
    ensures Decode(s).Success? ==> Decode([MINUS] + s).value == -Decode(s).value
  {
    assert Magnitude([MINUS] + s) == s;
  }

  // ---------------------------------------------------------------------
  // Encoding: the fixed-point text of a scaled integer. It is the decoder's
  // reference partner, and how `%.1f` prints a value with one decimal digit,
  // except a negative zero, which Go prints as `-0.0` and an integer cannot carry.

  /** Decimal digits of a natural number, most significant first, no leading zeros. */
  function NatDigits(n: nat): (r: seq<byte>)
    ensures |r| > 0 && forall i :: 0 <= i < |r| ==> IsDigit(r[i])
    ensures n < 10 <==> |r| == 1
    ensures 10 <= n < 100 <==> |r| == 2
  {
    if n < 10 then [ZERO + n] else NatDigits(n / 10) + [ZERO + n % 10]
  }

  /** `v / 10` rendered with exactly one fractional digit. */
  function Encode(v: int): (r: seq<byte>)
  {
    var m := if v < 0 then -v else v;
    (if v < 0 then [MINUS] else []) + NatDigits(m / 10) + [DOT, ZERO + m % 10]
  }

  /** Every value of at most three digits encodes to an exactly shaped text that
      decodes back to it. */
  lemma {:induction false} EncodeDecode(v: int)
    requires -999 <= v <= 999
    ensures Exact(Encode(v))
    ensures Decode(Encode(v)) == Success(v)
  {
    var m := if v < 0 then -v else v;
    var e := Encode(v);
    var g := NatDigits(m / 10) + [DOT, ZERO + m % 10];
    assert e == (if v < 0 then [MINUS] else []) + g;
    assert Magnitude(e) == g;
    if m / 10 < 10 {
      assert g == [ZERO + m / 10, DOT, ZERO + m % 10];
    } else {
      var q := m / 10;
      assert NatDigits(q) == NatDigits(q / 10) + [ZERO + q % 10];
      assert NatDigits(q / 10) == [ZERO + q / 10];
      assert g == [ZERO + q / 10, ZERO + q % 10, DOT, ZERO + m % 10];
    }
  }

  /** The text starts with '-' exactly for a negative value. */
  lemma EncodeSign(v: int)
    ensures |Encode(v)| > 0
    ensures Encode(v)[0] == MINUS <==> v < 0
  {
    var m := if v < 0 then -v else v;
    var digits := NatDigits(m / 10);
    assert IsDigit(digits[0]);
    if v < 0 {
      assert Encode(v)[0] == ([MINUS] + digits + [DOT, ZERO + m % 10])[0];
    } else {
      assert Encode(v) == digits + [DOT, ZERO + m % 10];
    }
  }

  // ---------------------------------------------------------------------
  // The benchmark loop: decode each input in turn and add it to `total`;
  // the first input that panics aborts the loop.

  /** The benchmark's inputs. */
  const Floats: seq<seq<byte>> := [FromString("12.3"), FromString("-12.3"), FromString("2.3"), FromString("-2.3")]

  /** Reference meaning of one pass of the benchmark loop: the sum of the decoded
      inputs, or the first decoding failure. */
  function Total(fs: seq<seq<byte>>): Result<int, DecodeError>
  {
    if fs == [] then Success(0)
    else match Decode(fs[0])
      case Failure(e) => Failure(e)
      case Success(n) =>
        match Total(fs[1..])
        case Failure(e) => Failure(e)
        case Success(t) => Success(n + t)
  }

  function AddTo(r: Result<int, DecodeError>, total: int): Result<int, DecodeError> {
    match r
    case Success(t) => Success(total + t)
    case Failure(e) => Failure(e)
  }

  /** One pass of the inner loop of BenchmarkFloatCustom. */
  method SumDecoded(fs: seq<seq<byte>>) returns (r: Result<int, DecodeError>)
    ensures r == Total(fs)
  {
    var total := 0;
    for i := 0 to |fs|
      invariant Total(fs) == AddTo(Total(fs[i..]), total)
    {
      assert fs[i..][0] == fs[i] && fs[i..][1..] == fs[i + 1..];
      var number := Decode(fs[i]);
      if number.Failure? {
        return Failure(number.error);
      }
      total := total + number.value;
    }
    assert fs[|fs|..] == [];
    return Success(total);
  }

  /** The pass succeeds exactly when every input decodes. */
  lemma {:induction false} TotalSucceeds(fs: seq<seq<byte>>)
    ensures Total(fs).Success? <==> forall i :: 0 <= i < |fs| ==> Decode(fs[i]).Success?
  {
    if fs != [] {
      TotalSucceeds(fs[1..]);
      assert forall i :: 1 <= i < |fs| ==> fs[1..][i - 1] == fs[i];
    }
  }

  /** The benchmark inputs decode to 123, -123, 23 and -23, so a pass adds 0. */
  lemma BenchmarkInputs()
    ensures Decode(Floats[0]) == Success(123)
    ensures Decode(Floats[1]) == Success(-123)
    ensures Decode(Floats[2]) == Success(23)
    ensures Decode(Floats[3]) == Success(-23)
    ensures Total(Floats) == Success(0)
  {
    assert Floats[0] == [49, 50, 46, 51];
    assert Floats[1] == [45, 49, 50, 46, 51];
    assert Floats[2] == [50, 46, 51];
    assert Floats[3] == [45, 50, 46, 51];
    assert Floats[1..][1..][1..][1..] == [];
  }
}
