/**
 * The field readers of the tar parser (lib/chos-lib/src/tar/util.rs): the
 * numeric fields of a header are ASCII octal digits, padded with NUL bytes.
 */
module TarUtil {
  import opened Wrappers
  import opened Bytes

  /** The byte `'0'`. */
  const ASCII_ZERO: byte := 48

  datatype InvalidOctalError = InvalidOctalError

  predicate IsOctalDigit(b: byte) {
    ASCII_ZERO <= b <= ASCII_ZERO + 7
  }

  function Pow8(n: nat): (r: nat)
    ensures r >= 1
  {
    if n == 0 then 1 else 8 * Pow8(n - 1)
  }

  lemma {:induction false} Pow8Monotone(a: nat, b: nat)
    requires a <= b
    ensures Pow8(a) <= Pow8(b)
    decreases b
  {
    if a < b {
      Pow8Monotone(a, b - 1);
    }
  }

  /**
   * The meaning of an octal field: an error when some byte is not a digit
   * `'0'..='7'`, else the digits read in base 8, most significant first
   * (no digits read as zero).
   */
  function Octal(o: seq<byte>): (r: Result<nat, InvalidOctalError>)
    ensures r.Ok? <==> forall i :: 0 <= i < |o| ==> IsOctalDigit(o[i])
    ensures r.Ok? ==> r.value < Pow8(|o|)
  {
    if o == [] then Ok(0)
    else
      var last := o[|o| - 1];
      var init := Octal(o[..|o| - 1]);
      assert forall i :: 0 <= i < |o| - 1 ==> o[..|o| - 1][i] == o[i];
      if init.Err? then Err(InvalidOctalError)
      else if IsOctalDigit(last) then Ok(init.value * 8 + (last - ASCII_ZERO))
      else Err(InvalidOctalError)
  }

  /**
   * `read_ascii_octal`: multiply the running value by 8 and add each digit;
   * stop with an error at the first byte that is not an octal digit.
   */
  method ReadAsciiOctal(o: seq<byte>) returns (r: Result<nat, InvalidOctalError>)
    ensures r == Octal(o)
  {
    var res: nat := 0;
    var i := 0;
    while i < |o|
      invariant i <= |o| && Octal(o[..i]) == Ok(res)
    {
      assert o[..i + 1][..i] == o[..i];
      res := res * 8;
      if IsOctalDigit(o[i]) {
        res := res + (o[i] - ASCII_ZERO);
      } else {
        assert !IsOctalDigit(o[i]);
        return Err(InvalidOctalError);
      }
      i := i + 1;
    }
    assert o[..i] == o;
    r := Ok(res);
  }

  /** The test case: `"30071"` reads as 12345. */
  lemma OctalExample()
    ensures Octal([51, 48, 48, 55, 49]) == Ok(12345)
  {
    assert [51, 48, 48, 55, 49][..4] == [51, 48, 48, 55];
    assert [51, 48, 48, 55][..3] == [51, 48, 48];
    assert [51, 48, 48][..2] == [51, 48];
    assert [51, 48][..1] == [51];
    assert [51][..0] == [];
  }

  /** `n` written as `w` octal digits, most significant first, as a tar writer fills a field. */
  function ToOctal(n: nat, w: nat): (r: seq<byte>)
    ensures |r| == w && forall i :: 0 <= i < w ==> IsOctalDigit(r[i])
  {
    if w == 0 then [] else ToOctal(n / 8, w - 1) + [ASCII_ZERO + n % 8]
  }

  /** Reading back `w` digits written for a value that fits them gives the value. */
  lemma {:induction false} OctalRoundTrip(n: nat, w: nat)
    requires n < Pow8(w)
    ensures Octal(ToOctal(n, w)) == Ok(n)
  {
    if w > 0 {
      var digits := ToOctal(n, w);
      assert digits[..w - 1] == ToOctal(n / 8, w - 1);
      OctalRoundTrip(n / 8, w - 1);
    }
  }

  /**
   * `trim_nulls`: the bytes before the first NUL, or all of them when there
   * is none.
   */
  function TrimNulls(b: seq<byte>): (r: seq<byte>)
    ensures |r| <= |b| && r == b[..|r|]
    ensures forall i :: 0 <= i < |r| ==> r[i] != 0
    ensures |r| < |b| ==> b[|r|] == 0
  {
    if b == [] || b[0] == 0 then [] else [b[0]] + TrimNulls(b[1..])
  }

  /** The test cases: trailing NULs are cut, and a slice without NULs is kept whole. */
  lemma TrimNullsExamples()
    ensures TrimNulls([1, 2, 3, 4, 5, 0, 0, 0, 0]) == [1, 2, 3, 4, 5]
    ensures TrimNulls([1, 2, 3, 4, 5]) == [1, 2, 3, 4, 5]
  {
    TrimNullsOfPadded([1, 2, 3, 4, 5], [0, 0, 0]);
    TrimNullsNoNull([1, 2, 3, 4, 5]);
  }

  /** A slice with no NUL is its own trim. */
  lemma TrimNullsNoNull(b: seq<byte>)
    requires forall i :: 0 <= i < |b| ==> b[i] != 0
    ensures TrimNulls(b) == b
  {
  }

  /** Bytes free of NULs followed by a NUL trim to those bytes, whatever comes after. */
  lemma TrimNullsOfPadded(x: seq<byte>, rest: seq<byte>)
    requires forall i :: 0 <= i < |x| ==> x[i] != 0
    ensures TrimNulls(x + [0] + rest) == x
  {
    var b := x + [0] + rest;
    var r := TrimNulls(b);
    assert b[|x|] == 0;
    assert forall i :: 0 <= i < |x| ==> b[i] == x[i];
    assert |r| == |x|;
    assert r == b[..|x|] == x;
  }

  /** Trimming is idempotent. */
  lemma TrimNullsIdempotent(b: seq<byte>)
    ensures TrimNulls(TrimNulls(b)) == TrimNulls(b)
  {
    TrimNullsNoNull(TrimNulls(b));
  }

  /** `read_ascii_octal_trim`: read the digits before the first NUL. */
  method ReadAsciiOctalTrim(o: seq<byte>) returns (r: Result<nat, InvalidOctalError>)
    ensures r == Octal(TrimNulls(o))
  {
    r := ReadAsciiOctal(TrimNulls(o));
  }
}
