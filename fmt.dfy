/**
 * Formatting helpers (lib/chos-lib/src/fmt.rs): `Bytes`, a byte count
 * displayed as GiB, MiB, KiB and B, and `SizeWriter`, a writer that only
 * counts what is written to it, behind `size_of_fmt`.
 *
 * The formatted arguments of `size_of_fmt` are modelled by the sequence of
 * string pieces that the formatting machinery hands to `write_str`; how a
 * number is rendered (decimal, hex, ...) is a function parameter.
 */
module Fmt {
  const KB: nat := 1024
  const MB: nat := 1024 * KB
  const GB: nat := 1024 * MB
  const U16_MODULUS: nat := 0x1_0000
  const U64_MODULUS: nat := 0x1_0000_0000_0000_0000

  /**
   * `Bytes::split` as written: the gigabytes, megabytes, kilobytes and bytes
   * of the count, each cast to `u16`. The three smaller units are exact; the
   * gigabyte count is cut to 16 bits, so the parts add back up to the count
   * only below 64 TiB.
   */
  method Split(bytes: nat) returns (gb: nat, mb: nat, kb: nat, b: nat)
    requires bytes < U64_MODULUS
    ensures mb < 1024 && kb < 1024 && b < 1024
    ensures gb == (bytes / GB) % U16_MODULUS
    ensures (bytes / GB) * GB + mb * MB + kb * KB + b == bytes
    ensures bytes < U16_MODULUS * GB ==> gb * GB + mb * MB + kb * KB + b == bytes
  {
    var rest := bytes;
    var g := rest / GB;
    rest := rest - g * GB;
    var m := rest / MB;
    rest := rest - m * MB;
    var k := rest / KB;
    rest := rest - k * KB;
    gb, mb, kb, b := g % U16_MODULUS, m % U16_MODULUS, k % U16_MODULUS, rest % U16_MODULUS;
  }

  /** 64 TiB splits into all zeros: it is displayed as `(0B)`. */
  method SplitLosesGigabytes() returns (gb: nat, mb: nat, kb: nat, b: nat)
    ensures gb == 0 && mb == 0 && kb == 0 && b == 0
  {
    gb, mb, kb, b := Split(U16_MODULUS * GB);
  }

  /** The split with the whole gigabyte count kept: what the display is meant to show. */
  datatype Parts = Parts(gb: nat, mb: nat, kb: nat, b: nat)

  /** The corrected split: the parts always add back up to the count. */
  function SplitExact(bytes: nat): (r: Parts)
    ensures r.mb < 1024 && r.kb < 1024 && r.b < 1024
    ensures r.gb * GB + r.mb * MB + r.kb * KB + r.b == bytes
  {
    var g := bytes / GB;
    var rest := bytes % GB;
    Parts(g, rest / MB, rest % MB / KB, rest % KB)
  }

  /** Below 64 TiB the split as written and the corrected one agree. */
  method SplitAgrees(bytes: nat) returns (same: bool)
    requires bytes < U16_MODULUS * GB
    ensures same
  {
    var gb, mb, kb, b := Split(bytes);
    SplitUnique(bytes, Parts(gb, mb, kb, b));
    same := Parts(gb, mb, kb, b) == SplitExact(bytes);
  }

  /** The parts are unique: any bounded parts adding up to the count are `SplitExact`'s. */
  lemma SplitUnique(bytes: nat, p: Parts)
    requires p.mb < 1024 && p.kb < 1024 && p.b < 1024
    requires p.gb * GB + p.mb * MB + p.kb * KB + p.b == bytes
    ensures p == SplitExact(bytes)
  {
    var q := SplitExact(bytes);
    var low := p.mb * MB + p.kb * KB + p.b;
    assert low < GB;
    assert p.gb == bytes / GB && low == bytes % GB;
    assert p.kb * KB + p.b < MB;
    assert p.b < KB;
  }

  /** The units of the display. */
  datatype Unit = GiB | MiB | KiB | Byte

  function Weight(u: Unit): nat {
    match u
    case GiB => GB
    case MiB => MB
    case KiB => KB
    case Byte => 1
  }

  function Suffix(u: Unit): seq<char> {
    match u
    case GiB => "GiB "
    case MiB => "MiB "
    case KiB => "KiB "
    case Byte => "B"
  }

  /**
   * The numbers `fmt_bytes` shows: the leading units that are zero are left
   * out, and the bytes are always shown.
   */
  function Shown(p: Parts): (r: seq<(nat, Unit)>)
    ensures 1 <= |r| <= 4 && r[|r| - 1] == (p.b, Byte)
    ensures |r| > 1 ==> r[0].0 != 0
  {
    (if p.gb != 0 then [(p.gb, GiB)] else [])
    + (if p.gb != 0 || p.mb != 0 then [(p.mb, MiB)] else [])
    + (if p.gb != 0 || p.mb != 0 || p.kb != 0 then [(p.kb, KiB)] else [])
    + [(p.b, Byte)]
  }

  /** The value of the shown numbers, each times its unit. */
  function Value(parts: seq<(nat, Unit)>): nat {
    if parts == [] then 0 else parts[0].0 * Weight(parts[0].1) + Value(parts[1..])
  }

  lemma ValueAppend(a: seq<(nat, Unit)>, b: seq<(nat, Unit)>)
    ensures Value(a + b) == Value(a) + Value(b)
  {
    if a == [] {
      assert a + b == b;
    } else {
      assert (a + b)[1..] == a[1..] + b;
      ValueAppend(a[1..], b);
    }
  }

  /** Nothing is lost by leaving out the leading zero units: the display adds up to the count. */
  lemma ShownValue(bytes: nat)
    ensures Value(Shown(SplitExact(bytes))) == bytes
  {
    var p := SplitExact(bytes);
    var g: seq<(nat, Unit)> := if p.gb != 0 then [(p.gb, GiB)] else [];
    var m: seq<(nat, Unit)> := if p.gb != 0 || p.mb != 0 then [(p.mb, MiB)] else [];
    var k: seq<(nat, Unit)> := if p.gb != 0 || p.mb != 0 || p.kb != 0 then [(p.kb, KiB)] else [];
    assert Shown(p) == g + m + k + [(p.b, Byte)];
    ValueAppend(g + m + k, [(p.b, Byte)]);
    ValueAppend(g + m, k);
    ValueAppend(g, m);
  }

  /** The text written for the shown numbers, each rendered by `fmt` and followed by its unit. */
  function Render(parts: seq<(nat, Unit)>, fmt: nat -> seq<char>): seq<char> {
    if parts == [] then [] else fmt(parts[0].0) + Suffix(parts[0].1) + Render(parts[1..], fmt)
  }

  /** `fmt_bytes` over the corrected split: the shown numbers in parentheses. */
  function FmtBytes(bytes: nat, fmt: nat -> seq<char>): (r: seq<char>)
    ensures |r| >= 3 && r[0] == '(' && r[|r| - 2..] == "B)"
    ensures r == "(" + Render(Shown(SplitExact(bytes)), fmt) + ")"
  {
    var parts := Shown(SplitExact(bytes));
    RenderLast(parts, fmt);
    "(" + Render(parts, fmt) + ")"
  }

  /**
   * The display reads back as the count: it renders numbers, each
   * followed by its unit, whose value is the count, the first of them not
   * zero unless it is the bytes alone.
   */
  lemma FmtBytesAddsUp(bytes: nat, fmt: nat -> seq<char>)
    ensures exists parts: seq<(nat, Unit)> ::
              && FmtBytes(bytes, fmt) == "(" + Render(parts, fmt) + ")"
              && Value(parts) == bytes && 1 <= |parts| <= 4 && parts[|parts| - 1].1 == Byte
              && (|parts| > 1 ==> parts[0].0 != 0)
  {
    ShownValue(bytes);
    var parts := Shown(SplitExact(bytes));
    assert FmtBytes(bytes, fmt) == "(" + Render(parts, fmt) + ")";
  }

  /**
   * `fmt_bytes` as written, over `Bytes::split`: it displays the count
   * with its gigabytes cut to 16 bits, which is the count itself below
   * 64 TiB.
   */
  method FmtBytesAsWritten(bytes: nat, fmt: nat -> seq<char>) returns (r: seq<char>)
    requires bytes < U64_MODULUS
    ensures r == FmtBytes((bytes / GB) % U16_MODULUS * GB + bytes % GB, fmt)
    ensures bytes < U16_MODULUS * GB ==> r == FmtBytes(bytes, fmt)
  {
    var gb, mb, kb, b := Split(bytes);
    r := "(" + Render(Shown(Parts(gb, mb, kb, b)), fmt) + ")";
    var shownCount := gb * GB + bytes % GB;
    assert mb * MB + kb * KB + b == bytes % GB;
    SplitUnique(shownCount, Parts(gb, mb, kb, b));
    if bytes < U16_MODULUS * GB {
      SplitUnique(bytes, Parts(gb, mb, kb, b));
    }
  }

  lemma RenderLast(parts: seq<(nat, Unit)>, fmt: nat -> seq<char>)
    requires parts != [] && parts[|parts| - 1].1 == Byte
    ensures |Render(parts, fmt)| >= 1 && Render(parts, fmt)[|Render(parts, fmt)| - 1] == 'B'
  {
    if |parts| > 1 {
      RenderLast(parts[1..], fmt);
    }
  }

  // ------------------------------------------------------------------ SizeWriter

  /** The number of bytes of the UTF-8 encoding of a character: a Rust `&str` is its UTF-8 bytes. */
  function Utf8Len(c: char): (n: nat)
    ensures 1 <= n <= 4
    ensures n == 1 <==> (c as int) < 0x80
  {
    if (c as int) < 0x80 then 1
    else if (c as int) < 0x800 then 2
    else if (c as int) < 0x1_0000 then 3
    else 4
  }

  /** `str::len`: the number of bytes of the UTF-8 encoding of the text. */
  function Utf8Bytes(s: seq<char>): (n: nat)
    ensures |s| <= n <= 4 * |s|
  {
    if s == [] then 0 else Utf8Len(s[0]) + Utf8Bytes(s[1..])
  }

  lemma {:induction false} Utf8BytesAppend(a: seq<char>, b: seq<char>)
    ensures Utf8Bytes(a + b) == Utf8Bytes(a) + Utf8Bytes(b)
  {
    if a == [] {
      assert a + b == b;
    } else {
      assert (a + b)[1..] == a[1..] + b;
      Utf8BytesAppend(a[1..], b);
    }
  }

  /** Text made only of ASCII characters. */
  predicate Ascii(s: seq<char>) {
    forall i :: 0 <= i < |s| ==> (s[i] as int) < 0x80
  }

  /** A text has as many bytes as characters exactly when it is ASCII. */
  lemma {:induction false} Utf8BytesAscii(s: seq<char>)
    ensures Utf8Bytes(s) == |s| <==> Ascii(s)
  {
    if s != [] {
      Utf8BytesAscii(s[1..]);
      if Ascii(s) {
        assert Ascii(s[1..]) by {
          forall i | 0 <= i < |s| - 1 ensures (s[1..][i] as int) < 0x80 {
            assert s[1..][i] == s[i + 1];
          }
        }
      } else if Ascii(s[1..]) {
        assert (s[0] as int) >= 0x80 by {
          forall i | 1 <= i < |s| ensures (s[i] as int) < 0x80 {
            assert s[i] == s[1..][i - 1];
          }
        }
      }
    }
  }

  /** `SizeWriter`: counts the bytes written to it. */
  class SizeWriter {
    var size: nat

    /** `SizeWriter::new`. */
    constructor ()
      ensures size == 0
    {
      size := 0;
    }

    /** `write_str`: never fails, and grows the size by the byte length of the string. */
    method WriteStr(s: seq<char>) returns (ok: bool)
      modifies this
      ensures ok && size == old(size) + Utf8Bytes(s)
    {
      size := size + Utf8Bytes(s);
      ok := true;
    }
  }

  /** The text of the pieces, one after the other. */
  function Concat(pieces: seq<seq<char>>): seq<char> {
    if pieces == [] then [] else pieces[0] + Concat(pieces[1..])
  }

  lemma ConcatAppend(pieces: seq<seq<char>>, s: seq<char>)
    ensures Concat(pieces + [s]) == Concat(pieces) + s
  {
    if pieces != [] {
      assert (pieces + [s])[1..] == pieces[1..] + [s];
      ConcatAppend(pieces[1..], s);
    }
  }

  /** `size_of_fmt`: the byte length of the formatted text, found by writing every piece to a `SizeWriter`. */
  method SizeOfFmt(pieces: seq<seq<char>>) returns (size: nat)
    ensures size == Utf8Bytes(Concat(pieces))
    ensures size == |Concat(pieces)| <==> Ascii(Concat(pieces))
  {
    var w := new SizeWriter();
    var i := 0;
    while i < |pieces|
      invariant i <= |pieces| && w.size == Utf8Bytes(Concat(pieces[..i]))
    {
      var ok := w.WriteStr(pieces[i]);
      assert pieces[..i + 1] == pieces[..i] + [pieces[i]];
      ConcatAppend(pieces[..i], pieces[i]);
      Utf8BytesAppend(Concat(pieces[..i]), pieces[i]);
      i := i + 1;
    }
    assert pieces[..i] == pieces;
    size := w.size;
    Utf8BytesAscii(Concat(pieces));
  }

  /**
   * The sizes of the formatted texts `""`, `"hello"`, `"{}"` of 1,
   * `"{:b}+{:#x}"` of 10 and 16, `"hello {}"` of `"world"`, and `"{}"` of
   * the one-character text U+00E9, which takes two bytes.
   */
  method SizeOfFmtExamples() returns (a: nat, b: nat, c: nat, d: nat, e: nat, f: nat)
    ensures a == 0 && b == 5 && c == 1 && d == 9 && e == 11 && f == 2
  {
    a := SizeOfFmt([]);
    b := SizeOfFmt(["hello"]);
    c := SizeOfFmt(["1"]);
    d := SizeOfFmt(["1010", "+", "0x10"]);
    e := SizeOfFmt(["hello ", "world"]);
    f := SizeOfFmt([[0xe9 as char]]);
  }
}
