/**
 * The two `str` operations the command line and path parsers build on:
 * `find` of a character and `split` on a character. Strings are sequences
 * of characters; an index is a character position.
 */
module Str {
  import opened Wrappers

  /** `str::find(c)`: the position of the first `c`, none when `c` does not occur. */
  function Find(s: seq<char>, c: char): (r: Option<nat>)
    ensures r.None? <==> c !in s
    ensures r.Some? ==> r.value < |s| && s[r.value] == c
    ensures r.Some? ==> forall j :: 0 <= j < r.value ==> s[j] != c
  {
    if s == [] then None
    else if s[0] == c then Some(0)
    else match Find(s[1..], c)
      case None => None
      case Some(i) => Some(i + 1)
  }

  /** The first occurrence is unique: a position holding `c` with no `c` before it is the one `Find` returns. */
  lemma FindIsFirst(s: seq<char>, c: char, i: nat)
    requires i < |s| && s[i] == c && forall j :: 0 <= j < i ==> s[j] != c
    ensures Find(s, c) == Some(i)
  {
  }

  /** `str::split(c)`: the pieces between the occurrences of `c`, empty pieces included; always at least one piece. */
  function Split(s: seq<char>, c: char): (r: seq<seq<char>>)
    ensures |r| >= 1
    ensures forall k :: 0 <= k < |r| ==> c !in r[k]
    decreases |s|
  {
    match Find(s, c)
    case None => [s]
    case Some(i) => [s[..i]] + Split(s[i + 1..], c)
  }

  /** With the first `c` at `i`, the first piece is the text before it and the others are the pieces after it. */
  lemma SplitAt(s: seq<char>, c: char, i: nat)
    requires Find(s, c) == Some(i)
    ensures Split(s, c) == [s[..i]] + Split(s[i + 1..], c)
  {
  }

  /** The pieces joined with `c` between them. */
  function Join(pieces: seq<seq<char>>, c: char): (r: seq<char>)
    requires |pieces| >= 1
    ensures pieces[0] <= r
    ensures (forall k :: 0 <= k < |pieces| ==> c !in pieces[k]) ==> Count(r, c) == |pieces| - 1
  {
    if |pieces| == 1 then pieces[0]
    else
      var rest := Join(pieces[1..], c);
      CountAppend(pieces[0] + [c], rest, c);
      CountAppend(pieces[0], [c], c);
      pieces[0] + [c] + rest
  }

  /** The number of occurrences of `c`. */
  function Count(s: seq<char>, c: char): (r: nat)
    ensures r <= |s|
    ensures r == 0 <==> c !in s
  {
    if s == [] then 0 else (if s[0] == c then 1 else 0) + Count(s[1..], c)
  }

  lemma CountAppend(a: seq<char>, b: seq<char>, c: char)
    ensures Count(a + b, c) == Count(a, c) + Count(b, c)
  {
    if a == [] {
      assert a + b == b;
    } else {
      assert (a + b)[1..] == a[1..] + b;
      CountAppend(a[1..], b, c);
    }
  }

  /** Splitting loses nothing: joining the pieces back with `c` gives the string. */
  lemma {:induction false} JoinSplit(s: seq<char>, c: char)
    ensures Join(Split(s, c), c) == s
    decreases |s|
  {
    match Find(s, c)
    case None =>
    case Some(i) =>
      var rest := Split(s[i + 1..], c);
      SplitAt(s, c, i);
      JoinSplit(s[i + 1..], c);
      JoinCons(s[..i], rest, c);
      Around(s, i);
  }

  /** A string is the part before position `i`, the character there and the part after. */
  lemma Around(s: seq<char>, i: nat)
    requires i < |s|
    ensures s == s[..i] + [s[i]] + s[i + 1..]
  {
  }

  /** Joining a piece in front of more pieces puts `c` between it and their join. */
  lemma JoinCons(p: seq<char>, rest: seq<seq<char>>, c: char)
    requires |rest| >= 1
    ensures Join([p] + rest, c) == p + [c] + Join(rest, c)
  {
    assert ([p] + rest)[1..] == rest;
  }

  /** Splitting a join gives the pieces back, when no piece holds `c`. */
  lemma {:induction false} SplitJoin(pieces: seq<seq<char>>, c: char)
    requires |pieces| >= 1
    requires forall k :: 0 <= k < |pieces| ==> c !in pieces[k]
    ensures Split(Join(pieces, c), c) == pieces
    decreases |pieces|
  {
    var p := pieces[0];
    if |pieces| > 1 {
      var s := Join(pieces, c);
      assert s == p + [c] + Join(pieces[1..], c);
      assert s[|p|] == c && s[..|p|] == p;
      assert forall j :: 0 <= j < |p| ==> s[j] == p[j];
      FindIsFirst(s, c, |p|);
      assert s[|p| + 1..] == Join(pieces[1..], c);
      SplitJoin(pieces[1..], c);
    }
  }

  /** The occurrences in `s` are the one `Find` returns and those after it. */
  lemma CountPastFirst(s: seq<char>, c: char, i: nat)
    requires Find(s, c) == Some(i)
    ensures Count(s, c) == 1 + Count(s[i + 1..], c)
  {
    assert s == s[..i] + ([c] + s[i + 1..]);
    CountAppend(s[..i], [c] + s[i + 1..], c);
    CountAppend([c], s[i + 1..], c);
    assert c !in s[..i];
  }

  /** There is one more piece than there are occurrences of `c`. */
  lemma {:induction false} SplitCount(s: seq<char>, c: char)
    ensures |Split(s, c)| == Count(s, c) + 1
    decreases |s|
  {
    match Find(s, c)
    case None =>
    case Some(i) =>
      SplitAt(s, c, i);
      SplitCount(s[i + 1..], c);
      CountPastFirst(s, c, i);
  }

  /** `Split` on a fixed input. */
  lemma SplitExample()
    ensures Split("a  b", ' ') == ["a", "", "b"]
    ensures Split("", ' ') == [""]
  {
    assert Find("a  b", ' ') == Some(1);
    SplitAt("a  b", ' ', 1);
    assert "a  b"[..1] == "a" && "a  b"[2..] == " b";
    SplitSpaceB();
  }

  /** The tail of the example: a leading `c` gives an empty first piece. */
  lemma SplitSpaceB()
    ensures Split(" b", ' ') == ["", "b"]
  {
    assert Find(" b", ' ') == Some(0);
    SplitAt(" b", ' ', 0);
    assert " b"[..0] == "" && " b"[1..] == "b";
    assert Find("b", ' ') == None;
  }
}
