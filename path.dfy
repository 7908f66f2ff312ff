/**
 * Paths of the file system (kernel/src/fs/path.rs): a path is a string of
 * components separated by `/`, and `Components` walks it, one component
 * per `next`, shrinking the part of the path still to read.
 */
module Path {
  import opened Wrappers
  import Str

  /** `SEPARATOR`. */
  const SEPARATOR: char := '/'

  /** `Path::is_absolute`. */
  predicate IsAbsolute(p: seq<char>) {
    |p| > 0 && p[0] == SEPARATOR
  }

  /** `Path::is_relative`. */
  predicate IsRelative(p: seq<char>) {
    !IsAbsolute(p)
  }

  /** A path is absolute exactly when its first separator is its first character. */
  lemma AbsoluteIffLeadingSeparator(p: seq<char>)
    ensures IsAbsolute(p) <==> Str.Find(p, SEPARATOR) == Some(0)
  {
  }

  /** A path is relative exactly when it is empty or starts with something other than the separator. */
  lemma RelativeIffNoLeadingSeparator(p: seq<char>)
    ensures IsRelative(p) <==> p == [] || p[0] != SEPARATOR
  {
  }

  /** `Component`. */
  datatype Component = RootDir | CurDir | ParentDir | Normal(name: seq<char>)

  /** The component that the text before a separator stands for. */
  function Classify(segment: seq<char>): (r: Component)
    ensures r == RootDir <==> segment == []
    ensures r == CurDir <==> segment == "."
    ensures r == ParentDir <==> segment == ".."
    ensures r.Normal? ==> r.name == segment
  {
    if segment == [] then RootDir
    else if segment == "." then CurDir
    else if segment == ".." then ParentDir
    else Normal(segment)
  }

  /** `path.find(SEPARATOR).unwrap_or(path.len())`: the end of the first segment. */
  function SepIndex(p: seq<char>): (r: nat)
    ensures r <= |p|
    ensures forall j :: 0 <= j < r ==> p[j] != SEPARATOR
    ensures r < |p| ==> p[r] == SEPARATOR
  {
    match Str.Find(p, SEPARATOR)
    case None => |p|
    case Some(i) => i
  }

  /** The first position at or after `i` that is not a separator (or the end). */
  function SkipSeps(p: seq<char>, i: nat): (r: nat)
    requires i <= |p|
    ensures i <= r <= |p|
    ensures r < |p| ==> p[r] != SEPARATOR
    ensures forall j :: i <= j < r ==> p[j] == SEPARATOR
    decreases |p| - i
  {
    if i < |p| && p[i] == SEPARATOR then SkipSeps(p, i + 1) else i
  }

  /**
   * One `Components::next` on a non-empty remaining path: the component the
   * first segment stands for, and the path past that segment and the
   * separators that follow it.
   */
  function Step(p: seq<char>): (r: (Component, seq<char>))
    requires p != []
  {
    var sep := SepIndex(p);
    (Classify(p[..sep]), p[SkipSeps(p, sep)..])
  }

  /** What one step reads and what it leaves. */
  lemma StepFacts(p: seq<char>)
    requires p != []
    ensures |Step(p).1| < |p|
    ensures Step(p).1 == [] || Step(p).1[0] != SEPARATOR
    ensures Step(p).0 == RootDir <==> IsAbsolute(p)
    ensures Step(p).0.Normal? ==> Step(p).0.name != [] && SEPARATOR !in Step(p).0.name
  {
    var sep := SepIndex(p);
    if sep == 0 {
      assert p[0] == SEPARATOR;
      assert SkipSeps(p, 0) > 0;
    }
  }

  /** The components of a path, in the order `Components` yields them. */
  function ComponentsOf(p: seq<char>): (r: seq<Component>)
    ensures r == [] <==> p == []
    ensures r != [] ==> (r[0] == RootDir <==> IsAbsolute(p))
    ensures forall k :: 1 <= k < |r| ==> r[k] != RootDir
    ensures forall k :: 0 <= k < |r| && r[k].Normal? ==> r[k].name != [] && SEPARATOR !in r[k].name
    decreases |p|
  {
    if p == [] then []
    else
      StepFacts(p);
      [Step(p).0] + ComponentsOf(Step(p).1)
  }

  /** `Components`: the part of the path not read yet. */
  class Components {
    var path: seq<char>

    /** `Path::components`. */
    constructor (p: seq<char>)
      ensures path == p
    {
      path := p;
    }

    /**
     * `Components::next`: none once the path is empty; else the first
     * segment's component, the path moving past that segment and the run
     * of separators after it.
     */
    method Next() returns (r: Option<Component>)
      modifies this
      ensures old(path) == [] ==> r == None && path == []
      ensures old(path) != [] ==> r == Some(Step(old(path)).0) && path == Step(old(path)).1
    {
      if path == [] {
        return None;
      }
      var sepIdx := SepIndex(path);
      var component := Classify(path[..sepIdx]);
      ghost var sep := sepIdx;
      while sepIdx < |path| && path[sepIdx] == SEPARATOR
        invariant sep <= sepIdx <= |path|
        invariant SkipSeps(path, sepIdx) == SkipSeps(path, sep)
        decreases |path| - sepIdx
      {
        sepIdx := sepIdx + 1;
      }
      path := path[sepIdx..];
      r := Some(component);
    }

    /** Iterating to the end yields the components of the path and leaves nothing to read. */
    method Collect() returns (cs: seq<Component>)
      modifies this
      ensures cs == ComponentsOf(old(path)) && path == []
    {
      cs := [];
      ghost var start := path;
      while path != []
        invariant cs + ComponentsOf(path) == ComponentsOf(start)
        decreases |path|
      {
        ghost var step := Step(path);
        StepFacts(path);
        assert ComponentsOf(path) == [step.0] + ComponentsOf(step.1);
        var c := Next();
        assert c == Some(step.0) && path == step.1;
        ConsAssoc(cs, step.0, ComponentsOf(path));
        cs := cs + [c.value];
      }
      assert cs + [] == cs;
      var last := Next();
    }
  }

  /** Moving one item from the front of the rest to the end of the prefix keeps the whole. */
  lemma ConsAssoc(a: seq<Component>, x: Component, rest: seq<Component>)
    ensures (a + [x]) + rest == a + ([x] + rest)
  {
  }

  // ------------------------------------------------------------------ a reference definition

  /** The non-empty strings of `xs`, in order. */
  function NonEmpty(xs: seq<seq<char>>): (r: seq<seq<char>>)
    ensures forall k :: 0 <= k < |r| ==> r[k] != []
  {
    if xs == [] then []
    else (if xs[0] == [] then [] else [xs[0]]) + NonEmpty(xs[1..])
  }

  /** The component of each segment. */
  function ClassifyAll(segments: seq<seq<char>>): (r: seq<Component>)
    ensures |r| == |segments|
  {
    if segments == [] then [] else [Classify(segments[0])] + ClassifyAll(segments[1..])
  }

  /**
   * The components defined without the walk: a root for an absolute path,
   * then one component for each non-empty piece between separators.
   */
  function Reference(p: seq<char>): seq<Component> {
    (if IsAbsolute(p) then [RootDir] else []) + ClassifyAll(NonEmpty(Str.Split(p, SEPARATOR)))
  }

  /** A leading separator adds only an empty piece. */
  lemma SplitLeadingSep(p: seq<char>)
    requires IsAbsolute(p)
    ensures NonEmpty(Str.Split(p, SEPARATOR)) == NonEmpty(Str.Split(p[1..], SEPARATOR))
  {
    assert Str.Find(p, SEPARATOR) == Some(0);
    var rest := Str.Split(p[1..], SEPARATOR);
    Str.SplitAt(p, SEPARATOR, 0);
    assert ([p[..0]] + rest)[1..] == rest;
  }

  /** A run of separators at the front adds only empty pieces. */
  lemma {:induction false} SplitLeadingSeps(p: seq<char>, j: nat)
    requires j <= |p| && forall i :: 0 <= i < j ==> p[i] == SEPARATOR
    ensures NonEmpty(Str.Split(p, SEPARATOR)) == NonEmpty(Str.Split(p[j..], SEPARATOR))
    decreases j
  {
    if j > 0 {
      SplitLeadingSep(p);
      SplitLeadingSeps(p[1..], j - 1);
      assert p[1..][j - 1..] == p[j..];
    }
  }

  /** A relative path splits into its first segment and the pieces after the separator that ends it. */
  lemma SplitFirstSegment(p: seq<char>)
    requires p != [] && IsRelative(p) && SepIndex(p) < |p|
    ensures NonEmpty(Str.Split(p, SEPARATOR)) == [p[..SepIndex(p)]] + NonEmpty(Str.Split(p[SepIndex(p) + 1..], SEPARATOR))
  {
    var i := SepIndex(p);
    Str.SplitAt(p, SEPARATOR, i);
    assert p[..i] != [] by {
      assert p[..i][0] == p[0];
    }
    NonEmptyCons(p[..i], Str.Split(p[i + 1..], SEPARATOR));
  }

  /** A non-empty piece in front is kept in front. */
  lemma NonEmptyCons(x: seq<char>, rest: seq<seq<char>>)
    requires x != []
    ensures NonEmpty([x] + rest) == [x] + NonEmpty(rest)
  {
    assert ([x] + rest)[1..] == rest;
  }

  /** On an absolute path, the pieces are those of the rest after the leading separators. */
  lemma ReferenceAbsolute(p: seq<char>)
    requires IsAbsolute(p)
    ensures Reference(p) == [RootDir] + Reference(Step(p).1)
  {
    assert SepIndex(p) == 0;
    var j := SkipSeps(p, 0);
    var rest := p[j..];
    assert Step(p).1 == rest;
    assert !IsAbsolute(rest);
    var pieces := ClassifyAll(NonEmpty(Str.Split(rest, SEPARATOR)));
    assert Reference(rest) == [] + pieces;
    SplitLeadingSeps(p, j);
    assert Reference(p) == [RootDir] + pieces;
  }

  /** On a relative path without separator, the one piece is the path. */
  lemma ReferenceOneSegment(p: seq<char>)
    requires p != [] && IsRelative(p) && SepIndex(p) == |p|
    ensures Reference(p) == [Classify(p)] && Step(p) == (Classify(p), [])
  {
    assert Str.Split(p, SEPARATOR) == [p];
    assert p[..|p|] == p && p[|p|..] == [];
    assert SkipSeps(p, |p|) == |p|;
    assert NonEmpty([p]) == [p] + NonEmpty([]);
  }

  /** On a relative path with a separator, the first piece is the first segment and the others are those of the rest. */
  lemma PiecesSegments(p: seq<char>)
    requires p != [] && IsRelative(p) && SepIndex(p) < |p|
    ensures NonEmpty(Str.Split(p, SEPARATOR)) == [p[..SepIndex(p)]] + NonEmpty(Str.Split(Step(p).1, SEPARATOR))
  {
    var sep := SepIndex(p);
    var skip := SkipSeps(p, sep);
    SplitFirstSegment(p);
    var tail := p[sep + 1..];
    SplitLeadingSeps(tail, skip - sep - 1);
    assert tail[skip - sep - 1..] == p[skip..];
  }

  /** On a relative path with a separator, the first component is the first segment's. */
  lemma ReferenceSegments(p: seq<char>)
    requires p != [] && IsRelative(p) && SepIndex(p) < |p|
    ensures Reference(p) == [Step(p).0] + Reference(Step(p).1)
  {
    StepFacts(p);
    PiecesSegments(p);
    ReferenceCons(p, p[..SepIndex(p)], Step(p).1);
  }

  /** Two relative paths whose pieces differ by a first piece differ by that piece's component. */
  lemma ReferenceCons(p: seq<char>, first: seq<char>, rest: seq<char>)
    requires IsRelative(p) && IsRelative(rest)
    requires NonEmpty(Str.Split(p, SEPARATOR)) == [first] + NonEmpty(Str.Split(rest, SEPARATOR))
    ensures Reference(p) == [Classify(first)] + Reference(rest)
  {
    var segs := NonEmpty(Str.Split(rest, SEPARATOR));
    assert ([first] + segs)[1..] == segs;
    assert ClassifyAll([first] + segs) == [Classify(first)] + ClassifyAll(segs);
  }

  /** The walk and the reference definition agree on every path. */
  lemma {:induction false} ComponentsOfIsReference(p: seq<char>)
    ensures ComponentsOf(p) == Reference(p)
    decreases |p|
  {
    if p == [] {
      assert Str.Split(p, SEPARATOR) == [[]];
      assert NonEmpty([[]]) == [];
    } else {
      StepFacts(p);
      ComponentsOfIsReference(Step(p).1);
      if IsAbsolute(p) {
        ReferenceAbsolute(p);
      } else if SepIndex(p) == |p| {
        ReferenceOneSegment(p);
        ComponentsOfIsReference([]);
      } else {
        ReferenceSegments(p);
      }
    }
  }

  /** A path is absolute exactly when its first component is the root. */
  lemma AbsoluteIffRootFirst(p: seq<char>)
    ensures IsAbsolute(p) <==> (ComponentsOf(p) != [] && ComponentsOf(p)[0] == RootDir)
    ensures IsRelative(p) <==> (ComponentsOf(p) == [] || ComponentsOf(p)[0] != RootDir)
  {
  }

  /** `"/a"` reads as the root and then `a`. */
  lemma ComponentsExample()
    ensures ComponentsOf("/a") == [RootDir, Normal("a")]
  {
    assert SkipSeps("/a", 0) == 1;
    assert Step("/a") == (RootDir, "a");
    assert Str.Find("a", SEPARATOR) == None;
    assert "a"[..1] == "a" && "a"[1..] == [];
    assert Step("a") == (Normal("a"), []);
  }
}
