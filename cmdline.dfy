/**
 * The boot command line (boot/src/arch/x64/cmdline.rs): the line is split
 * on single spaces, and each token is read as `key=value` or as a bare
 * `key`.
 */
module CmdLine {
  import opened Wrappers
  import Str

  /** One item of the command line: the key and, when the token has an `=`, the value after it. */
  datatype Arg = Arg(key: seq<char>, value: Option<seq<char>>)

  /**
   * `CmdLine::next` on one token: split at the first `=`, the key before
   * it and the value after it; a token without `=` is a bare key.
   */
  function ParseArg(kv: seq<char>): (r: Arg)
    ensures '=' !in r.key
    ensures r.value.None? <==> '=' !in kv
    ensures r.value.None? ==> r.key == kv
    ensures r.value.Some? ==> kv == r.key + "=" + r.value.value
  {
    match Str.Find(kv, '=')
    case Some(idx) =>
      assert kv == kv[..idx] + "=" + kv[idx + 1..];
      Arg(kv[..idx], Some(kv[idx + 1..]))
    case None => Arg(kv, None)
  }

  /** `iter_cmdline`: the items, one per space-separated token, empty tokens included. */
  function IterCmdline(cmdline: seq<char>): (r: seq<Arg>)
    ensures |r| == |Str.Split(cmdline, ' ')|
    ensures forall k :: 0 <= k < |r| ==> ' ' !in r[k].key && '=' !in r[k].key
  {
    var tokens := Str.Split(cmdline, ' ');
    seq(|tokens|, k requires 0 <= k < |tokens| => ParseArg(tokens[k]))
  }

  /** An item written back as a token. */
  function Render(a: Arg): (r: seq<char>)
    ensures '=' !in a.key ==> ParseArg(r) == a
  {
    match a.value
    case None => a.key
    case Some(v) =>
      FirstEqualsAfterKey(a.key, v);
      a.key + "=" + v
  }

  /** The first `=` of a rendered `key=value` is the one after a key without `=`. */
  lemma FirstEqualsAfterKey(key: seq<char>, v: seq<char>)
    ensures '=' !in key ==> Str.Find(key + "=" + v, '=') == Some(|key|)
  {
    if '=' !in key {
      Str.FindIsFirst(key + "=" + v, '=', |key|);
    }
  }

  /** The items written back, separated by single spaces. */
  function RenderAll(args: seq<Arg>): seq<char>
    requires |args| >= 1
  {
    Str.Join(seq(|args|, k requires 0 <= k < |args| => Render(args[k])), ' ')
  }

  /** Reading a token and writing the item back gives the token. */
  lemma RenderParseArg(kv: seq<char>)
    ensures Render(ParseArg(kv)) == kv
  {
  }

  /** The command line is read losslessly: writing the items back gives the command line. */
  lemma RenderIterCmdline(cmdline: seq<char>)
    ensures RenderAll(IterCmdline(cmdline)) == cmdline
  {
    var tokens := Str.Split(cmdline, ' ');
    var args := IterCmdline(cmdline);
    var rendered := seq(|args|, k requires 0 <= k < |args| => Render(args[k]));
    forall k | 0 <= k < |args|
      ensures rendered[k] == tokens[k]
    {
      RenderParseArg(tokens[k]);
    }
    assert rendered == tokens;
    Str.JoinSplit(cmdline, ' ');
  }

  /** There is one item more than there are spaces. */
  lemma ItemCount(cmdline: seq<char>)
    ensures |IterCmdline(cmdline)| == Str.Count(cmdline, ' ') + 1
  {
    Str.SplitCount(cmdline, ' ');
  }

  /** A `key=value` token. */
  lemma ParseKeyValue()
    ensures ParseArg("console=ttyS0") == Arg("console", Some("ttyS0"))
  {
    var kv := "console=ttyS0";
    Str.FindIsFirst(kv, '=', 7);
    assert kv[..7] == "console" && kv[8..] == "ttyS0";
  }

  /** A bare token. */
  lemma ParseBare()
    ensures ParseArg("quiet") == Arg("quiet", None)
  {
  }

  /** The value keeps any `=` after the first one. */
  lemma ParseSecondEquals()
    ensures ParseArg("a=b=c") == Arg("a", Some("b=c"))
  {
    var kv := "a=b=c";
    Str.FindIsFirst(kv, '=', 1);
    assert kv[..1] == "a" && kv[2..] == "b=c";
  }

  /** An empty command line still gives one item: the empty bare key. */
  lemma EmptyCmdline()
    ensures IterCmdline("") == [Arg("", None)]
  {
  }
}
