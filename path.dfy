/** The two path splitters of the ramfs directory code (axfs_ramfs/src/dir.rs). */
module RamfsPath {
  import opened Common

  /** `str::trim_start_matches('/')`: drops every leading '/'. */
  function TrimSlashes(s: string): (r: string)
    ensures |r| <= |s| && r == s[|s| - |r|..]
    ensures r == [] || r[0] != '/'
    ensures forall i :: 0 <= i < |s| - |r| ==> s[i] == '/'
    decreases |s|
  {
    if |s| > 0 && s[0] == '/' then
      var r := TrimSlashes(s[1..]);
      assert s[1..][|s| - 1 - |r|..] == s[|s| - |r|..];
      r
    else s
  }

  /** `str::find('/')`: the index of the first '/'. */
  function FindSlash(s: string): (r: Option<nat>)
    ensures r.None? <==> '/' !in s
    ensures r.Some? ==> r.value < |s| && s[r.value] == '/' && '/' !in s[..r.value]
  {
    if |s| == 0 then None
    else if s[0] == '/' then Some(0)
    else match FindSlash(s[1..])
      case None => None
      case Some(i) =>
        assert s[..i + 1] == [s[0]] + s[1..][..i];
        Some(i + 1)
  }

  /** `str::rfind('/')`: the index of the last '/'. */
  function RFindSlash(s: string): (r: Option<nat>)
    ensures r.None? <==> '/' !in s
    ensures r.Some? ==> r.value < |s| && s[r.value] == '/' && '/' !in s[r.value + 1..]
  {
    if |s| == 0 then None
    else if s[|s| - 1] == '/' then Some(|s| - 1)
    else
      var r := RFindSlash(s[..|s| - 1]);
      assert s == s[..|s| - 1] + [s[|s| - 1]];
      if r.Some? then
        assert s[r.value + 1..] == s[..|s| - 1][r.value + 1..] + [s[|s| - 1]];
        r
      else r
  }

  /**
   * `split_path`: after dropping leading slashes, the first component and,
   * if a '/' follows it, the rest of the path after that '/'.
   */
  function SplitPath(path: string): (r: (string, Option<string>))
    ensures '/' !in r.0
    ensures r.1.None? ==> r.0 == TrimSlashes(path)
    ensures r.1.Some? ==> TrimSlashes(path) == r.0 + "/" + r.1.value && |r.1.value| < |path|
  {
    var t := TrimSlashes(path);
    match FindSlash(t)
    case None => (t, None)
    case Some(n) =>
      SplitAtFirstSlash(t, n);
      (t[..n], Some(t[n + 1..]))
  }

  /** A string is its text before a '/' at `n`, that '/', and its text after. */
  lemma SplitAtFirstSlash(t: string, n: nat)
    requires n < |t| && t[n] == '/'
    ensures t == t[..n] + "/" + t[n + 1..]
  {
  }

  /**
   * `r` splits `t` at its last '/': `r.1` is the text after it and `r.0` the
   * text before it, or "/" when nothing comes before it.
   */
  ghost predicate ParentNameOf(t: string, r: (string, string))
  {
    var k := |t| - |r.1| - 1;
    && 0 <= k && t[k] == '/' && t[k + 1..] == r.1
    && r.0 == (if k == 0 then "/" else t[..k])
  }

  /**
   * `split_parent_name`: after dropping leading slashes, the text before the
   * last '/' (or "/" when that is empty) and the text after it; "." and the
   * whole path when there is no '/'. The source wraps the pair in a `Result`
   * but never returns an error, so the pair is returned directly.
   */
  function SplitParentName(path: string): (r: (string, string))
    ensures '/' !in r.1
    ensures '/' !in TrimSlashes(path) ==> r == (".", TrimSlashes(path))
    ensures '/' in TrimSlashes(path) ==> ParentNameOf(TrimSlashes(path), r)
  {
    var t := TrimSlashes(path);
    match RFindSlash(t)
    case None => (".", t)
    case Some(pos) =>
      SplitAtSlash(t, pos);
      (if pos == 0 then "/" else t[..pos], t[pos + 1..])
  }

  /** Splitting at a '/' at `pos` is what `ParentNameOf` describes. */
  lemma SplitAtSlash(t: string, pos: nat)
    requires pos < |t| && t[pos] == '/'
    ensures ParentNameOf(t, (if pos == 0 then "/" else t[..pos], t[pos + 1..]))
  {
    assert |t| - |t[pos + 1..]| - 1 == pos;
  }

  /** `str::strip_prefix("tmp/")`, falling back to the string itself. */
  function StripTmpPrefix(s: string): (r: string)
    ensures "tmp/" <= s ==> "tmp/" + r == s
    ensures !("tmp/" <= s) ==> r == s
  {
    if "tmp/" <= s then s[4..] else s
  }
}
