/**
 * The PHP string built-ins the adapter applies to paths (`trim`, `rtrim` and
 * `ltrim` with the character list '/', the falsiness of a string), and
 * Flysystem's `Util::dirname`.
 */
module PhpStrings {

  /** A string PHP treats as false, both in `$a ?: $b` and in `empty($a)`. */
  predicate IsFalsy(s: string): (b: bool)
    ensures b <==> |s| <= 1 && forall k :: 0 <= k < |s| ==> s[k] == '0'
  {
    s == "" || s == "0"
  }

  /** Every character of `s` is a '/'. */
  predicate OnlySlashes(s: string) {
    forall k :: 0 <= k < |s| ==> s[k] == '/'
  }

  /** Neither the first nor the last character is a '/': a path as descriptors carry it. */
  predicate IsTrimmed(s: string) {
    s == "" || (s[0] != '/' && s[|s| - 1] != '/')
  }

  /** `ltrim($s, '/')`: the suffix of `s` left once every leading '/' is dropped. */
  function LTrimSlashes(s: string): (r: string)
    ensures |r| <= |s| && r == s[|s| - |r|..]
    ensures r == "" || r[0] != '/'
  {
    if s != "" && s[0] == '/' then LTrimSlashes(s[1..]) else s
  }

  /** `rtrim($s, '/')`: the prefix of `s` left once every trailing '/' is dropped. */
  function RTrimSlashes(s: string): (r: string)
    ensures |r| <= |s| && r == s[..|r|]
    ensures r == "" || r[|r| - 1] != '/'
  {
    if s != "" && s[|s| - 1] == '/' then RTrimSlashes(s[..|s| - 1]) else s
  }

  /** What `ltrim` drops is slashes only. */
  lemma {:induction false} LTrimDropsSlashes(s: string)
    ensures OnlySlashes(s[..|s| - |LTrimSlashes(s)|])
  {
    if s != "" && s[0] == '/' {
      var tail := s[1..];
      LTrimDropsSlashes(tail);
      var n := |tail| - |LTrimSlashes(tail)|;
      forall k | 0 <= k < n + 1 ensures s[k] == '/' {
        if k > 0 {
          assert s[k] == tail[..n][k - 1];
        }
      }
    }
  }

  /** What `rtrim` drops is slashes only. */
  lemma {:induction false} RTrimDropsSlashes(s: string)
    ensures OnlySlashes(s[|RTrimSlashes(s)|..])
  {
    if s != "" && s[|s| - 1] == '/' {
      var init := s[..|s| - 1];
      RTrimDropsSlashes(init);
      var m := |RTrimSlashes(init)|;
      forall k | m <= k < |s| ensures s[k] == '/' {
        if k < |s| - 1 {
          assert s[k] == init[m..][k - m];
        }
      }
    }
  }

  /** `trim($s, '/')`: `s` without its leading and trailing slashes. */
  function TrimSlashes(s: string): (r: string)
    ensures IsTrimmed(r) && |r| <= |s|
  {
    var left := LTrimSlashes(s);
    var r := RTrimSlashes(left);
    assert r == "" || r[0] == left[0];
    r
  }

  /** `s` is a run of slashes, then `r` starting at index `i`, then a run of slashes. */
  predicate BetweenSlashes(s: string, i: nat, r: string) {
    i + |r| <= |s| && r == s[i..i + |r|] && OnlySlashes(s[..i]) && OnlySlashes(s[i + |r|..])
  }

  /** What `trim` drops is slashes only. */
  lemma {:induction false} TrimSlashesSplits(s: string)
    ensures BetweenSlashes(s, |s| - |LTrimSlashes(s)|, TrimSlashes(s))
  {
    var left := LTrimSlashes(s);
    var r := RTrimSlashes(left);
    LTrimDropsSlashes(s);
    RTrimDropsSlashes(left);
    TrimmedSlice(s, left, r);
    assert TrimSlashes(s) == r;
  }

  /**
   * A suffix of `s` that follows slashes only, cut short before slashes
   * only, is a slice of `s` between two runs of slashes.
   */
  lemma {:induction false} TrimmedSlice(s: string, left: string, r: string)
    requires |left| <= |s| && left == s[|s| - |left|..] && OnlySlashes(s[..|s| - |left|])
    requires |r| <= |left| && r == left[..|r|] && OnlySlashes(left[|r|..])
    ensures BetweenSlashes(s, |s| - |left|, r)
  {
    var i := |s| - |left|;
    assert left[|r|..] == s[i + |r|..];
  }

  /** Trimming leaves an already trimmed path as it is. */
  lemma {:induction false} TrimTrimmed(s: string)
    requires IsTrimmed(s)
    ensures TrimSlashes(s) == s
  {
  }

  /** Trimming twice is trimming once. */
  lemma {:induction false} TrimIdempotent(s: string)
    ensures TrimSlashes(TrimSlashes(s)) == TrimSlashes(s)
  {
    TrimTrimmed(TrimSlashes(s));
  }

  /**
   * PHP's `dirname` on a path without leading or trailing '/': everything
   * before the last '/', or "" (where PHP answers ".") when there is none.
   */
  function Dirname(p: string): (d: string)
    ensures |d| <= |p| && d == p[..|d|]
    ensures d != "" ==> |d| < |p|
  {
    if p == "" then ""
    else if p[|p| - 1] == '/' then p[..|p| - 1]
    else Dirname(p[..|p| - 1])
  }

  /** The last segment of a path: everything after its last '/'. */
  function Basename(p: string): (b: string)
    ensures |b| <= |p| && b == p[|p| - |b|..]
    ensures '/' !in b
  {
    if p == "" || p[|p| - 1] == '/' then ""
    else
      var init := p[..|p| - 1];
      var b := Basename(init) + [p[|p| - 1]];
      assert init[|init| - |Basename(init)|..] + [p[|p| - 1]] == p[|p| - |b|..];
      b
  }

  /** A path is its dirname, a '/', and its basename; without a '/' its dirname is "". */
  lemma {:induction false} SplitAtLastSlash(p: string)
    ensures '/' in p ==> p == Dirname(p) + "/" + Basename(p)
    ensures '/' !in p ==> Dirname(p) == "" && Basename(p) == p
  {
    if p != "" {
      var init, c := p[..|p| - 1], p[|p| - 1];
      assert p == init + [c];
      if c == '/' {
        assert Dirname(p) == init && Basename(p) == "";
      } else {
        SplitAtLastSlash(init);
        assert Dirname(p) == Dirname(init);
        assert Basename(p) == Basename(init) + [c];
        assert ('/' in p) == ('/' in init);
        if '/' in init {
          assert p == Dirname(init) + "/" + Basename(init) + [c];
        }
      }
    }
  }

  /** Splitting a joined path gives back its two parts. */
  lemma {:induction false} DirnameOfJoin(dir: string, name: string)
    requires '/' !in name
    ensures Dirname(dir + "/" + name) == dir
    ensures Basename(dir + "/" + name) == name
  {
    if name == [] {
      assert (dir + "/" + name)[..|dir|] == dir;
    } else {
      var init := name[..|name| - 1];
      assert dir + "/" + name == (dir + "/" + init) + [name[|name| - 1]];
      assert (dir + "/" + name)[..|dir + "/" + init|] == dir + "/" + init;
      DirnameOfJoin(dir, init);
    }
  }

  /**
   * Flysystem's `Util::dirname`: PHP's `dirname` with the "." it answers for
   * an entry of the current directory normalised to "".
   */
  function UtilDirname(p: string): (d: string)
    ensures d != "."
    ensures Dirname(p) != "." ==> d == Dirname(p)
    ensures Dirname(p) == "." ==> d == ""
  {
    var parent := Dirname(p);
    if parent == "." then "" else parent
  }

  /** The dirname of `dir/name` is `dir`, or "" when `dir` is ".". */
  lemma {:induction false} UtilDirnameOfJoin(dir: string, name: string)
    requires '/' !in name
    ensures UtilDirname(dir + "/" + name) == (if dir == "." then "" else dir)
  {
    DirnameOfJoin(dir, name);
  }

  /**
   * A trimmed path with a '/' is its `Util::dirname` (or "." where that is
   * ""), a '/', and its last segment; without a '/' its dirname is "".
   */
  lemma {:induction false} UtilDirnameSplits(p: string)
    requires IsTrimmed(p)
    ensures '/' in p ==> p == (if UtilDirname(p) == "" then "." else UtilDirname(p)) + "/" + Basename(p)
    ensures '/' !in p ==> UtilDirname(p) == ""
  {
    SplitAtLastSlash(p);
    if '/' in p {
      assert p[|Dirname(p)|] == '/';
    }
  }
}
