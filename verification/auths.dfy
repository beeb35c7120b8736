/** The capability list of a cookie and its path check (class `Auths` of
    nestor.py). A capability list is a list of path prefixes; a request path
    is allowed when one of them is a literal string prefix of it. */
module Auths {

  /** Reference meaning of "`path` is allowed by `auths`": some entry is a
      string prefix of `path`. Dafny's `<=` on sequences is the prefix order,
      which is Python's `path.startswith(entry)` on code points. */
  ghost predicate Admits(auths: seq<string>, path: string) {
    exists i :: 0 <= i < |auths| && auths[i] <= path
  }

  /** `Auths.check`: scan the entries in order and answer as soon as one is a
      prefix of `path`. */
  function Check(auths: seq<string>, path: string): (allowed: bool)
    ensures allowed <==> Admits(auths, path)
  {
    if |auths| == 0 then false
    else if auths[0] <= path then true
    else Check(auths[1..], path)
  }

  /** An empty list allows nothing. */
  lemma EmptyListDeniesEverything(path: string)
    ensures !Check([], path)
  {
  }

  /** The empty string is a prefix of every path, so a list holding `""`
      allows every path; this is the entry a successful login appends. */
  lemma EmptyEntryAdmitsEverything(auths: seq<string>, path: string)
    requires "" in auths
    ensures Check(auths, path)
  {
  }

  /** The check is literal, not segment-aware: `/a` admits `/ab`, while `/a/`
      does not; a folder admits its sub-folders. */
  lemma LiteralPrefixExamples()
    ensures Check(["/a"], "/ab")
    ensures !Check(["/a/"], "/ab")
    ensures Check(["/gallery"], "/gallery/2024")
    ensures !Check(["/other"], "/gallery/2024")
    ensures Check(["/"], "/album/subalbum")
  {
    assert ["/a"][0] <= "/ab";
    assert ["/gallery"][0] <= "/gallery/2024";
    assert ["/"][0] <= "/album/subalbum";
    assert !(["/a/"][0] <= "/ab") by { assert "/a/"[2] != "/ab"[2]; }
    assert !(["/other"][0] <= "/gallery/2024") by { assert "/other"[1] != "/gallery/2024"[1]; }
  }

  /** Monotonicity: every entry of `small` also in `large` means every path
      `small` allows is allowed by `large`. Appending entries, reordering
      them or duplicating them can never turn an allowed path into a denied
      one. */
  lemma CheckMonotone(small: seq<string>, large: seq<string>, path: string)
    requires forall i :: 0 <= i < |small| ==> small[i] in large
    ensures Check(small, path) ==> Check(large, path)
  {
  }

  /** Order and duplicates are irrelevant: two lists with the same entries
      give the same answer for every path. */
  lemma CheckDependsOnlyOnEntries(a: seq<string>, b: seq<string>, path: string)
    requires forall s :: s in a <==> s in b
    ensures Check(a, path) == Check(b, path)
  {
    CheckMonotone(a, b, path);
    CheckMonotone(b, a, path);
  }

  /** The answer for a concatenation is the disjunction of the answers. */
  lemma {:induction false} CheckConcat(a: seq<string>, b: seq<string>, path: string)
    ensures Check(a + b, path) <==> Check(a, path) || Check(b, path)
  {
    if |a| == 0 {
      assert a + b == b;
    } else {
      assert (a + b)[0] == a[0];
      assert (a + b)[1..] == a[1..] + b;
      CheckConcat(a[1..], b, path);
    }
  }

  /** Allowing a path allows every extension of it: granting a folder
      grants all its sub-folders. */
  lemma CheckPrefixClosed(auths: seq<string>, path: string, suffix: string)
    ensures Check(auths, path) ==> Check(auths, path + suffix)
  {
  }
}
