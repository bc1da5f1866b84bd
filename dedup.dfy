/**
 * The merge pass of `main`: the release lists of the tags, taken in tag
 * order, are concatenated and a release is kept only when its url has not
 * been seen before.
 */
module Dedup {
  import opened Records

  /** The urls of the releases in `s`. */
  function Urls(s: seq<Release>): set<string>
  {
    set i | 0 <= i < |s| :: s[i].url
  }

  /** Appending a release adds its url. */
  lemma UrlsSnoc(s: seq<Release>, r: Release)
    ensures Urls(s + [r]) == Urls(s) + {r.url}
  {
    assert (s + [r])[|s|] == r;
    assert forall i :: 0 <= i < |s| ==> (s + [r])[i] == s[i];
  }

  /** No two releases of `s` share a url. */
  ghost predicate DistinctUrls(s: seq<Release>)
  {
    forall i, j :: 0 <= i < j < |s| ==> s[i].url != s[j].url
  }

  /** The per-tag lists one after the other, in tag order. */
  function Flatten(ts: seq<seq<Release>>): (s: seq<Release>)
  {
    if ts == [] then [] else Flatten(ts[..|ts| - 1]) + ts[|ts| - 1]
  }

  /** The first-seen-wins merge of `s`: each release whose url does not
      occur earlier in `s`, in the order of `s`. */
  function Unique(s: seq<Release>): (r: seq<Release>)
    ensures |r| <= |s|
    ensures Urls(r) == Urls(s)
  {
    if s == [] then []
    else
      var kept := Unique(s[..|s| - 1]);
      var last := s[|s| - 1];
      assert s == s[..|s| - 1] + [last];
      UrlsSnoc(s[..|s| - 1], last);
      if last.url in Urls(kept) then kept
      else
        UrlsSnoc(kept, last);
        kept + [last]
  }

  /** After the merge no two releases share a url. */
  lemma {:induction false} UniqueDistinct(s: seq<Release>)
    ensures DistinctUrls(Unique(s))
    decreases |s|
  {
    if s != [] {
      var kept := Unique(s[..|s| - 1]);
      var last := s[|s| - 1];
      UniqueDistinct(s[..|s| - 1]);
      if last.url !in Urls(kept) {
        assert Unique(s) == kept + [last];
      }
    }
  }

  /** Extending the input by one release extends the merge by it exactly
      when its url is new. */
  lemma UniqueSnoc(s: seq<Release>, r: Release)
    ensures Unique(s + [r]) == if r.url in Urls(Unique(s)) then Unique(s) else Unique(s) + [r]
  {
    assert (s + [r])[..|s|] == s;
  }

  /** The position in `s` where the url `u` first occurs. */
  function FirstIndex(s: seq<Release>, u: string): (i: nat)
    requires u in Urls(s)
    ensures i < |s| && s[i].url == u
    ensures forall j :: 0 <= j < i ==> s[j].url != u
  {
    var p := s[..|s| - 1];
    assert forall i :: 0 <= i < |p| ==> p[i] == s[i];
    if u in Urls(p) then FirstIndex(p, u) else |s| - 1
  }

  /** The inner loop of the merge pass, over the releases of one tag: a
      release is appended only when its url is not in `seen`, and its url
      is then added to `seen`. `consumed` stands for the releases the pass
      has already gone through. */
  method MergeTag(all0: seq<Release>, seen0: set<string>, releases: seq<Release>, ghost consumed: seq<Release>)
    returns (all: seq<Release>, seen: set<string>)
    requires all0 == Unique(consumed) && seen0 == Urls(all0)
    ensures all == Unique(consumed + releases)
    ensures seen == Urls(all)
  {
    all, seen := all0, seen0;
    var j := 0;
    assert consumed + releases[..0] == consumed;
    while j < |releases|
      invariant 0 <= j <= |releases|
      invariant all == Unique(consumed + releases[..j])
      invariant seen == Urls(all)
    {
      var r := releases[j];
      assert consumed + releases[..j + 1] == (consumed + releases[..j]) + [r];
      UniqueSnoc(consumed + releases[..j], r);
      if r.url !in seen {
        UrlsSnoc(all, r);
        all := all + [r];
        seen := seen + {r.url};
      }
      j := j + 1;
    }
    assert releases[..|releases|] == releases;
  }

  /** The merge pass of `main`: the tags' release lists in tag order, each
      release kept only when its url was not seen before. */
  method MergeReleases(perTag: seq<seq<Release>>) returns (all: seq<Release>)
    ensures all == Unique(Flatten(perTag))
    ensures DistinctUrls(all)
    ensures Urls(all) == Urls(Flatten(perTag))
  {
    all := [];
    var seen: set<string> := {};
    var i := 0;
    while i < |perTag|
      invariant 0 <= i <= |perTag|
      invariant all == Unique(Flatten(perTag[..i]))
      invariant seen == Urls(all)
    {
      all, seen := MergeTag(all, seen, perTag[i], Flatten(perTag[..i]));
      assert perTag[..i + 1][..i] == perTag[..i];
      i := i + 1;
    }
    assert perTag[..|perTag|] == perTag;
    UniqueDistinct(Flatten(perTag));
  }

  /** Order and first-seen priority: the merge holds, for each url of `s`,
      the release at the url's first position, and lists them in the order
      of those positions. */
  lemma {:induction false} UniqueTakesFirstOccurrences(s: seq<Release>)
    ensures forall k :: 0 <= k < |Unique(s)| ==>
      Unique(s)[k].url in Urls(s) && Unique(s)[k] == s[FirstIndex(s, Unique(s)[k].url)]
    ensures forall k1, k2 :: 0 <= k1 < k2 < |Unique(s)| ==>
      Unique(s)[k1].url in Urls(s) && Unique(s)[k2].url in Urls(s)
      && FirstIndex(s, Unique(s)[k1].url) < FirstIndex(s, Unique(s)[k2].url)
    decreases |s|
  {
    if s != [] {
      var p := s[..|s| - 1];
      var last := s[|s| - 1];
      UniqueTakesFirstOccurrences(p);
      var kept := Unique(p);
      forall k | 0 <= k < |kept|
        ensures kept[k].url in Urls(p)
        ensures FirstIndex(s, kept[k].url) == FirstIndex(p, kept[k].url)
        ensures s[FirstIndex(s, kept[k].url)] == p[FirstIndex(p, kept[k].url)]
      {
      }
      if last.url !in Urls(kept) {
        assert FirstIndex(s, last.url) == |s| - 1;
        assert Unique(s) == kept + [last];
      }
    }
  }

  /** Empty merge exactly for empty input. */
  lemma UniqueEmptyIff(s: seq<Release>)
    ensures Unique(s) == [] <==> s == []
  {
    if s != [] {
      assert s[0].url in Urls(s);
    }
  }

  /** Start of the list of tag `a` inside the concatenation. */
  function Offset(ts: seq<seq<Release>>, a: nat): nat
    requires a <= |ts|
  {
    |Flatten(ts[..a])|
  }

  /** The lists of the first `a` tags come first in the concatenation, and
      the list of tag `a` follows them. */
  lemma {:induction false} FlattenPrefix(ts: seq<seq<Release>>, a: nat, b: nat)
    requires a < b <= |ts|
    ensures Flatten(ts[..a]) + ts[a] <= Flatten(ts[..b])
    decreases b
  {
    var fb := Flatten(ts[..b]);
    assert ts[..b][..b - 1] == ts[..b - 1];
    assert fb == Flatten(ts[..b - 1]) + ts[b - 1];
    if a < b - 1 {
      FlattenPrefix(ts, a, b - 1);
    } else {
      assert ts[..b][b - 1] == ts[a];
    }
  }

  /** Release `x` of tag `a` sits at `Offset(ts, a) + x` in the concatenation. */
  lemma FlattenAt(ts: seq<seq<Release>>, a: nat, x: nat)
    requires a < |ts| && x < |ts[a]|
    ensures Offset(ts, a) + x < |Flatten(ts)| && Flatten(ts)[Offset(ts, a) + x] == ts[a][x]
  {
    FlattenPrefix(ts, a, |ts|);
    assert ts[..|ts|] == ts;
    assert (Flatten(ts[..a]) + ts[a])[Offset(ts, a) + x] == ts[a][x];
  }

  /** Every position of the concatenation belongs to exactly one tag's list. */
  lemma {:induction false} FlattenSplit(ts: seq<seq<Release>>, p: nat)
    requires p < |Flatten(ts)|
    ensures exists c, z ::
      (0 <= c < |ts| && 0 <= z < |ts[c]| && p == Offset(ts, c) + z && Flatten(ts)[p] == ts[c][z])
    decreases |ts|
  {
    var n := |ts| - 1;
    var front := ts[..n];
    assert Flatten(ts) == Flatten(front) + ts[n];
    if p < |Flatten(front)| {
      FlattenSplit(front, p);
      var c, z :| 0 <= c < |front| && 0 <= z < |front[c]|
        && p == Offset(front, c) + z && Flatten(front)[p] == front[c][z];
      assert front[..c] == ts[..c];
      assert Offset(ts, c) + z == p && Flatten(ts)[p] == ts[c][z];
    } else {
      var z := p - |Flatten(front)|;
      assert Offset(ts, n) == |Flatten(front)|;
      assert Flatten(ts)[p] == ts[n][z];
    }
  }

  /** A position earlier in the concatenation belongs to an earlier tag, or
      to the same tag at an earlier position. */
  lemma OffsetOrder(ts: seq<seq<Release>>, c: nat, z: nat, a: nat, x: nat)
    requires c < |ts| && z < |ts[c]| && a < |ts| && x < |ts[a]|
    requires Offset(ts, c) + z <= Offset(ts, a) + x
    ensures c < a || (c == a && z <= x)
  {
    if c > a {
      FlattenPrefix(ts, a, c);
    }
  }

  /** First seen wins across tags: the release kept for the url of
      release `x` of tag `a` is a release of a tag no later than `a`, and
      of tag `a` itself only at a position no later than `x`. */
  lemma EarlierTagWins(ts: seq<seq<Release>>, a: nat, x: nat)
    requires a < |ts| && x < |ts[a]|
    ensures exists k :: 0 <= k < |Unique(Flatten(ts))| && Unique(Flatten(ts))[k].url == ts[a][x].url
    ensures forall k :: 0 <= k < |Unique(Flatten(ts))| && Unique(Flatten(ts))[k].url == ts[a][x].url ==>
      exists c, z ::
        (0 <= c < |ts| && 0 <= z < |ts[c]| && (c < a || (c == a && z <= x))
         && Unique(Flatten(ts))[k] == ts[c][z])
  {
    var s := Flatten(ts);
    var u := ts[a][x].url;
    FlattenAt(ts, a, x);
    var pos := Offset(ts, a) + x;
    assert s[pos].url == u;
    assert u in Urls(Unique(s));
    UniqueTakesFirstOccurrences(s);
    forall k | 0 <= k < |Unique(s)| && Unique(s)[k].url == u
      ensures exists c, z ::
        (0 <= c < |ts| && 0 <= z < |ts[c]| && (c < a || (c == a && z <= x)) && Unique(s)[k] == ts[c][z])
    {
      var f := FirstIndex(s, u);
      assert f <= pos;
      FlattenSplit(ts, f);
      var c, z :| 0 <= c < |ts| && 0 <= z < |ts[c]| && f == Offset(ts, c) + z && s[f] == ts[c][z];
      OffsetOrder(ts, c, z, a, x);
    }
  }

  /** The concatenation is empty exactly when every tag gave no release. */
  lemma {:induction false} FlattenEmptyIff(ts: seq<seq<Release>>)
    ensures Flatten(ts) == [] <==> forall i :: 0 <= i < |ts| ==> ts[i] == []
    decreases |ts|
  {
    if ts != [] {
      var front := ts[..|ts| - 1];
      FlattenEmptyIff(front);
      assert forall i :: 0 <= i < |front| ==> front[i] == ts[i];
    }
  }
}
