/**
 * The run of `main`: collect every tag, merge the tags' releases, keep the
 * first `MAX_RELEASES` of them and either ask the summariser for a digest
 * of exactly those or, when there are none, produce the fixed fallback
 * text without asking it.
 */
module Digest {
  import opened Records
  import opened Discover
  import opened Dedup

  /** The configured tag list, in priority order. */
  const Tags: seq<string> := [
    "black-metal",
    "atmospheric-black-metal",
    "post-black-metal",
    "blackgaze",
    "depressive-black-metal"
  ]

  const MaxReleases: nat := 20

  /** The digest written when nothing was collected. */
  const FallbackMarkdown: string := "# Дайджест\n\nНичего не найдено"

  /** What the run does after merging: write the fallback text, or hand the
      batch to the summariser. */
  datatype DigestRequest = Fallback | Summarize(batch: seq<Release>)

  /** The outcome of one run. `Aborted`: navigating to the page of
      `failedTag` failed and the run stopped there, before anything was
      saved. `Completed`: `saved` is the merged list written as JSON,
      `request` what was done with it and `markdown` the digest written. */
  datatype Run =
    | Aborted(failedTag: string)
    | Completed(saved: seq<Release>, request: DigestRequest, markdown: string)

  /** `all_releases[:MAX_RELEASES]`: the first `MaxReleases` releases, or
      all of them when there are fewer; never padded. */
  function Bounded(all: seq<Release>): (filtered: seq<Release>)
    ensures filtered <= all
    ensures |filtered| <= MaxReleases
    ensures |all| >= MaxReleases ==> |filtered| == MaxReleases
    ensures |all| < MaxReleases ==> filtered == all
  {
    all[..if |all| < MaxReleases then |all| else MaxReleases]
  }

  /** The branch on `filtered`: the fallback exactly when nothing was
      merged, otherwise the summariser gets the bounded list. */
  function Plan(all: seq<Release>): (req: DigestRequest)
    ensures req.Fallback? <==> all == []
    ensures req.Summarize? ==> req.batch == Bounded(all) && 0 < |req.batch| <= MaxReleases
  {
    var filtered := Bounded(all);
    if filtered == [] then Fallback else Summarize(filtered)
  }

  /** Every tag's page could be navigated to. */
  predicate NavigatesAll(tags: seq<string>, fetch: string -> Page)
  {
    forall i :: 0 <= i < |tags| ==> !fetch(tags[i]).NavigationFailed?
  }

  /** The release lists of the tags, in tag order. */
  function Collected(tags: seq<string>, fetch: string -> Page): (perTag: seq<seq<Release>>)
    requires NavigatesAll(tags, fetch)
    ensures |perTag| == |tags|
  {
    if tags == [] then []
    else
      assert NavigatesAll(tags[..|tags| - 1], fetch);
      Collected(tags[..|tags| - 1], fetch) + [TagReleases(tags[|tags| - 1], fetch(tags[|tags| - 1]))]
  }

  /** The list of tag `i` is what that tag's page yields. */
  lemma {:induction false} CollectedAt(tags: seq<string>, fetch: string -> Page, i: nat)
    requires NavigatesAll(tags, fetch) && i < |tags|
    ensures Collected(tags, fetch)[i] == TagReleases(tags[i], fetch(tags[i]))
    decreases |tags|
  {
    var front := tags[..|tags| - 1];
    assert NavigatesAll(front, fetch);
    if i < |tags| - 1 {
      CollectedAt(front, fetch, i);
      assert front[i] == tags[i];
    }
  }

  /** `main`. The browser is the function `fetch` from a tag to what its
      discover page shows, the chat model the function `summarize`. */
  method RunDigest(tags: seq<string>, fetch: string -> Page, summarize: seq<Release> -> string)
    returns (run: Run)
    ensures run.Aborted? <==> !NavigatesAll(tags, fetch)
    ensures run.Aborted? ==>
      exists i :: 0 <= i < |tags| && run.failedTag == tags[i]
        && fetch(tags[i]).NavigationFailed? && NavigatesAll(tags[..i], fetch)
    ensures run.Completed? ==>
      NavigatesAll(tags, fetch)
      && run.saved == Unique(Flatten(Collected(tags, fetch)))
      && run.request == Plan(run.saved)
      && run.markdown == (if run.request.Fallback? then FallbackMarkdown else summarize(run.request.batch))
  {
    var perTag: seq<seq<Release>> := [];
    var i := 0;
    while i < |tags|
      invariant 0 <= i <= |tags|
      invariant NavigatesAll(tags[..i], fetch)
      invariant perTag == Collected(tags[..i], fetch)
    {
      var tag := tags[i];
      var found := DiscoverReleases(tag, fetch(tag));
      if found.Crashed? {
        assert tags[..i + 1][i] == tag;
        return Aborted(tag);
      }
      assert tags[..i + 1][..i] == tags[..i];
      assert found.releases == TagReleases(tag, fetch(tag));
      perTag := perTag + [found.releases];
      i := i + 1;
    }
    assert tags[..|tags|] == tags;
    var all := MergeReleases(perTag);
    var request := Plan(all);
    var markdown := if request.Fallback? then FallbackMarkdown else summarize(request.batch);
    run := Completed(all, request, markdown);
  }

  /** The fallback is taken exactly when every tag yielded no release,
      in particular when the tag list is empty. */
  lemma FallbackIffNothingCollected(perTag: seq<seq<Release>>)
    ensures Plan(Unique(Flatten(perTag))).Fallback? <==> forall i :: 0 <= i < |perTag| ==> perTag[i] == []
  {
    UniqueEmptyIff(Flatten(perTag));
    FlattenEmptyIff(perTag);
  }

  /** The batch handed to the summariser holds no two releases with the
      same url, and every one of them was collected under some tag. */
  lemma BatchDistinctAndCollected(perTag: seq<seq<Release>>)
    requires Plan(Unique(Flatten(perTag))).Summarize?
    ensures DistinctUrls(Plan(Unique(Flatten(perTag))).batch)
    ensures forall k :: 0 <= k < |Plan(Unique(Flatten(perTag))).batch| ==>
      Plan(Unique(Flatten(perTag))).batch[k] in Flatten(perTag)
  {
    var s := Flatten(perTag);
    var all := Unique(s);
    var batch := Plan(all).batch;
    UniqueDistinct(s);
    UniqueTakesFirstOccurrences(s);
    forall k | 0 <= k < |batch| ensures batch[k] == all[k] && batch[k] in s {
      assert all[k] == s[FirstIndex(s, all[k].url)];
    }
  }

  /** With the configured tags, `black-metal` is collected first, so a url
      listed on the `black-metal` page is always saved with that tag, even
      when a later tag lists it too. */
  lemma BlackMetalListingWins(fetch: string -> Page, x: nat)
    requires NavigatesAll(Tags, fetch)
    requires x < |Collected(Tags, fetch)[0]|
    ensures forall k ::
      (0 <= k < |Unique(Flatten(Collected(Tags, fetch)))|
       && Unique(Flatten(Collected(Tags, fetch)))[k].url == Collected(Tags, fetch)[0][x].url)
      ==> Unique(Flatten(Collected(Tags, fetch)))[k].tag == "black-metal"
  {
    var ts := Collected(Tags, fetch);
    var merged := Unique(Flatten(ts));
    EarlierTagWins(ts, 0, x);
    CollectedAt(Tags, fetch, 0);
    forall k | 0 <= k < |merged| && merged[k].url == ts[0][x].url
      ensures merged[k].tag == "black-metal"
    {
      var c, z :| 0 <= c < |ts| && 0 <= z < |ts[c]| && (c < 0 || (c == 0 && z <= x)) && merged[k] == ts[c][z];
      assert ts[0][z].tag == Tags[0];
    }
  }
}
