/**
 * Collection of the releases listed under one tag (`get_discover_releases`):
 * what the browser hands back for a discover page, the keep/skip rule for
 * one card, and the loop that builds the tag's release list.
 */
module Discover {
  import opened Records

  /** What loading `https://bandcamp.com/discover/<tag>` gives.
      `NavigationFailed`: `page.goto` raised (a timeout, a DNS or connection
      error, ...); nothing catches that, so the whole run stops.
      `SelectorFailed`: waiting for `.discover-result` raised (a timeout or
      any other exception); the tag yields no releases. `Loaded`: the cards,
      in page order. */
  datatype Page = NavigationFailed | SelectorFailed | Loaded(items: seq<ScrapedItem>)

  /** The result of collecting one tag. */
  datatype Discovery = Crashed | Found(releases: seq<Release>)

  /** The stripped text of an optional element, `""` when it is missing. */
  function TextOf(text: Option<string>): (t: string)
    ensures text.None? ==> t == ""
    ensures text.Some? ==> t == Strip(text.value)
  {
    if text.Some? then Strip(text.value) else ""
  }

  /** The keep/skip rule for one card. A card is kept exactly when its
      heading has a non-blank text and its link has a non-empty `href`;
      the kept record is then fixed field by field from the card. */
  function KeepItem(tag: string, item: ScrapedItem): (r: Option<Release>)
    ensures r.Some? <==>
      item.heading.Some? && !AllSpace(item.heading.value)
      && item.href.Some? && item.href.value != ""
    ensures r.Some? ==>
      r.value == Release(Strip(item.heading.value), TextOf(item.subtext), item.href.value,
                         tag, TextOf(item.tags), item.clock)
    ensures r.Some? ==> r.value.title != "" && Trimmed(r.value.title)
  {
    var title := if item.heading.Some? then Some(Strip(item.heading.value)) else None;
    var artist := if item.subtext.Some? then Strip(item.subtext.value) else "";
    var genre := if item.tags.Some? then Strip(item.tags.value) else "";
    if title.Some? && title.value != "" && item.href.Some? && item.href.value != "" then
      Some(Release(title.value, artist, item.href.value, tag, genre, item.clock))
    else
      None
  }

  /** The releases the loop builds from the cards `items` of `tag`'s page:
      the kept cards, in page order. */
  function Normalized(tag: string, items: seq<ScrapedItem>): (rs: seq<Release>)
    ensures |rs| <= |items|
    ensures forall k :: 0 <= k < |rs| ==>
      rs[k].tag == tag && rs[k].title != "" && rs[k].url != ""
  {
    if items == [] then []
    else
      var rest := Normalized(tag, items[..|items| - 1]);
      match KeepItem(tag, items[|items| - 1])
      case Some(r) => rest + [r]
      case None => rest
  }

  /** The releases a page yields when navigation succeeded. */
  function TagReleases(tag: string, page: Page): (rs: seq<Release>)
    requires !page.NavigationFailed?
    ensures page.SelectorFailed? ==> rs == []
    ensures forall k :: 0 <= k < |rs| ==> rs[k].tag == tag
  {
    match page
    case SelectorFailed => []
    case Loaded(items) => Normalized(tag, items)
  }

  /** `get_discover_releases(tag)` once the page is loaded: walks the cards
      in order, skipping the incomplete ones and appending a record for
      every other. */
  method DiscoverReleases(tag: string, page: Page) returns (d: Discovery)
    ensures d.Crashed? <==> page.NavigationFailed?
    ensures page.SelectorFailed? ==> d == Found([])
    ensures page.Loaded? ==> d == Found(Normalized(tag, page.items))
  {
    match page
    case NavigationFailed =>
      return Crashed;
    case SelectorFailed =>
      return Found([]);
    case Loaded(items) =>
      var results: seq<Release> := [];
      var i := 0;
      while i < |items|
        invariant 0 <= i <= |items|
        invariant results == Normalized(tag, items[..i])
      {
        var item := items[i];
        var title := if item.heading.Some? then Some(Strip(item.heading.value)) else None;
        var albumUrl := item.href;
        var artist := if item.subtext.Some? then Strip(item.subtext.value) else "";
        var genre := if item.tags.Some? then Strip(item.tags.value) else "";
        NormalizedStep(tag, items, i);
        KeepItemUnfolded(tag, item);
        if !(title.Some? && title.value != "" && albumUrl.Some? && albumUrl.value != "") {
          i := i + 1;
          continue;
        }
        results := results + [Release(title.value, artist, albumUrl.value, tag, genre, item.clock)];
        i := i + 1;
      }
      assert items[..|items|] == items;
      return Found(results);
  }

  /** The keep rule written out on the card's fields, as the loop of
      `DiscoverReleases` evaluates it. */
  lemma KeepItemUnfolded(tag: string, item: ScrapedItem)
    ensures KeepItem(tag, item) ==
      var title := if item.heading.Some? then Some(Strip(item.heading.value)) else None;
      var artist := if item.subtext.Some? then Strip(item.subtext.value) else "";
      var genre := if item.tags.Some? then Strip(item.tags.value) else "";
      if title.Some? && title.value != "" && item.href.Some? && item.href.value != "" then
        Some(Release(title.value, artist, item.href.value, tag, genre, item.clock))
      else
        None
  {
  }

  /** One more card extends the collected list by that card's record, if
      it is kept. */
  lemma NormalizedStep(tag: string, items: seq<ScrapedItem>, i: nat)
    requires i < |items|
    ensures Normalized(tag, items[..i + 1]) ==
      match KeepItem(tag, items[i])
      case Some(r) => Normalized(tag, items[..i]) + [r]
      case None => Normalized(tag, items[..i])
  {
    assert items[..i + 1][..i] == items[..i];
    assert items[..i + 1][i] == items[i];
  }

  /** Collecting two runs of cards one after the other gives the two
      release lists one after the other: page order is kept. */
  lemma {:induction false} NormalizedAppend(tag: string, a: seq<ScrapedItem>, b: seq<ScrapedItem>)
    ensures Normalized(tag, a + b) == Normalized(tag, a) + Normalized(tag, b)
    decreases |b|
  {
    if b == [] {
      assert a + b == a;
    } else {
      var b' := b[..|b| - 1];
      var last := b[|b| - 1];
      assert (a + b)[..|a + b| - 1] == a + b';
      assert (a + b)[|a + b| - 1] == last;
      NormalizedAppend(tag, a, b');
      match KeepItem(tag, last)
      case Some(r) =>
        calc {
          Normalized(tag, a + b);
          Normalized(tag, a + b') + [r];
          Normalized(tag, a) + Normalized(tag, b') + [r];
          Normalized(tag, a) + Normalized(tag, b);
        }
      case None =>
    }
  }

  /** A card that fails the rule is skipped and the loop goes on with the
      next one. */
  lemma SkippedItemContinues(tag: string, before: seq<ScrapedItem>, item: ScrapedItem, after: seq<ScrapedItem>)
    requires KeepItem(tag, item).None?
    ensures Normalized(tag, before + [item] + after) == Normalized(tag, before) + Normalized(tag, after)
  {
    NormalizedAppend(tag, before + [item], after);
    assert (before + [item])[..|before|] == before;
  }

  /** Every collected release comes from some card of the page. */
  lemma {:induction false} NormalizedSound(tag: string, items: seq<ScrapedItem>, r: Release)
    requires r in Normalized(tag, items)
    ensures exists i :: 0 <= i < |items| && KeepItem(tag, items[i]) == Some(r)
    decreases |items|
  {
    var n := |items| - 1;
    var p := items[..n];
    assert items[..n + 1] == items;
    NormalizedStep(tag, items, n);
    if r in Normalized(tag, p) {
      NormalizedSound(tag, p, r);
      var i :| 0 <= i < |p| && KeepItem(tag, p[i]) == Some(r);
      assert items[i] == p[i];
    } else {
      assert KeepItem(tag, items[n]) == Some(r);
    }
  }

  /** Every kept card gives a collected release. */
  lemma {:induction false} NormalizedComplete(tag: string, items: seq<ScrapedItem>, i: nat)
    requires i < |items| && KeepItem(tag, items[i]).Some?
    ensures KeepItem(tag, items[i]).value in Normalized(tag, items)
    decreases |items|
  {
    var n := |items| - 1;
    var p := items[..n];
    assert items[..n + 1] == items;
    NormalizedStep(tag, items, n);
    if i < n {
      assert p[i] == items[i];
      NormalizedComplete(tag, p, i);
    }
  }

  /** A release is collected exactly when some card of the page gives it. */
  lemma NormalizedMembers(tag: string, items: seq<ScrapedItem>, r: Release)
    ensures r in Normalized(tag, items) <==>
      exists i :: 0 <= i < |items| && KeepItem(tag, items[i]) == Some(r)
  {
    if r in Normalized(tag, items) {
      NormalizedSound(tag, items, r);
    }
    if exists i :: 0 <= i < |items| && KeepItem(tag, items[i]) == Some(r) {
      var i :| 0 <= i < |items| && KeepItem(tag, items[i]) == Some(r);
      NormalizedComplete(tag, items, i);
    }
  }
}
