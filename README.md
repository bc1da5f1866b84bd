# Bandcamp black-metal digest: the aggregation pass

`bandcamp_digest.py` visits the Bandcamp discover page of each configured tag
(`TAGS`, in order), turns every complete `.discover-result` card (one with a
non-blank heading and a non-empty link) into a release record, merges the
tags' lists so that each album url is kept once (the first time it is seen),
keeps the first `MAX_RELEASES` (20) records, and either asks a chat model for
a Markdown digest of exactly those records or, when there are none, writes
the fixed text `# Дайджест\n\nНичего не найдено` without calling the model.

This project models that pass in Dafny and proves its properties:

- `records.dfy` (module `Records`): the scraped card, the release record, and
  Python's `str.strip()` with the whitespace set of `str.isspace()`.
- `discover.dfy` (module `Discover`): the outcome of loading a discover page
  and the keep/skip loop of `get_discover_releases`.
- `dedup.dfy` (module `Dedup`): the `seen_urls` merge loop of `main`, its
  specification `Unique` over the concatenation of the tags' lists, and the
  lemmas on uniqueness, first-seen priority, order and completeness.
- `digest.dfy` (module `Digest`): the `[:MAX_RELEASES]` slice, the empty
  fallback branch and the whole run (`RunDigest`).

The browser is a parameter `fetch` from a tag to a `Page`
(`NavigationFailed`, `SelectorFailed` or the loaded cards). The chat model is a
parameter `summarize` from a record list to text. The clock reading stored as
`fetched_at` comes with each scraped card (`ScrapedItem.clock`). The run takes
the tag list as a parameter; the configured list is `Digest.Tags`.

Behaviour of the code that the model keeps:

- A failed `page.goto` (a timeout or any other navigation error) is not
  caught in `get_discover_releases`, so the whole run stops
  (`Run.Aborted`) and nothing is saved (bandcamp_digest.py:39).
- Any exception from `wait_for_selector` gives an empty list for the tag
  (bandcamp_digest.py:41-47). A page whose cards are all incomplete gives an
  empty list as well.
- Records are ranked in collection order: tag order, then page order.
- A release whose url was already seen is skipped, so the first listing of
  a url is the one kept.

## Model

| member | source | states |
|---|---|---|
| Records.Strip | bandcamp_digest.py:58-61 | the stripped text neither starts nor ends with whitespace, and is `""` exactly when the text is all whitespace |
| Records.StripIsInfix | bandcamp_digest.py:58-61 | `strip()` keeps one contiguous piece of the text and removes only whitespace before and after it |
| Discover.KeepItem | bandcamp_digest.py:52-74 | a card is kept iff its heading text is present and not blank and its `href` is present and non-empty; a kept record is fixed completely: the collected tag, the href as url, the stripped heading as title (non-empty, no outer whitespace), the stripped artist and genre texts or `""` when those elements are missing, and the card's clock reading |
| Discover.Normalized | bandcamp_digest.py:50-74 | the loop's result has at most one record per card, and each has the tag, a non-empty title and a non-empty url |
| Discover.DiscoverReleases | bandcamp_digest.py:27-77 | a navigation failure crashes; a selector timeout gives `[]`; otherwise the loop with `continue` builds exactly `Normalized` of the cards |
| Discover.TagReleases | bandcamp_digest.py:41-74 | a selector failure gives no releases, and every release of a loaded page carries the tag it was collected under |
| Discover.NormalizedStep | bandcamp_digest.py:52-74 | one more card extends the list by exactly that card's record when it is kept, and leaves it unchanged otherwise |
| Discover.NormalizedAppend | bandcamp_digest.py:52-74 | collecting two runs of cards gives the two record lists one after the other, so page order is kept |
| Discover.SkippedItemContinues | bandcamp_digest.py:63-65 | a skipped card contributes nothing and the loop goes on with the following cards |
| Discover.NormalizedSound | bandcamp_digest.py:52-74 | every collected record is the record some card of the page yields |
| Discover.NormalizedComplete | bandcamp_digest.py:52-74 | every card that passes the keep rule contributes its record |
| Discover.NormalizedMembers | bandcamp_digest.py:52-74 | a record is in the tag's list iff some card of the page yields it under the keep rule |
| Dedup.Unique | bandcamp_digest.py:133-141 | the merge is never longer than its input and has exactly the input's url set, so every collected url survives |
| Dedup.UniqueDistinct | bandcamp_digest.py:136-141 | no two merged records share a url |
| Dedup.FirstIndex | bandcamp_digest.py:139 | the position where a url first occurs: it carries the url and no earlier position does |
| Dedup.MergeTag | bandcamp_digest.py:138-141 | the inner loop over one tag's records extends the merge by that tag's list and keeps `seen_urls` equal to the urls of `all_releases` |
| Dedup.MergeReleases | bandcamp_digest.py:133-141 | the nested loop yields `Unique` of the tags' lists in `TAGS` order: urls distinct, url set equal to that of all collected records |
| Dedup.UniqueTakesFirstOccurrences | bandcamp_digest.py:136-141 | each merged record is the record at its url's first position, and merged records appear in the order of those positions |
| Dedup.UniqueEmptyIff | bandcamp_digest.py:133-141 | the merge is empty exactly when nothing was collected |
| Dedup.EarlierTagWins | bandcamp_digest.py:136-141 | for any collected record, its url is in the merge, and the record kept for it comes from an earlier tag or from the same tag at an earlier or the same position |
| Dedup.FlattenEmptyIff | bandcamp_digest.py:136-138 | the concatenation of the tags' lists is empty exactly when every tag gave no record |
| Digest.Bounded | bandcamp_digest.py:146 | `filtered` is a prefix of `all_releases`, of length 20 when there are at least 20 and the whole list otherwise; never padded |
| Digest.Plan | bandcamp_digest.py:146-153 | the fallback is chosen exactly when `all_releases` is empty; otherwise the summariser gets exactly `filtered`, non-empty and at most 20 long |
| Digest.Collected | bandcamp_digest.py:136-137 | one release list per tag |
| Digest.CollectedAt | bandcamp_digest.py:136-137 | the list of the i-th tag is what that tag's page yields |
| Digest.RunDigest | bandcamp_digest.py:132-155 | the run aborts exactly when some tag's navigation fails, at the first such tag; otherwise the saved list is the merge of the tags' lists, and the digest is the fixed fallback text when that is empty and otherwise the summariser's text for the bounded list, the summariser being consulted only then |
| Digest.FallbackIffNothingCollected | bandcamp_digest.py:133-151 | the fallback text is produced exactly when every tag gave no record, e.g. for an empty tag list |
| Digest.BlackMetalListingWins | bandcamp_digest.py:10-16 | with the configured `TAGS`, a url listed on the `black-metal` page is always saved with the `black-metal` tag, whichever later tags list it too |
| Digest.BatchDistinctAndCollected | bandcamp_digest.py:133-153 | the records sent to the summariser have distinct urls and each was collected under some tag |

## Left out

- Browser launch, user agent, page creation, selector queries, `inner_text`, `get_attribute` and `browser.close()`: browser I/O. Their results are the `Page` and `ScrapedItem` values.
- The screenshot taken on a selector timeout, and the creation of the output directory: file I/O.
- Exceptions other than a failed `page.goto`: browser launch failures, element query failures and a failing chat request all stop the run in the code. The model has only the `page.goto` case.
- `ask_gpt_digest` (prompt text, model name and sampling settings) is the parameter `summarize`. The model has no failure for it: it is an external service.
- `save_json` and `save_markdown`: file writes. The run's result carries the saved list and the digest text instead.
- `datetime.utcnow()`: a clock read, carried as `ScrapedItem.clock`.
- The API key read from the environment, and all `print` logging.
- Order of effects: `main` merges each tag's list right after fetching it. `RunDigest` fetches every tag first and then merges. Merging has no effects, so the result is the same.
