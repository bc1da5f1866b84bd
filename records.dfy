/**
 * Values shared by the digest pipeline: the item scraped from one
 * `.discover-result` card of a Bandcamp discover page, the release record
 * built from it, and Python's `str.strip()` which the scraper applies to
 * the texts it reads.
 */
module Records {

  datatype Option<T> = None | Some(value: T)

  /** One `.discover-result` card as the browser sees it.
      `heading`, `subtext` and `tags` are the raw inner texts of the
      `.heading`, `.itemsubtext` and `.tags` elements (None when the card has
      no such element); `href` is the `href` attribute of the `a.item-link`
      element (None when the element or the attribute is missing);
      `clock` is the ISO timestamp the UTC clock gives when the card is
      processed. */
  datatype ScrapedItem = ScrapedItem(
    heading: Option<string>,
    href: Option<string>,
    subtext: Option<string>,
    tags: Option<string>,
    clock: string)

  /** The record kept for one release: the dictionary with keys
      title, artist, url, tag, genre and fetched_at. */
  datatype Release = Release(
    title: string,
    artist: string,
    url: string,
    tag: string,
    genre: string,
    fetchedAt: string)

  /** The characters Python's `str.isspace()` accepts. */
  predicate IsSpace(c: char)
  {
    c == ' ' || ('\t' <= c <= '\r') || ('\U{1C}' <= c <= '\U{1F}')
    || c == '\U{85}' || c == '\U{A0}' || c == '\U{1680}'
    || ('\U{2000}' <= c <= '\U{200A}') || c == '\U{2028}' || c == '\U{2029}'
    || c == '\U{202F}' || c == '\U{205F}' || c == '\U{3000}'
  }

  predicate AllSpace(s: string)
  {
    forall i :: 0 <= i < |s| ==> IsSpace(s[i])
  }

  /** `s` neither starts nor ends with whitespace. */
  predicate Trimmed(s: string)
  {
    s == [] || (!IsSpace(s[0]) && !IsSpace(s[|s| - 1]))
  }

  /** The first position at or after `i` that does not hold whitespace. */
  function SkipLeading(s: string, i: nat): (j: nat)
    requires i <= |s|
    ensures i <= j <= |s|
    ensures forall k :: i <= k < j ==> IsSpace(s[k])
    ensures j == |s| || !IsSpace(s[j])
    decreases |s| - i
  {
    if i < |s| && IsSpace(s[i]) then SkipLeading(s, i + 1) else i
  }

  /** The end of `s[lo..hi]` once its trailing whitespace is dropped. */
  function SkipTrailing(s: string, lo: nat, hi: nat): (e: nat)
    requires lo <= hi <= |s|
    ensures lo <= e <= hi
    ensures forall k :: e <= k < hi ==> IsSpace(s[k])
    ensures e == lo || !IsSpace(s[e - 1])
    decreases hi
  {
    if lo < hi && IsSpace(s[hi - 1]) then SkipTrailing(s, lo, hi - 1) else hi
  }

  /** Python's `s.strip()`: the piece of `s` between its leading and its
      trailing whitespace. It is empty exactly when `s` is all whitespace,
      so a heading made of blanks counts as a missing title. */
  function Strip(s: string): (r: string)
    ensures Trimmed(r)
    ensures r == [] <==> AllSpace(s)
  {
    var lo := SkipLeading(s, 0);
    s[lo..SkipTrailing(s, lo, |s|)]
  }

  /** `strip()` removes only whitespace: its result is one contiguous piece
      of `s`, and everything before and after that piece is whitespace. */
  lemma StripIsInfix(s: string)
    ensures var lo := SkipLeading(s, 0);
      lo + |Strip(s)| <= |s| && Strip(s) == s[lo..lo + |Strip(s)|]
      && (forall i :: 0 <= i < lo ==> IsSpace(s[i]))
      && (forall i :: lo + |Strip(s)| <= i < |s| ==> IsSpace(s[i]))
  {
  }
}
