/**
 * The response shaping of clients/embase_client.py, over responses that are
 * already decoded from JSON: the paragraphs and the requested range of an
 * article's full text, and the records built from Scopus and ScienceDirect
 * search results.
 *
 * Fields that are copied unchanged from a search entry have the type
 * parameter `V`: whatever JSON value the entry holds is passed through.
 */
module ElsevierClient {

  import opened Wrappers
  import opened Text

  // ---------------------------------------------------------------------
  // Full text: paragraphs
  // ---------------------------------------------------------------------

  /** The blocks of the text between blank-line separators, stripped, blank ones dropped. */
  function Paragraphs(text: string): seq<string> {
    NonBlank(SplitOn(text, "\n\n"))
  }

  /** `[p.strip() for p in blocks if p.strip()]`. */
  function NonBlank(blocks: seq<string>): (ps: seq<string>)
    ensures |ps| <= |blocks|
    ensures forall p :: p in ps ==> p != [] && Stripped(p)
  {
    if blocks == [] then []
    else
      var rest := NonBlank(blocks[1..]);
      if Strip(blocks[0]) != [] then [Strip(blocks[0])] + rest else rest
  }

  /** Blocks keep their order: the paragraphs of a concatenation are the paragraphs of each part. */
  lemma {:induction false} NonBlankAppend(a: seq<string>, b: seq<string>)
    ensures NonBlank(a + b) == NonBlank(a) + NonBlank(b)
  {
    if a == [] {
      assert a + b == b;
    } else {
      assert (a + b)[0] == a[0] && (a + b)[1..] == a[1..] + b;
      NonBlankAppend(a[1..], b);
    }
  }

  /** A single block gives its stripped form, unless that is empty. */
  lemma NonBlankSingle(block: string)
    ensures NonBlank([block]) == if Strip(block) == [] then [] else [Strip(block)]
  {
    assert [block][1..] == [];
  }

  /** A piece of a string holds no separator the string does not. */
  lemma SliceKeepsOut(s: string, i: nat, k: nat, sep: string)
    requires i <= k <= |s|
    requires forall j :: !OccursAt(s, sep, j)
    ensures forall j :: !OccursAt(s[i..k], sep, j)
  {
    forall j ensures !OccursAt(s[i..k], sep, j) {
      if 0 <= j && j + |sep| <= k - i {
        var a, b := s[i..k][j..j + |sep|], s[i + j..i + j + |sep|];
        forall m | 0 <= m < |sep| ensures a[m] == b[m] {
          assert a[m] == s[i..k][j + m] == s[i + j + m];
        }
        assert a == b;
        assert !OccursAt(s, sep, i + j);
      }
    }
  }

  /** Stripping a string adds no separator. */
  lemma StripKeepsOut(s: string, sep: string)
    requires forall j :: !OccursAt(s, sep, j)
    ensures forall j :: !OccursAt(Strip(s), sep, j)
  {
    var i, k :| 0 <= i <= k <= |s| && Strip(s) == s[i..k];
    SliceKeepsOut(s, i, k, sep);
  }

  /**
   * No paragraph is empty, has surrounding whitespace, or holds a blank-line
   * separator; a text without a separator is at most one paragraph.
   */
  lemma ParagraphsMeaning(text: string)
    ensures forall p :: p in Paragraphs(text) ==> p != [] && Stripped(p)
    ensures forall p, j :: p in Paragraphs(text) ==> !OccursAt(p, "\n\n", j)
    ensures IndexOf(text, "\n\n").None? ==> Paragraphs(text) == if Strip(text) == [] then [] else [Strip(text)]
  {
    var blocks := SplitOn(text, "\n\n");
    SplitOnPiecesFree(text, "\n\n");
    NonBlankFree(blocks);
    if IndexOf(text, "\n\n").None? {
      NonBlankSingle(text);
    }
  }

  lemma {:induction false} NonBlankFree(blocks: seq<string>)
    requires forall b, j :: b in blocks ==> !OccursAt(b, "\n\n", j)
    ensures forall p, j :: p in NonBlank(blocks) ==> !OccursAt(p, "\n\n", j)
  {
    if blocks != [] {
      assert blocks[0] in blocks;
      StripKeepsOut(blocks[0], "\n\n");
      forall b | b in blocks[1..] ensures b in blocks { }
      NonBlankFree(blocks[1..]);
    }
  }

  // ---------------------------------------------------------------------
  // Full text: the requested range
  // ---------------------------------------------------------------------

  /** `max(para_start - 1, 0)`: the 0-based first index. */
  function StartIndex(paraStart: int): (start: nat)
    ensures paraStart >= 1 ==> start == paraStart - 1
    ensures paraStart < 1 ==> start == 0
  {
    if paraStart - 1 > 0 then paraStart - 1 else 0
  }

  /**
   * `min(para_end, total) if para_end else total`: an absent or zero end
   * means the last paragraph; otherwise the end is capped at the total.
   */
  function EndIndex(paraEnd: Option<int>, total: nat): (end: int)
    ensures end <= total
    ensures paraEnd.None? || paraEnd.value == 0 ==> end == total
    ensures paraEnd.Some? && paraEnd.value != 0 ==> end == if paraEnd.value < total then paraEnd.value else total
    ensures paraEnd.Some? && paraEnd.value >= 0 ==> end >= 0
  {
    match paraEnd
    case None => total
    case Some(e) => if e == 0 then total else if e < total then e else total
  }

  /**
   * Python's `xs[start:end]` for a non-negative `start`: a negative `end`
   * counts from the back (and stops at the front), an `end` past the last
   * element stops there, and an empty range gives no elements.
   */
  function PySlice<T>(xs: seq<T>, start: nat, end: int): seq<T> {
    var s := if start < |xs| then start else |xs|;
    var e := if end < 0 then (if end + |xs| > 0 then end + |xs| else 0)
             else if end < |xs| then end else |xs|;
    if e <= s then [] else xs[s..e]
  }

  /** The slice is a contiguous run of `xs`; within bounds it is `xs[start..end]`. */
  lemma PySliceMeaning<T>(xs: seq<T>, start: nat, end: int)
    ensures exists i, j :: 0 <= i <= j <= |xs| && PySlice(xs, start, end) == xs[i..j]
    ensures 0 <= end <= |xs| ==> |PySlice(xs, start, end)| == if start < end then end - start else 0
    ensures start <= end <= |xs| ==> PySlice(xs, start, end) == xs[start..end]
    ensures end < 0 ==> PySlice(xs, start, end) == PySlice(xs, start, if end + |xs| > 0 then end + |xs| else 0)
  {
    var s := if start < |xs| then start else |xs|;
    var e := if end < 0 then (if end + |xs| > 0 then end + |xs| else 0)
             else if end < |xs| then end else |xs|;
    if e <= s {
      assert PySlice(xs, start, end) == xs[s..s];
    } else {
      assert PySlice(xs, start, end) == xs[s..e];
    }
  }

  /** The answer to a full-text request. */
  datatype FullTextResult =
    | FullText(doi: string, totalParagraphs: nat, rangeFirst: int, rangeLast: int, paragraphs: seq<string>)
    | Unavailable(error: string)

  const UnavailableMessage: string := "Full text not available. This may be due to access restrictions."

  /**
   * The answer built from `originalText` (absent when the response lacks
   * it): an error for a missing or empty text, otherwise the total number of
   * paragraphs, the range `[start + 1, end]` as computed, and the slice.
   */
  function FullTextOf(doi: string, originalText: Option<string>, paraStart: int, paraEnd: Option<int>): (r: FullTextResult)
    ensures r.Unavailable? <==> originalText.None? || originalText.value == ""
    ensures r.Unavailable? ==> r.error == UnavailableMessage
    ensures r.FullText? ==> r.doi == doi && r.totalParagraphs == |Paragraphs(originalText.value)|
    ensures r.FullText? ==> r.rangeFirst >= 1 && r.rangeLast <= r.totalParagraphs
    ensures r.FullText? ==>
              var ps := Paragraphs(originalText.value);
              && r.rangeFirst == StartIndex(paraStart) + 1
              && r.rangeLast == EndIndex(paraEnd, |ps|)
              && r.paragraphs == PySlice(ps, StartIndex(paraStart), EndIndex(paraEnd, |ps|))
  {
    match originalText
    case None => Unavailable(UnavailableMessage)
    case Some(text) =>
      if text == "" then Unavailable(UnavailableMessage)
      else
        var paragraphs := Paragraphs(text);
        var total := |paragraphs|;
        var start := StartIndex(paraStart);
        var end := EndIndex(paraEnd, total);
        FullText(doi, total, start + 1, end, PySlice(paragraphs, start, end))
  }

  /**
   * The selection in terms of the request: with `s = max(para_start - 1, 0)`,
   * an absent or zero end selects the paragraphs from `s` to the last; a
   * positive end `e` selects those from `s` up to `min(e, total)`
   * (exclusive); a negative end `e` counts from the back, up to
   * `max(total + e, 0)`. An empty range selects nothing, and the selection
   * is always a contiguous run of the paragraphs. In every case the
   * reported range is `[s + 1, end]` and, for an end that is not negative,
   * there are `max(0, rangeLast - rangeFirst + 1)` paragraphs, exactly those
   * from `rangeFirst` to `rangeLast` (1-based, inclusive).
   */
  lemma FullTextSelection(doi: string, text: string, paraStart: int, paraEnd: Option<int>)
    requires text != ""
    ensures var r := FullTextOf(doi, Some(text), paraStart, paraEnd);
            var ps := Paragraphs(text);
            var s := if paraStart > 1 then paraStart - 1 else 0;
            && r.FullText?
            && (exists i, j :: 0 <= i <= j <= |ps| && r.paragraphs == ps[i..j])
            && r.rangeFirst == s + 1
            && (paraEnd.None? || paraEnd.value == 0 ==>
                  r.rangeLast == |ps| && r.paragraphs == (if s < |ps| then ps[s..] else []))
            && (paraEnd.Some? && paraEnd.value > 0 ==>
                  var e := if paraEnd.value < |ps| then paraEnd.value else |ps|;
                  r.rangeLast == e && r.paragraphs == (if s < e then ps[s..e] else []))
            && (paraEnd.Some? && paraEnd.value < 0 ==>
                  var e := if |ps| + paraEnd.value > 0 then |ps| + paraEnd.value else 0;
                  r.rangeLast == paraEnd.value && r.paragraphs == (if s < e then ps[s..e] else []))
            && (paraEnd.None? || paraEnd.value >= 0 ==>
                  && |r.paragraphs| == (if r.rangeFirst <= r.rangeLast then r.rangeLast - r.rangeFirst + 1 else 0)
                  && (r.rangeFirst <= r.rangeLast ==> r.paragraphs == ps[r.rangeFirst - 1..r.rangeLast]))
  {
    var ps := Paragraphs(text);
    var start := StartIndex(paraStart);
    var end := EndIndex(paraEnd, |ps|);
    PySliceMeaning(ps, start, end);
  }

  // ---------------------------------------------------------------------
  // Search results
  // ---------------------------------------------------------------------

  /** A link of an entry: its `@ref`, when present, and its `@href`. */
  datatype Link = Link(ref: Option<string>, href: string)

  /** The fields of a search entry that are copied into the record unchanged. */
  datatype Fields<V> = Fields(
    title: Option<V>,
    doi: Option<V>,
    creator: Option<V>,
    publicationName: Option<V>,
    coverDate: Option<V>,
    url: Option<V>,
    eid: Option<V>,
    openaccessFlag: Option<V>)

  /** A search entry: its copied fields and its `link` list, when present. */
  datatype Entry<V> = Entry(fields: Fields<V>, links: Option<seq<Link>>)

  /** The decoded response: `search-results`, then `entry`, either of which may be missing. */
  datatype SearchResults<V> = SearchResults(entry: Option<seq<Entry<V>>>)
  datatype SearchResponse<V> = SearchResponse(searchResults: Option<SearchResults<V>>)

  /** `data.get("search-results", {}).get("entry", [])`. */
  function Entries<V>(data: SearchResponse<V>): (es: seq<Entry<V>>)
    ensures data.searchResults.None? ==> es == []
    ensures data.searchResults.Some? && data.searchResults.value.entry.None? ==> es == []
    ensures data.searchResults.Some? && data.searchResults.value.entry.Some? ==> es == data.searchResults.value.entry.value
  {
    match data.searchResults
    case None => []
    case Some(results) => results.entry.GetOr([])
  }

  /** Index of the first link whose `@ref` is `ref`. */
  function FirstLink(links: seq<Link>, ref: string): (r: Option<nat>)
    ensures r.Some? ==> r.value < |links| && links[r.value].ref == Some(ref)
    ensures r.Some? ==> forall j :: 0 <= j < r.value ==> links[j].ref != Some(ref)
    ensures r.None? ==> forall j :: 0 <= j < |links| ==> links[j].ref != Some(ref)
  {
    if links == [] then None
    else if links[0].ref == Some(ref) then Some(0)
    else match FirstLink(links[1..], ref)
      case None => None
      case Some(i) => Some(i + 1)
  }

  /** `next((l["@href"] for l in entry.get("link", []) if l.get("@ref") == ref), None)`. */
  function LinkTo<V>(entry: Entry<V>, ref: string): Option<string> {
    var links := entry.links.GetOr([]);
    match FirstLink(links, ref)
    case None => None
    case Some(i) => Some(links[i].href)
  }

  /**
   * The link is the `@href` of the first link with `@ref` equal to `ref`,
   * and absent exactly when no link has that `@ref` (or there is no list).
   */
  lemma LinkToMeaning<V>(entry: Entry<V>, ref: string)
    ensures LinkTo(entry, ref).None? <==>
              entry.links.None? || forall j :: 0 <= j < |entry.links.value| ==> entry.links.value[j].ref != Some(ref)
    ensures LinkTo(entry, ref).Some? ==> exists i ::
              && 0 <= i < |entry.links.value| && entry.links.value[i].ref == Some(ref)
              && (forall j :: 0 <= j < i ==> entry.links.value[j].ref != Some(ref))
              && LinkTo(entry, ref).value == entry.links.value[i].href
  {
  }

  /** A record of the parsed results, with the links its source reports. */
  datatype Record<V> =
    | ScopusRecord(fields: Fields<V>, linkToScopus: Option<string>, linkToCitedBy: Option<string>, linkToFullText: Option<string>)
    | ScienceDirectRecord(fields: Fields<V>, linkToFullText: Option<string>)
  {
    /** The `source` tag of the record. */
    function Source(): string {
      if ScopusRecord? then "scopus" else "sciencedirect"
    }
  }

  function ScopusRecordOf<V>(entry: Entry<V>): Record<V> {
    ScopusRecord(entry.fields, LinkTo(entry, "scopus"), LinkTo(entry, "scopus-citedby"), LinkTo(entry, "full-text"))
  }

  function ScienceDirectRecordOf<V>(entry: Entry<V>): Record<V> {
    ScienceDirectRecord(entry.fields, LinkTo(entry, "full-text"))
  }

  /** `parse_scopus_results`: one Scopus record per entry, in order. */
  method ParseScopusResults<V>(data: SearchResponse<V>) returns (parsed: seq<Record<V>>)
    ensures |parsed| == |Entries(data)|
    ensures forall i :: 0 <= i < |parsed| ==> parsed[i] == ScopusRecordOf(Entries(data)[i])
    ensures forall r :: r in parsed ==> r.Source() == "scopus"
  {
    var entries := Entries(data);
    parsed := [];
    var i := 0;
    while i < |entries|
      invariant 0 <= i <= |entries|
      invariant |parsed| == i
      invariant forall k :: 0 <= k < i ==> parsed[k] == ScopusRecordOf(entries[k])
    {
      var entry := entries[i];
      parsed := parsed + [ScopusRecord(entry.fields, LinkTo(entry, "scopus"), LinkTo(entry, "scopus-citedby"), LinkTo(entry, "full-text"))];
      i := i + 1;
    }
  }

  /** `parse_sciencedirect_results`: one ScienceDirect record per entry, in order. */
  method ParseScienceDirectResults<V>(data: SearchResponse<V>) returns (parsed: seq<Record<V>>)
    ensures |parsed| == |Entries(data)|
    ensures forall i :: 0 <= i < |parsed| ==> parsed[i] == ScienceDirectRecordOf(Entries(data)[i])
    ensures forall r :: r in parsed ==> r.Source() == "sciencedirect"
  {
    var entries := Entries(data);
    parsed := [];
    var i := 0;
    while i < |entries|
      invariant 0 <= i <= |entries|
      invariant |parsed| == i
      invariant forall k :: 0 <= k < i ==> parsed[k] == ScienceDirectRecordOf(entries[k])
    {
      var entry := entries[i];
      parsed := parsed + [ScienceDirectRecord(entry.fields, LinkTo(entry, "full-text"))];
      i := i + 1;
    }
  }
}
