# pubmed_api_render in Dafny: section chunking and response shaping

This project models the computational core of a small literature-API service.
The service exposes Zotero, PubMed and Elsevier (Scopus, ScienceDirect) lookups over HTTP.
Every network exchange, and the PDF and XML decoding, is replaced by its decoded result.
The model covers what the service does with those results.

- **Section-aware chunking** (`SectionChunker`, `ChunkerLemmas`). `extract_chunks_from_collection` joins an article's page texts with `"\n"` and splits the result into lines (Python `splitlines`). It then walks the lines once.
  - The heading pattern is anchored at the start of the line, ignores case and needs a `\b` boundary. A stripped line matching one of its ten keywords is a heading. A heading flushes the line buffer as one paragraph under the current label, which starts as `"Unknown"`. It then switches the label to the matched keyword in title case.
  - Every other line is buffered untrimmed. A flush joins the buffer with one space, strips the result, and appends it to the label's list. The labels form an insertion-ordered dictionary.
  - `ChunkPages` is that loop, written imperatively. Its postcondition ties its result to the specification `Chunk`.
  - `ChunkerLemmas` characterises `Chunk` without the buffer:
    - the flushes are the document cut at every heading, with the empty pieces dropped;
    - the flushed lines are exactly the non-heading lines, in order;
    - under each label stand the paragraphs of that label's flushes, in order;
    - the labels are distinct and in order of first appearance.
- **Zotero record shaping** (`ZoteroItems`):
  - finding a collection's key by name, and the "not found" error;
  - the item listing: filtering out attachments, notes and links; joining authors; the year prefix; the link;
  - the creators and the DOI of a PubMed article added to Zotero.
- **Elsevier response shaping** (`ElsevierClient`):
  - the paragraphs of an article's full text and the requested paragraph range, including Python's slice semantics;
  - the records built from Scopus and ScienceDirect search entries, with their "first link whose `@ref` is X" fields.
- **Python string semantics** (`Text`): `str.strip`, `str.splitlines`, `str.split(sep)`, `sep.join`, `str.title`, case-insensitive comparison and the `\b` word-character test. Each follows CPython's behaviour for the characters it covers.

Edge cases of the chunker, as the code behaves:

- A buffer of only blank lines is still flushed, and its paragraph is `""`. The flush guards at zotero/main.py:121 and :128 test only that the buffer is non-empty. `ChunkerLemmas.EmptyParagraphs` states exactly when `""` is stored.
- Blank lines are not filtered from the buffer. They are joined with the rest, so `["a", "", "b"]` becomes the paragraph `"a  b"`.
- A document with no heading becomes a single paragraph under `Unknown` only when it has at least one line (`ChunkWithoutHeadings`). An empty document gives an empty map (`ChunkOfNoPages`).

## Model

| member | source | states |
|---|---|---|
| `Text.Strip` | zotero/main.py:120 | `str.strip()`: the result is a contiguous slice of the input with only whitespace cut from each end, has no surrounding whitespace, and is empty exactly when the input is all whitespace |
| `Text.IndexOf` | clients/embase_client.py:64 | the leftmost occurrence of the separator, or none when it does not occur anywhere |
| `Text.SplitOnJoin` | clients/embase_client.py:64 | `str.split(sep)` loses nothing: joining the pieces with the separator gives the text back |
| `Text.SplitOnPiecesFree` | clients/embase_client.py:64 | no piece of `str.split(sep)` contains the separator |
| `Text.SplitOnOfJoin` | zotero/main.py:53 | splitting a `sep.join` at the separator gives the pieces back when no piece contains the separator's first character |
| `Text.SplitLines` | zotero/main.py:119 | `str.splitlines()`: no line contains a line boundary, and there are no lines exactly when the text is empty |
| `Text.SplitLinesRejoin` | zotero/main.py:119 | the text is its lines, in order, each followed by the boundary that ended it |
| `Text.BoundariesWellFormed` | zotero/main.py:119 | every dropped boundary is one line-boundary character or `"\r\n"`; only a non-empty last line may end without one |
| `Text.LoneCarriageReturn` | zotero/main.py:119 | `"\r\n"` is always one boundary: a lone `"\r"` is never followed by an empty line ended by `"\n"` |
| `Text.SplitLinesMeaning` | zotero/main.py:119 | `splitlines` loses nothing: the three facts above together pin the lines down as the text cut at every boundary |
| `Text.SplitLinesOfJoined` | zotero/main.py:112-119 | page texts without line boundaries, joined with `"\n"` and split into lines, come back as the pages (when the last page is non-empty) |
| `Text.TitleCaseWords` | zotero/main.py:124 | `.title()` works word by word: a non-letter separates independently title-cased words |
| `Text.TitleCaseIgnoresCase` | zotero/main.py:124 | `.title()` of two strings equal up to case is the same, so the label does not depend on the case of the heading line |
| `Text.Prefix` | zotero/main.py:54 | `s[:n]`: a prefix of `s` of length `n`, or all of `s` when it is shorter |
| `SectionChunker.FirstKeyword` | zotero/main.py:69 | the regex alternation tries the keywords in order: the result is the first keyword that matches with a word boundary after it, or none matches |
| `SectionChunker.KeywordLabels` | zotero/main.py:124 | each of the ten keywords title-cases to its label |
| `SectionChunker.MaterialsAndMethods` | zotero/main.py:124 | "materials and methods" title-cases to "Materials And Methods" |
| `SectionChunker.HeadingLabelMeaning` | zotero/main.py:120-124 | a line is a heading exactly when its stripped form starts, ignoring case, with a keyword followed by the end or a non-word character; its label is the title-cased first such keyword, whatever the line's case |
| `SectionChunker.HeadingLabelIsLabel` | zotero/main.py:124 | every heading label is one of the ten title-cased keywords |
| `SectionChunker.ClassifyAt` | zotero/main.py:120 | each line is classified on its own, as a heading with its label or as body text |
| `SectionChunker.ClassifyMeaning` | zotero/main.py:120-126 | a classified line is body text exactly when it is not a heading, body text is the line unchanged, and a heading carries one of the ten labels |
| `SectionChunker.ParagraphMeaning` | zotero/main.py:122 | a paragraph (buffer joined with one space, stripped) has no surrounding whitespace and is empty exactly when every buffered line is blank |
| `SectionChunker.RecordMeaning` | zotero/main.py:122 | `setdefault(label, []).append(p)`: a new label becomes the last key and an existing one keeps its place; `p` goes after that label's earlier paragraphs; no other label changes |
| `SectionChunker.ScanStep` | zotero/main.py:119-126 | one line of the walk: a heading flushes the pending buffer and opens its label with an empty buffer; a body line is appended to the buffer |
| `SectionChunker.HeadingStep` | zotero/main.py:120-124 | a heading line records the buffer's paragraph only when the buffer is non-empty, then switches the label |
| `SectionChunker.BodyStep` | zotero/main.py:125-126 | a body line only grows the buffer |
| `SectionChunker.FinalStep` | zotero/main.py:128-129 | after the last line, a non-empty buffer is recorded once more under the current label |
| `SectionChunker.ChunkPages` | zotero/main.py:112-129 | the chunking loop builds exactly the section map `Chunk` of the joined, line-split pages |
| `ChunkerLemmas.PendingLines` | zotero/main.py:121 | the `if buffer:` flush holds the buffer, and only when it is non-empty |
| `ChunkerLemmas.ScanIsSegments` | zotero/main.py:119-129 | the walk flushes the non-empty pieces of the lines cut at every heading, the pending buffer joining the first piece |
| `ChunkerLemmas.FlushesAreSegments` | zotero/main.py:115-129 | a document's flushes are its non-empty heading-delimited pieces, the first under `"Unknown"`; consecutive headings add no flush |
| `ChunkerLemmas.ScanCovers` | zotero/main.py:119-129 | every body line is flushed exactly once, after the pending buffer, in order |
| `ChunkerLemmas.BodiesAreNonHeadings` | zotero/main.py:120-126 | the body lines of the classified document are exactly its non-heading lines, in order |
| `ChunkerLemmas.FlushesCover` | zotero/main.py:119-129 | the flushed lines, concatenated in flush order, are exactly the non-heading lines, so heading lines never reach a paragraph |
| `ChunkerLemmas.ScanWellFormed` | zotero/main.py:121-129 | every flush holds at least one line and is labelled by the starting label or by a heading of the lines |
| `ChunkerLemmas.FlushesWellFormed` | zotero/main.py:116-129 | every flush of a document is non-empty and labelled `"Unknown"` or one of the ten labels |
| `ChunkerLemmas.ScanWithoutHeadings` | zotero/main.py:125-129 | without headings, the pending buffer and all lines form one flush under the current label |
| `ChunkerLemmas.RecordAllLookup` | zotero/main.py:122 | recording flushes appends, under each label, the paragraphs of that label's flushes in order, and never overwrites earlier ones |
| `ChunkerLemmas.RecordAllKeys` | zotero/main.py:129 | the keys after recording are the earlier keys followed by the flushes' new labels, in order of first appearance |
| `ChunkerLemmas.AddNewMeaning` | zotero/main.py:122 | adding only unseen labels keeps the keys distinct and adds exactly the labels given |
| `ChunkerLemmas.NamesMembership` | zotero/main.py:116-124 | a name is among the flush labels exactly when some flush carries it |
| `ChunkerLemmas.ChunkLinesMeaning` | zotero/main.py:115-129 | the section map's keys are distinct, in order of first appearance, each the label of some flush and a label the chunker can produce; under each label are the paragraphs of that label's flushes, in order |
| `ChunkerLemmas.ParagraphsUnderMembership` | zotero/main.py:122 | a paragraph is under a label exactly when some flush with that label produced it |
| `ChunkerLemmas.EmptyParagraphs` | zotero/main.py:121-129 | `""` is stored under a label exactly when some flush under that label held only blank lines |
| `ChunkerLemmas.ChunkWithoutHeadings` | zotero/main.py:116-129 | a non-empty document without heading lines is one section `"Unknown"` holding one paragraph of all its lines |
| `ChunkerLemmas.ChunkOfSingleLinePages` | zotero/main.py:112-119 | pages without line boundaries (the last one non-empty) are chunked as if each page were one line |
| `ChunkerLemmas.ChunkOfNoPages` | zotero/main.py:112-119 | no pages give no lines and an empty section map |
| `ZoteroItems.FirstNamed` | zotero/main.py:37 | the index of the first collection with the given name, or none has it |
| `ZoteroItems.CollectionKey` | zotero/main.py:37-39 | a found key is non-empty; otherwise the result is the "Collection '…' not found." error |
| `ZoteroItems.CollectionKeyMeaning` | zotero/main.py:37-39 | the key is that of the first collection with the name; the error happens exactly when no collection has the name or the first one has an empty (falsy) key |
| `ZoteroItems.SummarizeMeaning` | zotero/main.py:50-56 | a listing row keeps title and key, takes at most the first four characters of the date (`""` when missing) and the URL (`""` when missing), and has empty authors without creators |
| `ZoteroItems.AuthorsSplit` | zotero/main.py:53 | the authors field splits back at `", "` into the creators' last names in order (`""` for a missing one) when no last name holds a comma |
| `ZoteroItems.ListItemsAppend` | zotero/main.py:49-58 | the listing of a concatenation is the concatenation of the listings, so the order of items is kept |
| `ZoteroItems.ListItemsSingle` | zotero/main.py:57-58 | one item yields its row exactly when its type is not attachment, note or link |
| `ZoteroItems.ListItemsMeaning` | zotero/main.py:49-58 | one row per listed item; every row is the summary of a listed item; a collection of only attachments, notes and links lists nothing |
| `ZoteroItems.CreatorsOfMeaning` | zotero/main.py:215-224 | every creator is an "author" made from an author with a non-empty last name, with the first name defaulting to `""`; authors all having last names give one creator each |
| `ZoteroItems.CreatorsOfAppend` | zotero/main.py:215-224 | the creators of concatenated author lists are the concatenated creators |
| `ZoteroItems.CollectCreators` | zotero/main.py:215-224 | the authors loop appends exactly the creators `CreatorsOf` describes |
| `ZoteroItems.FirstDoiIndex` | zotero/main.py:207-211 | the index of the first identifier of type "doi", or none has that type |
| `ZoteroItems.FindDoi` | zotero/main.py:207-211 | the loop with `break` returns the text of the first identifier of type "doi", or nothing when there is none |
| `ElsevierClient.NonBlank` | clients/embase_client.py:64 | the kept paragraphs are no more than the blocks, and each is non-empty and without surrounding whitespace |
| `ElsevierClient.NonBlankAppend` | clients/embase_client.py:64 | the comprehension keeps block order: the paragraphs of a concatenation are the paragraphs of each part |
| `ElsevierClient.NonBlankSingle` | clients/embase_client.py:64 | a block contributes its stripped form exactly when that is non-empty |
| `ElsevierClient.StripKeepsOut` | clients/embase_client.py:64 | stripping a block introduces no separator |
| `ElsevierClient.ParagraphsMeaning` | clients/embase_client.py:64 | no paragraph is empty, has surrounding whitespace, or contains `"\n\n"`; a text without `"\n\n"` is at most one paragraph, its stripped self |
| `ElsevierClient.StartIndex` | clients/embase_client.py:67 | `max(para_start - 1, 0)`: never negative, `para_start - 1` from 1 on |
| `ElsevierClient.EndIndex` | clients/embase_client.py:68 | an absent or zero end means the total; otherwise the end is `min(para_end, total)`; never above the total |
| `ElsevierClient.PySliceMeaning` | clients/embase_client.py:69 | a Python slice is a contiguous run of the list; in range it is the usual slice with `max(0, end - start)` elements; a negative end counts from the back |
| `ElsevierClient.FullTextOf` | clients/embase_client.py:59-76 | a missing or empty text gives the "Full text not available" error exactly; otherwise the answer carries the DOI, the paragraph count, the range `[max(para_start - 1, 0) + 1, end]` with the end computed as `EndIndex` does, and the Python slice `paragraphs[start:end]` |
| `ElsevierClient.FullTextSelection` | clients/embase_client.py:64-75 | with `s = max(para_start - 1, 0)`: an absent or zero end selects paragraphs `s..` to the last; a positive end `e` selects `s` up to `min(e, total)`; a negative end `e` selects `s` up to `max(total + e, 0)`; an empty range selects nothing; the selection is a contiguous run, and for a non-negative end it is paragraphs `range[0]..range[1]` (1-based, inclusive) |
| `ElsevierClient.Entries` | clients/embase_client.py:26 | a missing `search-results` or `entry` gives no entries; otherwise the entries as given |
| `ElsevierClient.FirstLink` | clients/embase_client.py:40-42 | the index of the first link whose `@ref` is the given value, or none has it |
| `ElsevierClient.LinkToMeaning` | clients/embase_client.py:131 | a `link_to_*` field is the `@href` of the first link with the given `@ref`, and absent exactly when no link has it or the entry has no links |
| `ElsevierClient.ParseScopusResults` | clients/embase_client.py:25-45 | one record per entry, in order, tagged "scopus", with the copied fields and the scopus, cited-by and full-text links |
| `ElsevierClient.ParseScienceDirectResults` | clients/embase_client.py:116-134 | one record per entry, in order, tagged "sciencedirect", with the copied fields and the full-text link |

## Left out

- Network I/O: every HTTP request, status check and `raise_for_status`. The model starts from the decoded responses. The same goes for the re-request and exception fallback of `fetch_full_text_by_doi` (clients/embase_client.py:78-99).
- PDF decoding (`fitz.open`, `page.get_text`). The chunker takes the page texts as its input.
- XML parsing in `add_pubmed_article`. The authors and identifiers are taken as decoded records. The title, abstract, journal, volume, issue, pages and date reads, and the item payload and its POST, are field copies plus I/O, so they are not modelled.
- `get_collections` and `create_collection`. They project or post a response. The `Collection` datatype is the projection `get_collections` returns.
- The per-item orchestration of `extract_chunks_from_collection` (zotero/main.py:87-110, 131-148) is not modelled. This covers choosing a PDF child, the download status, the `skipped` list and exception handling, all of which depend on network results.
- FastAPI routing, `dotenv` and API keys.
- Unicode. Letters, case mapping and word characters are ASCII only (`Text.IsLetter`, `Text.IsWordChar`, `Text.Lower`, `Text.Upper`). Python's `re` matches `\b` and `IGNORECASE` over Unicode, and `str.title` maps Unicode case. The line-boundary and whitespace sets are CPython's in full.
- JSON values that are present but `null`. `Option` models a missing key only. A `null` date, for instance, would make the source raise on `None[:4]`.
- A link whose `@ref` matches but which has no `@href` makes the source raise `KeyError`. `Link` always carries an `@href`.
- Fields copied unchanged from search entries have an unconstrained type `V`. Their JSON types (string, boolean) are not modelled.
- `SectionChunker.ChunkPages`: the dictionary is an insertion-ordered sequence of `(label, paragraphs)` entries, not a hash map. `RecordMeaning` and `ChunkerLemmas.RecordAllKeys` state the dictionary behaviour the code relies on.
