/**
 * Section-aware chunking of a document's page texts (the inner loop of
 * `extract_chunks_from_collection` in zotero/main.py).
 *
 * The pages are joined with "\n" and split into lines. A line whose
 * stripped form starts with one of ten heading keywords switches the
 * current section label; every other line is buffered, and the buffer is
 * flushed as one paragraph under the current label at each heading and at
 * the end. The result is an insertion-ordered map from label to the
 * paragraphs flushed under it.
 *
 * `ChunkPages` is the loop. `Chunk` is its specification, built from the
 * log of flushes the loop performs (`Flushes`) recorded into the map in
 * order (`RecordAll`). Module `ChunkerLemmas` describes the same log and
 * map without the buffer and proves the two agree.
 */
module SectionChunker {

  import opened Wrappers
  import opened Text

  // ---------------------------------------------------------------------
  // Heading detection
  // ---------------------------------------------------------------------

  /** The alternatives of the heading pattern, in the pattern's order. */
  const Keywords: seq<string> := [
    "abstract", "introduction", "background", "methods", "materials and methods",
    "results", "findings", "discussion", "conclusion", "references"
  ]

  /** The label each keyword produces, index for index. */
  const Labels: seq<string> := [
    "Abstract", "Introduction", "Background", "Methods", "Materials And Methods",
    "Results", "Findings", "Discussion", "Conclusion", "References"
  ]

  /** The label of text that precedes every heading. */
  const Unknown: string := "Unknown"

  /**
   * The pattern's alternative `k`, compared without regard to case, at the
   * start of `t` and followed by a word boundary: since every keyword ends
   * in a letter, the next character must be absent or not a word character.
   */
  predicate MatchesKeyword(t: string, k: string) {
    && |k| <= |t|
    && EqualsIgnoreCase(t[..|k|], k)
    && (|k| == |t| || !IsWordChar(t[|k|]))
  }

  /** The first alternative, from index `i` on, that matches `t` (the regex tries them in order). */
  function FirstKeyword(t: string, i: nat): (r: Option<nat>)
    requires i <= |Keywords|
    ensures r.Some? ==> i <= r.value < |Keywords| && MatchesKeyword(t, Keywords[r.value])
    ensures r.Some? ==> forall j :: i <= j < r.value ==> !MatchesKeyword(t, Keywords[j])
    ensures r.None? ==> forall j :: i <= j < |Keywords| ==> !MatchesKeyword(t, Keywords[j])
    decreases |Keywords| - i
  {
    if i == |Keywords| then None
    else if MatchesKeyword(t, Keywords[i]) then Some(i)
    else FirstKeyword(t, i + 1)
  }

  /** Each keyword title-cases to its label. */
  lemma KeywordLabels()
    ensures |Keywords| == |Labels|
    ensures forall i :: 0 <= i < |Keywords| ==> TitleCase(Keywords[i]) == Labels[i]
  {
    FirstKeywordLabels();
    LongestKeywordLabel();
    LastKeywordLabels();
  }

  lemma FirstKeywordLabels()
    ensures forall i :: 0 <= i < 4 ==> TitleCase(Keywords[i]) == Labels[i]
  {
    OpeningKeywordLabels();
    assert TitleCase(Keywords[2]) == Labels[2];
    assert TitleCase(Keywords[3]) == Labels[3];
  }

  lemma OpeningKeywordLabels()
    ensures forall i :: 0 <= i < 2 ==> TitleCase(Keywords[i]) == Labels[i]
  {
    assert TitleCase(Keywords[0]) == Labels[0];
    assert TitleCase(Keywords[1]) == Labels[1];
  }

  lemma LongestKeywordLabel()
    ensures TitleCase(Keywords[4]) == Labels[4]
  {
    MaterialsAndMethods();
    assert Keywords[4] == "materials and methods";
    assert Labels[4] == "Materials And Methods";
  }

  /** `.title()` capitalises every word of the one multi-word keyword. */
  lemma MaterialsAndMethods()
    ensures TitleCase("materials and methods") == "Materials And Methods"
  {
    ThreeWords();
    TitleCaseMaterials();
    TitleCaseAnd();
    TitleCaseMethods();
    TitleCaseThreeWords("materials", "and", "methods", "Materials", "And", "Methods");
  }

  lemma ThreeWords()
    ensures "materials and methods" == "materials" + [' '] + ("and" + [' '] + "methods")
    ensures "Materials And Methods" == "Materials" + [' '] + ("And" + [' '] + "Methods")
  {
  }

  lemma TitleCaseThreeWords(a: string, b: string, c: string, ta: string, tb: string, tc: string)
    requires TitleCase(a) == ta && TitleCase(b) == tb && TitleCase(c) == tc
    ensures TitleCase(a + [' '] + (b + [' '] + c)) == ta + [' '] + (tb + [' '] + tc)
  {
    TitleCaseWords(b, ' ', c);
    TitleCaseWords(a, ' ', b + [' '] + c);
  }

  lemma TitleCaseMaterials() ensures TitleCase("materials") == "Materials" { }

  lemma TitleCaseAnd() ensures TitleCase("and") == "And" { }

  lemma TitleCaseMethods() ensures TitleCase("methods") == "Methods" { }

  lemma LastKeywordLabels()
    ensures forall i :: 5 <= i < 10 ==> TitleCase(Keywords[i]) == Labels[i]
  {
    assert TitleCase(Keywords[5]) == Labels[5];
    assert TitleCase(Keywords[6]) == Labels[6];
    ClosingKeywordLabels();
  }

  lemma ClosingKeywordLabels()
    ensures forall i :: 7 <= i < 10 ==> TitleCase(Keywords[i]) == Labels[i]
  {
    assert TitleCase(Keywords[7]) == Labels[7];
    FinalKeywordLabels();
  }

  lemma FinalKeywordLabels()
    ensures forall i :: 8 <= i < 10 ==> TitleCase(Keywords[i]) == Labels[i]
  {
    assert TitleCase(Keywords[8]) == Labels[8];
    assert TitleCase(Keywords[9]) == Labels[9];
  }

  /**
   * The label a line opens, if it is a heading: the group the pattern
   * matched in the stripped line, title-cased. `None` for any other line.
   */
  function HeadingLabel(line: string): Option<string> {
    var t := Strip(line);
    match FirstKeyword(t, 0)
    case None => None
    case Some(i) => Some(TitleCase(t[..|Keywords[i]|]))
  }

  /**
   * A line is a heading exactly when its stripped form starts with a
   * keyword followed by a word boundary, and the label is that of the first
   * such keyword, whatever the case of the line.
   */
  lemma HeadingLabelMeaning(line: string)
    ensures HeadingLabel(line).Some?
            <==> exists i :: 0 <= i < |Keywords| && MatchesKeyword(Strip(line), Keywords[i])
    ensures HeadingLabel(line).Some? ==> exists i ::
              && 0 <= i < |Keywords| && MatchesKeyword(Strip(line), Keywords[i])
              && (forall j :: 0 <= j < i ==> !MatchesKeyword(Strip(line), Keywords[j]))
              && HeadingLabel(line).value == Labels[i]
  {
    var t := Strip(line);
    match FirstKeyword(t, 0)
    case None =>
    case Some(i) =>
      KeywordLabels();
      TitleCaseIgnoresCase(t[..|Keywords[i]|], Keywords[i]);
  }

  /** Every label a heading opens is one of the ten title-cased keywords. */
  lemma HeadingLabelIsLabel(line: string)
    ensures HeadingLabel(line).Some? ==> HeadingLabel(line).value in Labels
  {
    HeadingLabelMeaning(line);
  }

  predicate IsHeading(line: string) {
    HeadingLabel(line).Some?
  }

  /** A label the chunker can produce. */
  predicate IsSectionLabel(s: string) {
    s == Unknown || s in Labels
  }

  /** A line as the loop sees it: a heading opening a section, or body text. */
  datatype Line = Heading(name: string) | Body(text: string)

  function ClassifyLine(line: string): Line {
    match HeadingLabel(line)
    case Some(name) => Heading(name)
    case None => Body(line)
  }

  /** The lines of a document, each classified. */
  function Classify(lines: seq<string>): (cs: seq<Line>)
    ensures |cs| == |lines|
  {
    if lines == [] then [] else [ClassifyLine(lines[0])] + Classify(lines[1..])
  }

  lemma {:induction false} ClassifyAt(lines: seq<string>, i: nat)
    requires i < |lines|
    ensures Classify(lines)[i] == ClassifyLine(lines[i])
  {
    var cs := [ClassifyLine(lines[0])] + Classify(lines[1..]);
    assert Classify(lines) == cs;
    if i > 0 {
      ClassifyAt(lines[1..], i - 1);
      assert cs[i] == Classify(lines[1..])[i - 1];
      assert lines[1..][i - 1] == lines[i];
    }
  }

  /** The body lines among `cs`, in order: the lines that are not headings. */
  function Bodies(cs: seq<Line>): seq<string> {
    if cs == [] then []
    else (if cs[0].Body? then [cs[0].text] else []) + Bodies(cs[1..])
  }

  /** Classification keeps every non-heading line as it is and turns a heading into its label. */
  lemma ClassifyMeaning(lines: seq<string>, i: nat)
    requires i < |lines|
    ensures Classify(lines)[i].Body? <==> !IsHeading(lines[i])
    ensures Classify(lines)[i].Body? ==> Classify(lines)[i].text == lines[i]
    ensures Classify(lines)[i].Heading? ==> Classify(lines)[i].name in Labels
  {
    ClassifyAt(lines, i);
    HeadingLabelIsLabel(lines[i]);
  }

  // ---------------------------------------------------------------------
  // Paragraphs and the section map
  // ---------------------------------------------------------------------

  /** A run of buffered lines and the label it is flushed under. */
  datatype Flush = Flush(name: string, lines: seq<string>)

  /** One key of the section map with its paragraphs, in flush order. */
  datatype Section = Section(name: string, paragraphs: seq<string>)

  /** An insertion-ordered map from label to paragraphs. */
  type SectionMap = seq<Section>

  predicate AllSpace(s: string) {
    forall k :: 0 <= k < |s| ==> IsSpace(s[k])
  }

  lemma {:induction false} JoinAllSpace(xs: seq<string>)
    ensures AllSpace(JoinWith(xs, " ")) <==> forall x :: x in xs ==> AllSpace(x)
  {
    if |xs| > 1 {
      JoinAllSpace(xs[1..]);
      var s := JoinWith(xs, " ");
      var t := JoinWith(xs[1..], " ");
      assert s == xs[0] + " " + t;
      assert AllSpace(s) <==> AllSpace(xs[0]) && AllSpace(t) by {
        if AllSpace(xs[0]) && AllSpace(t) {
          forall k | 0 <= k < |s| ensures IsSpace(s[k]) {
            if k < |xs[0]| { assert s[k] == xs[0][k]; }
            else if k > |xs[0]| { assert s[k] == t[k - |xs[0]| - 1]; }
          }
        }
        if AllSpace(s) {
          forall k | 0 <= k < |xs[0]| ensures IsSpace(xs[0][k]) { assert s[k] == xs[0][k]; }
          forall k | 0 <= k < |t| ensures IsSpace(t[k]) { assert s[k + |xs[0]| + 1] == t[k]; }
        }
      }
      assert forall x :: x in xs <==> x == xs[0] || x in xs[1..];
    }
  }

  /** The paragraph a flush stores: the buffered lines joined with one space, then stripped. */
  function Paragraph(buffer: seq<string>): string {
    Strip(JoinWith(buffer, " "))
  }

  /**
   * A paragraph has no surrounding whitespace, and it is empty exactly when
   * every buffered line is blank (such a buffer is still flushed).
   */
  lemma ParagraphMeaning(buffer: seq<string>)
    ensures Stripped(Paragraph(buffer))
    ensures Paragraph(buffer) == [] <==> forall l :: l in buffer ==> AllSpace(l)
  {
    JoinAllSpace(buffer);
  }

  /** The labels of the map, in insertion order. */
  function Keys(sm: SectionMap): seq<string> {
    if sm == [] then [] else [sm[0].name] + Keys(sm[1..])
  }

  /** The paragraphs stored under `name`, or none when it is not a key. */
  function Lookup(sm: SectionMap, name: string): seq<string> {
    if sm == [] then []
    else if sm[0].name == name then sm[0].paragraphs
    else Lookup(sm[1..], name)
  }

  /** `sections.setdefault(name, []).append(p)`, on the insertion-ordered map. */
  function Record(sm: SectionMap, name: string, p: string): SectionMap {
    if sm == [] then [Section(name, [p])]
    else if sm[0].name == name then [Section(name, sm[0].paragraphs + [p])] + sm[1..]
    else [sm[0]] + Record(sm[1..], name, p)
  }

  /**
   * Recording a paragraph makes a new label the last key and keeps an
   * existing label in place; the paragraph goes after the earlier ones
   * under its label, and no other label's paragraphs change.
   */
  lemma {:induction false} RecordMeaning(sm: SectionMap, name: string, p: string)
    ensures Keys(Record(sm, name, p)) == if name in Keys(sm) then Keys(sm) else Keys(sm) + [name]
    ensures Lookup(Record(sm, name, p), name) == Lookup(sm, name) + [p]
    ensures forall other :: other != name ==> Lookup(Record(sm, name, p), other) == Lookup(sm, other)
  {
    if sm != [] && sm[0].name != name {
      RecordMeaning(sm[1..], name, p);
      var r := Record(sm, name, p);
      assert r[0] == sm[0] && r[1..] == Record(sm[1..], name, p);
    } else if sm != [] {
      var r := Record(sm, name, p);
      assert r[0].name == name && r[1..] == sm[1..];
    }
  }

  // ---------------------------------------------------------------------
  // The specification: flush log, then the map it builds
  // ---------------------------------------------------------------------

  /** The flush `if buffer:` performs: one entry, or nothing for an empty buffer. */
  function Pending(name: string, buffer: seq<string>): seq<Flush> {
    if buffer != [] then [Flush(name, buffer)] else []
  }

  /** The flushes the loop performs on `cs`, starting from label `current` and `buffer`. */
  function Scan(cs: seq<Line>, current: string, buffer: seq<string>): seq<Flush>
    decreases |cs|
  {
    if cs == [] then Pending(current, buffer)
    else match cs[0]
      case Heading(name) => Pending(current, buffer) + Scan(cs[1..], name, [])
      case Body(text) => Scan(cs[1..], current, buffer + [text])
  }

  /** The flushes of a whole document. */
  function Flushes(lines: seq<string>): seq<Flush> {
    Scan(Classify(lines), Unknown, [])
  }

  /** The map `sm` becomes when the flushes `fs` are recorded into it, in order. */
  function RecordAll(sm: SectionMap, fs: seq<Flush>): SectionMap
    decreases |fs|
  {
    if fs == [] then sm
    else RecordAll(Record(sm, fs[0].name, Paragraph(fs[0].lines)), fs[1..])
  }

  /** The section map of a document given as lines. */
  function ChunkLines(lines: seq<string>): SectionMap {
    RecordAll([], Flushes(lines))
  }

  /** The section map of a document given as page texts. */
  function Chunk(pages: seq<string>): SectionMap {
    ChunkLines(SplitLines(JoinWith(pages, "\n")))
  }

  // ---------------------------------------------------------------------
  // The loop
  // ---------------------------------------------------------------------

  /** One step of `Scan` at position `i`. */
  lemma ScanStep(cs: seq<Line>, i: nat, current: string, buffer: seq<string>)
    requires i < |cs|
    ensures cs[i].Heading? ==>
              Scan(cs[i..], current, buffer) == Pending(current, buffer) + Scan(cs[i + 1..], cs[i].name, [])
    ensures cs[i].Body? ==>
              Scan(cs[i..], current, buffer) == Scan(cs[i + 1..], current, buffer + [cs[i].text])
  {
    assert cs[i..][0] == cs[i] && cs[i..][1..] == cs[i + 1..];
  }

  /** A heading line flushes a non-empty buffer and opens its own label. */
  lemma HeadingStep(sm: SectionMap, cs: seq<Line>, i: nat, current: string, buffer: seq<string>)
    requires i < |cs| && cs[i].Heading?
    ensures RecordAll(sm, Scan(cs[i..], current, buffer))
            == RecordAll(if buffer != [] then Record(sm, current, Paragraph(buffer)) else sm,
                         Scan(cs[i + 1..], cs[i].name, []))
  {
    ScanStep(cs, i, current, buffer);
    var rest := Scan(cs[i + 1..], cs[i].name, []);
    if buffer != [] {
      var f := Flush(current, buffer);
      assert ([f] + rest)[0] == f && ([f] + rest)[1..] == rest;
    } else {
      assert Pending(current, buffer) + rest == rest;
    }
  }

  /** A body line goes to the buffer. */
  lemma BodyStep(sm: SectionMap, cs: seq<Line>, i: nat, current: string, buffer: seq<string>)
    requires i < |cs| && cs[i].Body?
    ensures RecordAll(sm, Scan(cs[i..], current, buffer))
            == RecordAll(sm, Scan(cs[i + 1..], current, buffer + [cs[i].text]))
  {
    ScanStep(cs, i, current, buffer);
  }

  /** What is left at the end of the lines is the final flush. */
  lemma FinalStep(sm: SectionMap, cs: seq<Line>, current: string, buffer: seq<string>)
    ensures RecordAll(sm, Scan(cs[|cs|..], current, buffer))
            == if buffer != [] then Record(sm, current, Paragraph(buffer)) else sm
  {
    assert cs[|cs|..] == [];
    if buffer != [] {
      var f := Flush(current, buffer);
      assert [f][1..] == [];
    }
  }

  /**
   * The chunking loop. Its invariant: the map built so far, with the flushes
   * still to come from the remaining lines recorded into it, is the
   * document's map.
   */
  method ChunkPages(pages: seq<string>) returns (sections: SectionMap)
    ensures sections == Chunk(pages)
  {
    var lines := SplitLines(JoinWith(pages, "\n"));
    ghost var cs := Classify(lines);
    sections := [];
    var current := Unknown;
    var buffer: seq<string> := [];
    var i := 0;
    assert cs[i..] == cs;
    while i < |lines|
      invariant 0 <= i <= |lines|
      invariant RecordAll(sections, Scan(cs[i..], current, buffer)) == ChunkLines(lines)
    {
      var line := lines[i];
      var heading := HeadingLabel(line);
      ClassifyAt(lines, i);
      if heading.Some? {
        HeadingStep(sections, cs, i, current, buffer);
        if buffer != [] {
          sections := Record(sections, current, Paragraph(buffer));
          buffer := [];
        }
        current := heading.value;
      } else {
        BodyStep(sections, cs, i, current, buffer);
        buffer := buffer + [line];
      }
      i := i + 1;
    }
    FinalStep(sections, cs, current, buffer);
    if buffer != [] {
      sections := Record(sections, current, Paragraph(buffer));
    }
  }
}
