/**
 * What the section map of a document is, stated without the loop's buffer:
 * the flush log is the document cut at every heading with the empty pieces
 * dropped, the flushed lines are exactly the non-heading lines in order,
 * and the map holds, under each label, the paragraphs of that label's
 * flushes, with the labels in order of first appearance.
 */
module ChunkerLemmas {

  import opened Text
  import opened SectionChunker

  // ---------------------------------------------------------------------
  // Reference definitions
  // ---------------------------------------------------------------------

  /**
   * The classified lines cut at every heading: the body lines before the
   * first heading, under `current`, then for each heading the body lines up
   * to the next heading, under that heading's label. Pieces may be empty.
   */
  function Segments(cs: seq<Line>, current: string): (r: seq<Flush>)
    ensures |r| >= 1 && r[0].name == current
    decreases |cs|
  {
    if cs == [] then [Flush(current, [])]
    else match cs[0]
      case Heading(name) => [Flush(current, [])] + Segments(cs[1..], name)
      case Body(text) =>
        var r := Segments(cs[1..], current);
        [Flush(current, [text] + r[0].lines)] + r[1..]
  }

  /** The pieces that hold at least one line, in order. */
  function NonEmpty(fs: seq<Flush>): seq<Flush> {
    if fs == [] then []
    else (if fs[0].lines != [] then [fs[0]] else []) + NonEmpty(fs[1..])
  }

  /** The lines that are not headings, in order. */
  function NonHeadings(lines: seq<string>): seq<string> {
    if lines == [] then []
    else (if IsHeading(lines[0]) then [] else [lines[0]]) + NonHeadings(lines[1..])
  }

  /** The buffered lines of every flush, concatenated. */
  function AllLines(fs: seq<Flush>): seq<string> {
    if fs == [] then [] else fs[0].lines + AllLines(fs[1..])
  }

  /** The labels of the flushes, in order, repeats included. */
  function Names(fs: seq<Flush>): seq<string> {
    if fs == [] then [] else [fs[0].name] + Names(fs[1..])
  }

  /** The paragraphs of the flushes labelled `name`, in order. */
  function ParagraphsUnder(fs: seq<Flush>, name: string): seq<string> {
    if fs == [] then []
    else (if fs[0].name == name then [Paragraph(fs[0].lines)] else []) + ParagraphsUnder(fs[1..], name)
  }

  /** `keys` followed by each of `names` not seen before, in order of first appearance. */
  function AddNew(keys: seq<string>, names: seq<string>): seq<string>
    decreases |names|
  {
    if names == [] then keys
    else AddNew(if names[0] in keys then keys else keys + [names[0]], names[1..])
  }

  predicate Distinct(xs: seq<string>) {
    forall i, j :: 0 <= i < j < |xs| ==> xs[i] != xs[j]
  }

  // ---------------------------------------------------------------------
  // Sequence helpers
  // ---------------------------------------------------------------------

  lemma {:induction false} NonEmptyAppend(a: seq<Flush>, b: seq<Flush>)
    ensures NonEmpty(a + b) == NonEmpty(a) + NonEmpty(b)
  {
    if a == [] {
      assert a + b == b;
    } else {
      assert (a + b)[0] == a[0] && (a + b)[1..] == a[1..] + b;
      NonEmptyAppend(a[1..], b);
    }
  }

  lemma {:induction false} AllLinesAppend(a: seq<Flush>, b: seq<Flush>)
    ensures AllLines(a + b) == AllLines(a) + AllLines(b)
  {
    if a == [] {
      assert a + b == b;
    } else {
      assert (a + b)[0] == a[0] && (a + b)[1..] == a[1..] + b;
      AllLinesAppend(a[1..], b);
    }
  }

  /** The pending flush holds the buffer, and only when it is non-empty. */
  lemma PendingLines(name: string, buffer: seq<string>)
    ensures NonEmpty([Flush(name, buffer)]) == Pending(name, buffer)
    ensures AllLines(Pending(name, buffer)) == buffer
  {
    if buffer != [] {
      assert [Flush(name, buffer)][1..] == [];
    }
  }

  // ---------------------------------------------------------------------
  // The flush log
  // ---------------------------------------------------------------------

  /**
   * Scanning from label `current` with `buffer` pending flushes the
   * non-empty pieces of the cut document, the buffer joining the first.
   */
  lemma {:induction false} ScanIsSegments(cs: seq<Line>, current: string, buffer: seq<string>)
    ensures var s := Segments(cs, current);
            Scan(cs, current, buffer) == NonEmpty([Flush(current, buffer + s[0].lines)] + s[1..])
    decreases |cs|
  {
    var s := Segments(cs, current);
    if cs == [] {
      PendingLines(current, buffer);
      assert [Flush(current, buffer + s[0].lines)] + s[1..] == [Flush(current, buffer)];
    } else {
      match cs[0]
      case Heading(name) =>
        var s' := Segments(cs[1..], name);
        ScanIsSegments(cs[1..], name, []);
        assert [] + s'[0].lines == s'[0].lines;
        assert Flush(name, s'[0].lines) == s'[0];
        assert [s'[0]] + s'[1..] == s';
        PendingLines(current, buffer);
        assert s[1..] == s';
        NonEmptyAppend([Flush(current, buffer + s[0].lines)], s');
        assert buffer + s[0].lines == buffer;
      case Body(text) =>
        var s' := Segments(cs[1..], current);
        ScanIsSegments(cs[1..], current, buffer + [text]);
        assert s[0].lines == [text] + s'[0].lines && s[1..] == s'[1..];
        assert buffer + [text] + s'[0].lines == buffer + s[0].lines;
    }
  }

  /** The flushes of a document are the non-empty pieces of it cut at every heading. */
  lemma FlushesAreSegments(lines: seq<string>)
    ensures Flushes(lines) == NonEmpty(Segments(Classify(lines), Unknown))
  {
    var s := Segments(Classify(lines), Unknown);
    ScanIsSegments(Classify(lines), Unknown, []);
    assert [] + s[0].lines == s[0].lines;
    assert Flush(Unknown, s[0].lines) == s[0];
    assert [s[0]] + s[1..] == s;
  }

  /** Every body line is flushed exactly once, after the buffer, in order. */
  lemma {:induction false} ScanCovers(cs: seq<Line>, current: string, buffer: seq<string>)
    ensures AllLines(Scan(cs, current, buffer)) == buffer + Bodies(cs)
    decreases |cs|
  {
    if cs == [] {
      PendingLines(current, buffer);
    } else {
      match cs[0]
      case Heading(name) =>
        ScanCovers(cs[1..], name, []);
        PendingLines(current, buffer);
        AllLinesAppend(Pending(current, buffer), Scan(cs[1..], name, []));
      case Body(text) =>
        ScanCovers(cs[1..], current, buffer + [text]);
    }
  }

  /** The body lines of a classified document are its non-heading lines. */
  lemma {:induction false} BodiesAreNonHeadings(lines: seq<string>)
    ensures Bodies(Classify(lines)) == NonHeadings(lines)
  {
    if lines != [] {
      var cs := Classify(lines);
      assert cs == [ClassifyLine(lines[0])] + Classify(lines[1..]);
      assert cs[0] == ClassifyLine(lines[0]) && cs[1..] == Classify(lines[1..]);
      BodiesAreNonHeadings(lines[1..]);
    }
  }

  /** The flushed lines, in order, are exactly the document's non-heading lines. */
  lemma FlushesCover(lines: seq<string>)
    ensures AllLines(Flushes(lines)) == NonHeadings(lines)
  {
    ScanCovers(Classify(lines), Unknown, []);
    BodiesAreNonHeadings(lines);
  }

  /**
   * Every flush holds at least one line and is labelled by the starting
   * label or by a heading among `cs`.
   */
  lemma {:induction false} ScanWellFormed(cs: seq<Line>, current: string, buffer: seq<string>)
    ensures forall f :: f in Scan(cs, current, buffer) ==>
              f.lines != [] && (f.name == current || Heading(f.name) in cs)
    decreases |cs|
  {
    if cs != [] {
      match cs[0]
      case Heading(name) =>
        ScanWellFormed(cs[1..], name, []);
        forall f | f in Scan(cs[1..], name, [])
          ensures Heading(f.name) in cs
        {
          if f.name == name { assert cs[0] == Heading(f.name); }
          else { assert Heading(f.name) in cs[1..]; }
        }
      case Body(text) =>
        ScanWellFormed(cs[1..], current, buffer + [text]);
        forall f | f in Scan(cs[1..], current, buffer + [text]) && f.name != current
          ensures Heading(f.name) in cs
        {
          assert Heading(f.name) in cs[1..];
        }
    }
  }

  /** Every flush of a document holds at least one line and carries a label the chunker can produce. */
  lemma FlushesWellFormed(lines: seq<string>)
    ensures forall f :: f in Flushes(lines) ==> f.lines != [] && IsSectionLabel(f.name)
  {
    var cs := Classify(lines);
    ScanWellFormed(cs, Unknown, []);
    forall f | f in Flushes(lines) && f.name != Unknown
      ensures f.name in Labels
    {
      var k :| 0 <= k < |cs| && cs[k] == Heading(f.name);
      ClassifyMeaning(lines, k);
    }
  }

  /** With no heading, everything pending and every line is one flush under the current label. */
  lemma {:induction false} ScanWithoutHeadings(cs: seq<Line>, current: string, buffer: seq<string>)
    requires forall k :: 0 <= k < |cs| ==> cs[k].Body?
    ensures Scan(cs, current, buffer) == Pending(current, buffer + Bodies(cs))
    decreases |cs|
  {
    if cs != [] {
      assert cs[0].Body?;
      assert Scan(cs, current, buffer) == Scan(cs[1..], current, buffer + [cs[0].text]);
      assert Bodies(cs) == [cs[0].text] + Bodies(cs[1..]);
      ScanWithoutHeadings(cs[1..], current, buffer + [cs[0].text]);
      assert buffer + [cs[0].text] + Bodies(cs[1..]) == buffer + Bodies(cs);
    } else {
      assert buffer + Bodies(cs) == buffer;
    }
  }

  // ---------------------------------------------------------------------
  // The section map
  // ---------------------------------------------------------------------

  /** Under each label the map holds the earlier paragraphs, then those of that label's flushes. */
  lemma {:induction false} RecordAllLookup(sm: SectionMap, fs: seq<Flush>, name: string)
    ensures Lookup(RecordAll(sm, fs), name) == Lookup(sm, name) + ParagraphsUnder(fs, name)
    decreases |fs|
  {
    if fs != [] {
      var sm' := Record(sm, fs[0].name, Paragraph(fs[0].lines));
      RecordMeaning(sm, fs[0].name, Paragraph(fs[0].lines));
      RecordAllLookup(sm', fs[1..], name);
    }
  }

  /** The keys are the earlier keys followed by the flushes' new labels, in order of first appearance. */
  lemma {:induction false} RecordAllKeys(sm: SectionMap, fs: seq<Flush>)
    ensures Keys(RecordAll(sm, fs)) == AddNew(Keys(sm), Names(fs))
    decreases |fs|
  {
    if fs != [] {
      var sm' := Record(sm, fs[0].name, Paragraph(fs[0].lines));
      RecordMeaning(sm, fs[0].name, Paragraph(fs[0].lines));
      RecordAllKeys(sm', fs[1..]);
    }
  }

  /** Adding only unseen names keeps keys distinct and adds exactly the names given. */
  lemma {:induction false} AddNewMeaning(keys: seq<string>, names: seq<string>)
    requires Distinct(keys)
    ensures Distinct(AddNew(keys, names))
    ensures forall x :: x in AddNew(keys, names) <==> x in keys || x in names
    decreases |names|
  {
    if names != [] {
      var keys' := if names[0] in keys then keys else keys + [names[0]];
      AddNewMeaning(keys', names[1..]);
      assert forall x :: x in names <==> x == names[0] || x in names[1..];
    }
  }

  lemma {:induction false} NamesMembership(fs: seq<Flush>)
    ensures forall x :: x in Names(fs) <==> exists f :: f in fs && f.name == x
  {
    if fs != [] {
      NamesMembership(fs[1..]);
      assert forall f :: f in fs <==> f == fs[0] || f in fs[1..];
    }
  }

  /**
   * The section map of a document: its keys are distinct, each is the label
   * of some flush and carries a label the chunker can produce, and under
   * each label stand the paragraphs of that label's flushes, in order.
   */
  lemma ChunkLinesMeaning(lines: seq<string>)
    ensures Keys(ChunkLines(lines)) == AddNew([], Names(Flushes(lines)))
    ensures Distinct(Keys(ChunkLines(lines)))
    ensures forall x :: x in Keys(ChunkLines(lines)) <==> exists f :: f in Flushes(lines) && f.name == x
    ensures forall x :: x in Keys(ChunkLines(lines)) ==> IsSectionLabel(x)
    ensures forall x :: Lookup(ChunkLines(lines), x) == ParagraphsUnder(Flushes(lines), x)
  {
    var fs := Flushes(lines);
    RecordAllKeys([], fs);
    AddNewMeaning([], Names(fs));
    NamesMembership(fs);
    FlushesWellFormed(lines);
    forall x ensures Lookup(ChunkLines(lines), x) == ParagraphsUnder(fs, x) {
      RecordAllLookup([], fs, x);
    }
  }

  /** A paragraph is under a label exactly when some flush with that label produced it. */
  lemma {:induction false} ParagraphsUnderMembership(fs: seq<Flush>, name: string)
    ensures forall p :: p in ParagraphsUnder(fs, name) <==> exists f :: f in fs && f.name == name && Paragraph(f.lines) == p
  {
    if fs != [] {
      ParagraphsUnderMembership(fs[1..], name);
      assert forall f :: f in fs <==> f == fs[0] || f in fs[1..];
    }
  }

  /**
   * An empty paragraph is stored under a label exactly when a flush under
   * that label held only blank lines: the flush is guarded by the buffer
   * being non-empty, not by the paragraph being non-empty.
   */
  lemma EmptyParagraphs(lines: seq<string>, name: string)
    ensures "" in Lookup(ChunkLines(lines), name) <==>
              exists f :: f in Flushes(lines) && f.name == name && forall l :: l in f.lines ==> AllSpace(l)
  {
    var fs := Flushes(lines);
    ChunkLinesMeaning(lines);
    ParagraphsUnderMembership(fs, name);
    forall f | f in fs ensures Paragraph(f.lines) == "" <==> forall l :: l in f.lines ==> AllSpace(l) {
      ParagraphMeaning(f.lines);
    }
  }

  /** A document with no heading line is one section, `Unknown`, holding one paragraph of all its lines. */
  lemma ChunkWithoutHeadings(lines: seq<string>)
    requires lines != []
    requires forall k :: 0 <= k < |lines| ==> !IsHeading(lines[k])
    ensures ChunkLines(lines) == [Section(Unknown, [Paragraph(lines)])]
  {
    var cs := Classify(lines);
    ClassifyPlain(lines);
    ScanWithoutHeadings(cs, Unknown, []);
    BodiesAreNonHeadings(lines);
    NonHeadingsOfPlain(lines);
    assert [] + lines == lines;
    var f := Flush(Unknown, lines);
    assert Flushes(lines) == [f];
    assert [f][1..] == [];
    assert RecordAll([], [f]) == RecordAll(Record([], Unknown, Paragraph(lines)), []);
  }

  lemma ClassifyPlain(lines: seq<string>)
    requires forall k :: 0 <= k < |lines| ==> !IsHeading(lines[k])
    ensures forall k :: 0 <= k < |lines| ==> Classify(lines)[k].Body?
  {
    forall k | 0 <= k < |lines| ensures Classify(lines)[k].Body? {
      ClassifyMeaning(lines, k);
    }
  }

  lemma {:induction false} NonHeadingsOfPlain(lines: seq<string>)
    requires forall k :: 0 <= k < |lines| ==> !IsHeading(lines[k])
    ensures NonHeadings(lines) == lines
  {
    if lines != [] {
      NonHeadingsOfPlain(lines[1..]);
      assert [lines[0]] + lines[1..] == lines;
    }
  }

  /**
   * Pages that hold no line boundary are the lines of the document, one
   * each, provided the last page is not empty.
   */
  lemma ChunkOfSingleLinePages(pages: seq<string>)
    requires forall p :: p in pages ==> NoLineBreak(p)
    requires pages != [] ==> pages[|pages| - 1] != []
    ensures Chunk(pages) == ChunkLines(pages)
  {
    SplitLinesOfJoined(pages);
  }

  /** An empty document has no sections. */
  lemma ChunkOfNoPages()
    ensures Chunk([]) == []
  {
    assert JoinWith([], "\n") == "";
  }
}
