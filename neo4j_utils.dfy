/**
 * neo4j_utils.py: cutting an article into paragraphs, and storing the articles in the
 * graph as Page nodes, Paragraph nodes and HAS_PARAGRAPH relationships. The graph is
 * the sequence of everything created in it, in creation order; a created node is
 * known by its position in that sequence.
 */
module Neo4jUtils {
  import opened PyStr

  // ---------------------------------------------------------------------------
  // chunk_text_by_paragraph
  // ---------------------------------------------------------------------------

  const Newline: string := "\n"
  const BlankLine: string := "\n\n"

  /** What one line contributes: its stripped text, unless that is empty. */
  function Kept(line: string): seq<string> {
    if Strip(line) != [] then [Strip(line)] else []
  }

  /** The lines, each stripped, with the blank ones dropped, in order. */
  function Keep(lines: seq<string>): (ps: seq<string>)
    ensures |ps| <= |lines|
  {
    if lines == [] then [] else Keep(lines[..|lines| - 1]) + Kept(lines[|lines| - 1])
  }

  /** Every kept line is non-empty and stripped. */
  lemma {:induction false} KeepShape(lines: seq<string>)
    ensures forall k :: 0 <= k < |Keep(lines)| ==> Keep(lines)[k] != [] && IsStripped(Keep(lines)[k])
  {
    if lines != [] {
      KeepShape(lines[..|lines| - 1]);
    }
  }

  lemma KeepSnoc(lines: seq<string>, line: string)
    ensures Keep(lines + [line]) == Keep(lines) + Kept(line)
  {
    assert (lines + [line])[..|lines|] == lines;
  }

  lemma {:induction false} KeepAppend(a: seq<string>, b: seq<string>)
    ensures Keep(a + b) == Keep(a) + Keep(b)
    decreases |b|
  {
    if b == [] {
      assert a + b == a;
    } else {
      assert (a + b)[..|a + b| - 1] == a + b[..|b| - 1];
      KeepAppend(a, b[..|b| - 1]);
    }
  }

  /** The lines of each section, section after section. */
  function SectionLines(sections: seq<string>): seq<string> {
    if sections == [] then []
    else SectionLines(sections[..|sections| - 1]) + Split(sections[|sections| - 1], Newline)
  }

  lemma {:induction false} SectionLinesAppend(a: seq<string>, b: seq<string>)
    ensures SectionLines(a + b) == SectionLines(a) + SectionLines(b)
    decreases |b|
  {
    if b == [] {
      assert a + b == a;
    } else {
      var front, last := b[..|b| - 1], b[|b| - 1];
      calc {
        SectionLines(a + b);
        { assert (a + b)[..|a + b| - 1] == a + front; assert (a + b)[|a + b| - 1] == last; }
        SectionLines(a + front) + Split(last, Newline);
        { SectionLinesAppend(a, front); }
        SectionLines(a) + SectionLines(front) + Split(last, Newline);
        SectionLines(a) + (SectionLines(front) + Split(last, Newline));
        SectionLines(a) + SectionLines(b);
      }
    }
  }

  /** chunk_text_by_paragraph(text): the sections between blank lines, their lines, stripped and non-blank. */
  function Paragraphs(text: string): seq<string> {
    Keep(SectionLines(Split(text, BlankLine)))
  }

  lemma SectionLinesStep(sections: seq<string>, i: nat)
    requires i < |sections|
    ensures SectionLines(sections[..i + 1]) == SectionLines(sections[..i]) + Split(sections[i], Newline)
  {
    assert sections[..i + 1][..i] == sections[..i];
  }

  /** The inner loop of chunk_text_by_paragraph: appends each kept line of one section. */
  method AppendSectionParagraphs(paragraphs: seq<string>, subParagraphs: seq<string>, ghost done: seq<string>)
    returns (after: seq<string>)
    requires paragraphs == Keep(done)
    ensures after == Keep(done + subParagraphs)
  {
    after := paragraphs;
    ghost var lines := done;
    assert done + subParagraphs[..0] == done;
    for j := 0 to |subParagraphs|
      invariant lines == done + subParagraphs[..j]
      invariant after == Keep(lines)
    {
      KeepSnoc(lines, subParagraphs[j]);
      if Strip(subParagraphs[j]) != [] {
        after := after + [Strip(subParagraphs[j])];
      }
      SnocSlice(done, subParagraphs, j);
      lines := lines + [subParagraphs[j]];
    }
    assert subParagraphs[..|subParagraphs|] == subParagraphs;
  }

  lemma SnocSlice<T>(done: seq<T>, s: seq<T>, j: nat)
    requires j < |s|
    ensures done + s[..j + 1] == (done + s[..j]) + [s[j]]
  {
    assert s[..j + 1] == s[..j] + [s[j]];
  }

  /**
   * chunk_text_by_paragraph: splits the text into sections at "\n\n", each section into
   * lines at "\n", and keeps every line whose stripped text is not empty, stripped.
   */
  method ChunkTextByParagraph(text: string) returns (paragraphs: seq<string>)
    ensures paragraphs == Paragraphs(text)
  {
    var sections := Split(text, BlankLine);
    paragraphs := [];
    for i := 0 to |sections|
      invariant paragraphs == Keep(SectionLines(sections[..i]))
    {
      var subParagraphs := Split(sections[i], Newline);
      SectionLinesStep(sections, i);
      paragraphs := AppendSectionParagraphs(paragraphs, subParagraphs, SectionLines(sections[..i]));
    }
    assert sections[..|sections|] == sections;
  }

  /** The empty string splits into one empty piece. */
  lemma SplitEmpty(sep: string)
    requires |sep| > 0
    ensures Split("", sep) == [""]
  {
    IndexFromNone("", sep, 0);
  }

  /** A blank line "\n\n" between two texts becomes an empty line between their lines. */
  lemma {:induction false} SplitAtBlankLine(a: string, b: string)
    ensures Split(a + BlankLine + b, Newline) == Split(a, Newline) + [""] + Split(b, Newline)
  {
    var tail: string := [] + ['\n'] + b;
    assert a + BlankLine + b == a + ['\n'] + tail;
    SplitAround(a, '\n', tail);
    SplitAround([], '\n', b);
    SplitEmpty(Newline);
  }

  lemma KeepEmptyLine()
    ensures Keep([""]) == []
  {
    assert [""][..0] == [];
  }

  lemma KeepAround(a: seq<string>, b: seq<string>)
    ensures Keep(a + [""] + b) == Keep(a) + Keep(b)
  {
    KeepAppend(a + [""], b);
    KeepAppend(a, [""]);
    KeepEmptyLine();
  }

  lemma {:induction false} KeepOfJoinedSections(sections: seq<string>)
    requires |sections| >= 1
    ensures Keep(Split(Join(sections, BlankLine), Newline)) == Keep(SectionLines(sections))
  {
    if |sections| == 1 {
      assert sections == [sections[0]];
      SectionLinesSingle(sections[0]);
    } else {
      KeepOfJoinedSections(sections[1..]);
      KeepOfJoinedCons(sections[0], sections[1..]);
      assert sections == [sections[0]] + sections[1..];
    }
  }

  lemma SectionLinesSingle(section: string)
    ensures SectionLines([section]) == Split(section, Newline)
  {
    assert [section][..0] == [];
  }

  /** One more section in front: its lines come first, and the blank line between adds nothing. */
  lemma {:induction false} KeepOfJoinedCons(first: string, rest: seq<string>)
    requires |rest| >= 1
    requires Keep(Split(Join(rest, BlankLine), Newline)) == Keep(SectionLines(rest))
    ensures Keep(Split(Join([first] + rest, BlankLine), Newline)) == Keep(SectionLines([first] + rest))
  {
    calc {
      Keep(Split(Join([first] + rest, BlankLine), Newline));
      == { JoinCons(first, rest, BlankLine); }
      Keep(Split(first + BlankLine + Join(rest, BlankLine), Newline));
      == { KeepAroundBlankLine(first, Join(rest, BlankLine)); }
      Keep(SectionLines([first])) + Keep(Split(Join(rest, BlankLine), Newline));
      Keep(SectionLines([first])) + Keep(SectionLines(rest));
      == { KeepAppend(SectionLines([first]), SectionLines(rest)); }
      Keep(SectionLines([first]) + SectionLines(rest));
      == { SectionLinesAppend([first], rest); }
      Keep(SectionLines([first] + rest));
    }
  }

  /** The kept lines of a + "\n\n" + b: those of a, then those of b. */
  lemma KeepAroundBlankLine(a: string, b: string)
    ensures Keep(Split(a + BlankLine + b, Newline)) == Keep(SectionLines([a])) + Keep(Split(b, Newline))
  {
    SplitAtBlankLine(a, b);
    KeepAround(Split(a, Newline), Split(b, Newline));
    SectionLinesSingle(a);
  }

  /** Splitting at "\n\n" first changes nothing: the paragraphs are the text's non-blank lines, stripped. */
  lemma ParagraphsByLine(text: string)
    ensures Paragraphs(text) == Keep(Split(text, Newline))
  {
    JoinSplit(text, BlankLine);
    KeepOfJoinedSections(Split(text, BlankLine));
  }

  /** A join with a blank separator is blank exactly when every part is. */
  lemma {:induction false} JoinAllSpace(parts: seq<string>, sep: string)
    requires AllSpace(sep)
    ensures AllSpace(Join(parts, sep)) <==> forall k :: 0 <= k < |parts| ==> AllSpace(parts[k])
  {
    if |parts| >= 2 {
      JoinAllSpace(parts[1..], sep);
      AllSpaceAppend(parts[0] + sep, Join(parts[1..], sep));
      AllSpaceAppend(parts[0], sep);
      assert forall k :: 1 <= k < |parts| ==> parts[k] == parts[1..][k - 1];
    }
  }

  lemma {:induction false} KeepEmpty(lines: seq<string>)
    ensures Keep(lines) == [] <==> forall k :: 0 <= k < |lines| ==> AllSpace(lines[k])
  {
    if lines != [] {
      var pre := lines[..|lines| - 1];
      KeepEmpty(pre);
      StripBlank(lines[|lines| - 1]);
      assert forall k :: 0 <= k < |pre| ==> pre[k] == lines[k];
    }
  }

  /** A text yields no paragraphs exactly when it is all whitespace. */
  lemma ParagraphsBlank(text: string)
    ensures Paragraphs(text) == [] <==> AllSpace(text)
  {
    ParagraphsByLine(text);
    JoinSplit(text, Newline);
    JoinAllSpace(Split(text, Newline), Newline);
    KeepEmpty(Split(text, Newline));
  }

  lemma {:induction false} KeepWithoutChar(lines: seq<string>, c: char)
    requires forall k :: 0 <= k < |lines| ==> c !in lines[k]
    ensures forall k :: 0 <= k < |Keep(lines)| ==> c !in Keep(lines)[k]
  {
    if lines != [] {
      var pre := lines[..|lines| - 1];
      assert forall k :: 0 <= k < |pre| ==> pre[k] == lines[k];
      KeepWithoutChar(pre, c);
      StripKeepsCharacters(lines[|lines| - 1], c);
    }
  }

  /** The lines of text.split("\n") hold no newline. */
  lemma SplitLinesWithoutNewline(text: string)
    ensures forall k :: 0 <= k < |Split(text, Newline)| ==> '\n' !in Split(text, Newline)[k]
  {
    var lines := Split(text, Newline);
    SplitPiecesApart(text, Newline);
    forall k | 0 <= k < |lines|
      ensures '\n' !in lines[k]
    {
      forall j | 0 <= j < |lines[k]|
        ensures lines[k][j] != '\n'
      {
        OccursAtChar(lines[k], '\n', j);
      }
    }
  }

  /** Every paragraph is non-empty, has no whitespace at either end and holds no newline. */
  lemma ParagraphShape(text: string)
    ensures forall k :: 0 <= k < |Paragraphs(text)| ==>
      var p := Paragraphs(text)[k];
      p != [] && IsStripped(p) && '\n' !in p
  {
    ParagraphsByLine(text);
    KeepShape(Split(text, Newline));
    SplitLinesWithoutNewline(text);
    KeepWithoutChar(Split(text, Newline), '\n');
  }

  lemma {:induction false} KeepStripped(lines: seq<string>)
    requires forall k :: 0 <= k < |lines| ==> lines[k] != [] && IsStripped(lines[k])
    ensures Keep(lines) == lines
  {
    if lines != [] {
      var pre, last := lines[..|lines| - 1], lines[|lines| - 1];
      calc {
        Keep(lines);
        Keep(pre) + Kept(last);
        { assert forall k :: 0 <= k < |pre| ==> pre[k] == lines[k]; KeepStripped(pre); }
        pre + Kept(last);
        { StripStripped(last); }
        pre + [last];
        lines;
      }
    }
  }

  /** Paragraphs joined with "\n" are cut back into the same paragraphs. */
  lemma {:induction false} ParagraphsOfJoin(ps: seq<string>)
    requires forall k :: 0 <= k < |ps| ==> ps[k] != [] && IsStripped(ps[k]) && '\n' !in ps[k]
    ensures Paragraphs(Join(ps, Newline)) == ps
  {
    ParagraphsByLine(Join(ps, Newline));
    if ps == [] {
      SplitEmpty(Newline);
      assert Keep([""]) == [] by {
        assert [""][..0] == [];
      }
    } else {
      SplitJoinChar(ps, '\n');
      KeepStripped(ps);
    }
  }

  /** Chunking is idempotent: chunking the paragraphs joined by newlines gives them back. */
  lemma ParagraphsIdempotent(text: string)
    ensures Paragraphs(Join(Paragraphs(text), Newline)) == Paragraphs(text)
  {
    ParagraphShape(text);
    ParagraphsOfJoin(Paragraphs(text));
  }

  // ---------------------------------------------------------------------------
  // The graph and save_to_neo4j
  // ---------------------------------------------------------------------------

  /** One element of save_to_neo4j's data: the entry's "url", "title" and "content" values. */
  datatype Entry = Entry(url: string, title: string, content: string)

  /**
   * What graph.create records: a Page node, a Paragraph node, or a HAS_PARAGRAPH
   * relationship from the node at position page to the node at position paragraph.
   */
  datatype Record =
    | PageNode(url: string, title: string, createdAt: string)
    | ParagraphNode(id: string, content: string, createdAt: string)
    | HasParagraph(page: nat, paragraph: nat)

  /** The Neo4j graph, as the sequence of what has been created in it. */
  class Graph {
    var log: seq<Record>

    constructor ()
      ensures log == []
    {
      log := [];
    }

    /** graph.create(r): r is added after everything already created; handle is its position. */
    method Create(r: Record) returns (handle: nat)
      modifies this
      ensures handle == |old(log)|
      ensures log == old(log) + [r]
    {
      handle := |log|;
      log := log + [r];
    }
  }

  /** The id of the i-th paragraph (counting from 0) of the page at url: url + "_para_" + str(i + 1). */
  function ParagraphId(url: string, i: nat): string {
    url + "_para_" + NatToString(i + 1)
  }

  /** Two paragraphs of one page never share an id. */
  lemma ParagraphIdInjective(url: string, i: nat, j: nat)
    requires ParagraphId(url, i) == ParagraphId(url, j)
    ensures i == j
  {
    var prefix := url + "_para_";
    assert NatToString(i + 1) == ParagraphId(url, i)[|prefix|..];
    assert NatToString(j + 1) == ParagraphId(url, j)[|prefix|..];
    NatToStringInjective(i + 1, j + 1);
  }

  /** The inner loop: for each paragraph, its node and its relationship from the page node at position page. */
  function ParagraphRecords(url: string, ps: seq<string>, timestamp: string, page: nat): (rs: seq<Record>)
    ensures |rs| == 2 * |ps|
  {
    if ps == [] then []
    else
      var i := |ps| - 1;
      ParagraphRecords(url, ps[..i], timestamp, page)
        + [ParagraphNode(ParagraphId(url, i), ps[i], timestamp), HasParagraph(page, page + 1 + 2 * i)]
  }

  /**
   * What save_to_neo4j creates for one entry whose Page node lands at position page,
   * when chunk cuts the entry's content into paragraphs.
   */
  function EntryRecords(entry: Entry, chunk: string -> seq<string>, timestamp: string, page: nat): seq<Record> {
    [PageNode(entry.url, entry.title, timestamp)]
      + ParagraphRecords(entry.url, chunk(entry.content), timestamp, page)
  }

  /**
   * What save_to_neo4j creates for the whole list, starting at position base of the
   * graph; clock(e) is what datetime.now().isoformat() returns for the e-th entry.
   */
  function SaveRecords(data: seq<Entry>, chunk: string -> seq<string>, clock: nat -> string, base: nat): seq<Record> {
    if data == [] then []
    else
      var e := |data| - 1;
      var before := SaveRecords(data[..e], chunk, clock, base);
      before + EntryRecords(data[e], chunk, clock(e), base + |before|)
  }

  lemma ParagraphRecordsStep(url: string, ps: seq<string>, timestamp: string, page: nat, i: nat)
    requires i < |ps|
    ensures ParagraphRecords(url, ps[..i + 1], timestamp, page)
         == ParagraphRecords(url, ps[..i], timestamp, page)
            + [ParagraphNode(ParagraphId(url, i), ps[i], timestamp), HasParagraph(page, page + 1 + 2 * i)]
  {
    assert ps[..i + 1][..i] == ps[..i];
  }

  /**
   * The inner loop of save_to_neo4j: for each paragraph, its node and the relationship
   * to it from the Page node at position pageNode, created just before.
   */
  method CreateParagraphs(graph: Graph, url: string, paragraphs: seq<string>, timestamp: string, pageNode: nat)
    requires |graph.log| == pageNode + 1
    modifies graph
    ensures graph.log == old(graph.log) + ParagraphRecords(url, paragraphs, timestamp, pageNode)
  {
    ghost var start := graph.log;
    for i := 0 to |paragraphs|
      invariant graph.log == start + ParagraphRecords(url, paragraphs[..i], timestamp, pageNode)
    {
      ParagraphRecordsStep(url, paragraphs, timestamp, pageNode, i);
      var paragraphNode := graph.Create(ParagraphNode(ParagraphId(url, i), paragraphs[i], timestamp));
      var relationship := graph.Create(HasParagraph(pageNode, paragraphNode));
    }
    assert paragraphs[..|paragraphs|] == paragraphs;
  }

  /**
   * One iteration of save_to_neo4j's loop: the entry's Page node at position page, then
   * its paragraphs as chunk_text_by_paragraph cuts them, each with its relationship from
   * the page.
   */
  method SaveEntry(graph: Graph, entry: Entry, timestamp: string, ghost page: nat)
    requires |graph.log| == page
    modifies graph
    ensures graph.log == old(graph.log) + EntryRecords(entry, Paragraphs, timestamp, page)
  {
    var paragraphs := ChunkTextByParagraph(entry.content);
    var pageNode := graph.Create(PageNode(entry.url, entry.title, timestamp));
    CreateParagraphs(graph, entry.url, paragraphs, timestamp, pageNode);
  }

  /**
   * save_to_neo4j: for each entry, in order, a Page node, then for each paragraph that
   * chunk_text_by_paragraph cuts from its content a Paragraph node and a HAS_PARAGRAPH
   * relationship from the page to it, all stamped with the time the entry started.
   */
  method SaveToNeo4j(graph: Graph, data: seq<Entry>, clock: nat -> string)
    modifies graph
    ensures graph.log == old(graph.log) + SaveRecords(data, Paragraphs, clock, |old(graph.log)|)
  {
    ghost var start := graph.log;
    ghost var done: seq<Record> := [];
    for e := 0 to |data|
      invariant graph.log == start + done
      invariant done == SaveRecords(data[..e], Paragraphs, clock, |start|)
    {
      var timestamp := clock(e);
      ghost var added := EntryRecords(data[e], Paragraphs, clock(e), |start| + |done|);
      SaveEntry(graph, data[e], timestamp, |start| + |done|);
      SaveRecordsNext(data, Paragraphs, clock, |start|, e, done, added);
      AppendAssoc(start, done, added);
      done := done + added;
    }
    assert data[..|data|] == data;
  }

  /** One more entry: its records follow those of the entries before it. */
  lemma {:induction false} SaveRecordsNext(data: seq<Entry>, chunk: string -> seq<string>, clock: nat -> string, base: nat, e: nat,
                         done: seq<Record>, added: seq<Record>)
    requires e < |data|
    requires done == SaveRecords(data[..e], chunk, clock, base)
    requires added == EntryRecords(data[e], chunk, clock(e), base + |done|)
    ensures done + added == SaveRecords(data[..e + 1], chunk, clock, base)
  {
    assert data[..e + 1][..e] == data[..e];
  }

  lemma AppendAssoc<T>(a: seq<T>, b: seq<T>, c: seq<T>)
    ensures (a + b) + c == a + (b + c)
  {
  }

  /**
   * save_to_neo4j handles the entries in input order: what the first e entries create
   * is the beginning of what the whole list creates.
   */
  lemma {:induction false} SaveRecordsPrefix(data: seq<Entry>, chunk: string -> seq<string>, clock: nat -> string, base: nat, e: nat)
    requires e <= |data|
    ensures var pre, all := SaveRecords(data[..e], chunk, clock, base), SaveRecords(data, chunk, clock, base);
      |pre| <= |all| && all[..|pre|] == pre
  {
    if e == |data| {
      assert data[..e] == data;
    } else {
      var k := |data| - 1;
      var front := data[..k];
      SaveRecordsPrefix(front, chunk, clock, base, e);
      assert front[..e] == data[..e];
      var mid := SaveRecords(front, chunk, clock, base);
      var last := EntryRecords(data[k], chunk, clock(k), base + |mid|);
      SaveRecordsNext(data, chunk, clock, base, k, mid, last);
      assert data[..k + 1] == data;
      PrefixExtend(SaveRecords(data[..e], chunk, clock, base), mid, last);
    }
  }

  lemma PrefixExtend<T>(p: seq<T>, m: seq<T>, x: seq<T>)
    requires |p| <= |m| && m[..|p|] == p
    ensures |p| <= |m + x| && (m + x)[..|p|] == p
  {
    assert (m + x)[..|p|] == m[..|p|];
  }

  /** The inner loop's records: node of paragraph i at 2 * i, its relationship right after it. */
  lemma {:induction false} ParagraphRecordsShape(url: string, ps: seq<string>, timestamp: string, page: nat)
    ensures var rs := ParagraphRecords(url, ps, timestamp, page);
      forall i :: 0 <= i < |ps| ==>
        && rs[2 * i] == ParagraphNode(ParagraphId(url, i), ps[i], timestamp)
        && rs[2 * i + 1] == HasParagraph(page, page + 1 + 2 * i)
  {
    if ps != [] {
      var pre := ps[..|ps| - 1];
      ParagraphRecordsShape(url, pre, timestamp, page);
      assert forall i :: 0 <= i < |pre| ==> pre[i] == ps[i];
    }
  }

  /**
   * One entry of save_to_neo4j: its Page node first, then for the i-th paragraph its
   * node with id url_para_{i+1}, its text and the entry's timestamp, then the
   * relationship from the Page node to that node.
   */
  lemma EntryRecordsShape(entry: Entry, chunk: string -> seq<string>, timestamp: string, page: nat)
    ensures var ps, rs := chunk(entry.content), EntryRecords(entry, chunk, timestamp, page);
      && |rs| == 1 + 2 * |ps|
      && rs[0] == PageNode(entry.url, entry.title, timestamp)
      && forall i :: 0 <= i < |ps| ==>
           && rs[1 + 2 * i] == ParagraphNode(ParagraphId(entry.url, i), ps[i], timestamp)
           && rs[2 + 2 * i] == HasParagraph(page, page + 1 + 2 * i)
  {
    ParagraphRecordsShape(entry.url, chunk(entry.content), timestamp, page);
  }

  /** An entry gets only its Page node (the case the source warns about) exactly when its content is blank. */
  lemma EntryWithoutParagraphs(entry: Entry, timestamp: string, page: nat)
    ensures EntryRecords(entry, Paragraphs, timestamp, page) == [PageNode(entry.url, entry.title, timestamp)]
        <==> AllSpace(entry.content)
  {
    ParagraphsBlank(entry.content);
    var rs := EntryRecords(entry, Paragraphs, timestamp, page);
    assert |rs| == 1 + 2 * |Paragraphs(entry.content)|;
  }

  /**
   * Every relationship created from position from on links a Page node created earlier
   * from position from on to the Paragraph node created just before the relationship.
   */
  ghost predicate LinksWellFormed(log: seq<Record>, from: nat) {
    forall k :: from <= k < |log| && log[k].HasParagraph? ==>
      && from <= log[k].page < log[k].paragraph == k - 1
      && log[log[k].page].PageNode?
      && log[log[k].paragraph].ParagraphNode?
  }

  /** Within one entry's records, position j is the Page node, a Paragraph node or a relationship. */
  lemma {:induction false} EntryPosition(entry: Entry, chunk: string -> seq<string>, timestamp: string, page: nat, j: nat)
    requires j < |EntryRecords(entry, chunk, timestamp, page)|
    ensures var rs := EntryRecords(entry, chunk, timestamp, page);
      rs[j].HasParagraph? ==> 2 <= j && rs[j] == HasParagraph(page, page + j - 1) && rs[j - 1].ParagraphNode?
  {
    EntryRecordsShape(entry, chunk, timestamp, page);
    var rs := EntryRecords(entry, chunk, timestamp, page);
    if j != 0 {
      var i := (j - 1) / 2;
      if j == 1 + 2 * i {
        assert rs[j].ParagraphNode?;
      } else {
        assert j == 2 + 2 * i;
      }
    }
  }

  lemma {:induction false} EntryLinks(log: seq<Record>, from: nat, entry: Entry, chunk: string -> seq<string>, timestamp: string)
    requires from <= |log| && LinksWellFormed(log, from)
    ensures LinksWellFormed(log + EntryRecords(entry, chunk, timestamp, |log|), from)
  {
    var rs := EntryRecords(entry, chunk, timestamp, |log|);
    var all := log + rs;
    EntryRecordsShape(entry, chunk, timestamp, |log|);
    forall k | from <= k < |all| && all[k].HasParagraph?
      ensures from <= all[k].page < all[k].paragraph == k - 1
      ensures all[all[k].page].PageNode? && all[all[k].paragraph].ParagraphNode?
    {
      if k >= |log| {
        var j := k - |log|;
        assert all[k] == rs[j];
        EntryPosition(entry, chunk, timestamp, |log|, j);
        assert all[|log|] == rs[0];
        assert all[k - 1] == rs[j - 1];
      }
    }
  }

  /** save_to_neo4j leaves every relationship it creates linking a Page node to a Paragraph node. */
  lemma {:induction false} SaveLinksWellFormed(log: seq<Record>, data: seq<Entry>, chunk: string -> seq<string>, clock: nat -> string)
    ensures LinksWellFormed(log + SaveRecords(data, chunk, clock, |log|), |log|)
  {
    if data != [] {
      var e := |data| - 1;
      var before := SaveRecords(data[..e], chunk, clock, |log|);
      SaveLinksWellFormed(log, data[..e], chunk, clock);
      EntryLinks(log + before, |log|, data[e], chunk, clock(e));
      assert log + before + EntryRecords(data[e], chunk, clock(e), |log| + |before|)
          == log + SaveRecords(data, chunk, clock, |log|);
    }
  }
}
