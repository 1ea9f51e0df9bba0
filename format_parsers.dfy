/** The per-format post-processing of the document extractor: the DOCX title
    scan and segment collection, the spreadsheet row filter with its sheet
    markers and first-row title, and the first-non-blank-line title of plain
    text and legacy Word files. The parsing libraries are replaced by the
    records they would produce. */
module FormatParsers {
  import opened Wrappers
  import opened Chars
  import opened Strings

  /** Why a format handler gives up. */
  datatype ParseError =
    | EmptyText                    // a text file with no decodable content
    | AntiwordFailed(code: int)    // the legacy-Word converter failed or printed nothing
    | Corrupt                      // the parsing library refused the file

  // ---------------------------------------------------------------------
  // DOCX
  // ---------------------------------------------------------------------

  /** A paragraph as the DOCX library presents it. Run sizes are in
      half-points (the `w:sz` unit), `None` where a run inherits its size. */
  datatype Paragraph = Paragraph(text: string, style: string, runSizes: seq<Option<nat>>, centred: bool)

  /** Only this many leading paragraphs (empty ones included) are scanned. */
  const ScanLimit: nat := 8

  predicate TitleStyled(p: Paragraph)
  {
    Contains(LowerStr(p.style), "title")
  }

  predicate HeadingStyled(p: Paragraph)
  {
    Contains(LowerStr(p.style), "heading 1")
  }

  function StyleScore(p: Paragraph): nat
  {
    if TitleStyled(p) then 100 else if HeadingStyled(p) then 50 else 0
  }

  /** The largest explicit run size, 0 when no run sets one. */
  function MaxSize(sizes: seq<Option<nat>>): nat
  {
    if sizes == [] then 0
    else
      var m := MaxSize(sizes[..|sizes| - 1]);
      var last := sizes[|sizes| - 1];
      if last.Some? && last.value > m then last.value else m
  }

  /** The size the score uses: the largest run, or a default of 16pt for
      styled paragraphs and 10.5pt otherwise. */
  function EffectiveSize(p: Paragraph): nat
  {
    var m := MaxSize(p.runSizes);
    if m == 0 then (if StyleScore(p) >= 50 then 32 else 21) else m
  }

  function Score(p: Paragraph): nat
  {
    StyleScore(p) + (if EffectiveSize(p) >= 30 then 40 else 0) + (if p.centred then 20 else 0)
  }

  predicate Accepted(p: Paragraph)
  {
    Score(p) > 40
  }

  predicate LargeRun(p: Paragraph)
  {
    exists i :: 0 <= i < |p.runSizes| && p.runSizes[i].Some? && p.runSizes[i].value >= 30
  }

  lemma {:induction false} MaxSizeAtLeast(sizes: seq<Option<nat>>, k: nat)
    requires k >= 1
    ensures MaxSize(sizes) >= k <==>
      exists i :: 0 <= i < |sizes| && sizes[i].Some? && sizes[i].value >= k
    decreases |sizes|
  {
    if sizes != [] {
      var init := sizes[..|sizes| - 1];
      MaxSizeAtLeast(init, k);
      if MaxSize(sizes) >= k {
        if MaxSize(sizes) != MaxSize(init) {
          assert sizes[|sizes| - 1].Some? && sizes[|sizes| - 1].value >= k;
        } else {
          var i :| 0 <= i < |init| && init[i].Some? && init[i].value >= k;
          assert sizes[i] == init[i];
        }
      } else {
        forall i | 0 <= i < |sizes| && sizes[i].Some?
          ensures sizes[i].value < k
        {
          if i < |init| { assert sizes[i] == init[i]; }
        }
      }
    }
  }

  /** A paragraph is accepted exactly when it has a title style, a heading-1
      style, or a run of at least 15pt and centred alignment. */
  lemma AcceptedIff(p: Paragraph)
    ensures Accepted(p) <==> TitleStyled(p) || HeadingStyled(p) || (LargeRun(p) && p.centred)
  {
    MaxSizeAtLeast(p.runSizes, 30);
  }

  /** The largest run size, computed by the run loop. */
  method LargestRun(sizes: seq<Option<nat>>) returns (m: nat)
    ensures m == MaxSize(sizes)
  {
    m := 0;
    var j := 0;
    while j < |sizes|
      invariant 0 <= j <= |sizes|
      invariant m == MaxSize(sizes[..j])
    {
      assert sizes[..j + 1][..j] == sizes[..j];
      if sizes[j].Some? && sizes[j].value > m {
        m := sizes[j].value;
      }
      j := j + 1;
    }
    assert sizes[..j] == sizes;
  }

  method ParagraphScore(p: Paragraph) returns (score: nat)
    ensures score == Score(p)
  {
    score := 0;
    var style := LowerStr(p.style);
    if Contains(style, "title") {
      score := score + 100;
    } else if Contains(style, "heading 1") {
      score := score + 50;
    }
    var maxSize := LargestRun(p.runSizes);
    if maxSize == 0 {
      maxSize := if score >= 50 then 32 else 21;
    }
    if maxSize >= 30 {
      score := score + 40;
    }
    if p.centred {
      score := score + 20;
    }
  }

  /** The stripped texts the scan collects from `ps`; `prev` records that an
      accepted paragraph has been seen, after which the first rejected
      non-empty paragraph ends the scan. */
  function TitleParts(ps: seq<Paragraph>, prev: bool): seq<string>
    decreases |ps|
  {
    if ps == [] then []
    else
      var text := Strip(ps[0].text);
      if text == [] then TitleParts(ps[1..], prev)
      else if Accepted(ps[0]) then [text] + TitleParts(ps[1..], true)
      else if prev then []
      else TitleParts(ps[1..], prev)
  }

  function Window(ps: seq<Paragraph>): seq<Paragraph>
  {
    if |ps| <= ScanLimit then ps else ps[..ScanLimit]
  }

  function DocxTitleOf(ps: seq<Paragraph>): string
  {
    Join(TitleParts(Window(ps), false), " ")
  }

  /** The stripped text the scan looks at. */
  function ParaText(p: Paragraph): string
  {
    Strip(p.text)
  }

  /** What the scan has collected before position `i`, followed by what it
      will collect from there on, is the scan of the whole window. */
  predicate ScanInv<T>(w: seq<T>, i: nat, parts: seq<string>, prev: bool, text: T -> string, acc: T -> bool)
  {
    i <= |w| && parts + PartsBy(w[i..], prev, text, acc) == PartsBy(w, false, text, acc)
  }

  /** What one step of the scan does with a paragraph whose stripped text
      is `text`: a blank one is skipped, an accepted one is collected, and
      a rejected one after an accepted one stops the scan. */
  predicate ScanOutcome(text: string, accepted: bool, parts: seq<string>, prev: bool,
                        parts': seq<string>, prev': bool, stop: bool)
  {
    if text == [] then parts' == parts && prev' == prev && !stop
    else if accepted then parts' == parts + [text] && prev' && !stop
    else if prev then stop
    else parts' == parts && prev' == prev && !stop
  }

  /** One step of the scan at position `i` keeps the invariant, or stops
      with the whole scan collected. */
  lemma ScanStep<T>(w: seq<T>, i: nat, parts: seq<string>, prev: bool, text: T -> string, acc: T -> bool,
                    parts': seq<string>, prev': bool, stop: bool)
    requires i < |w| && ScanInv(w, i, parts, prev, text, acc)
    requires ScanOutcome(text(w[i]), acc(w[i]), parts, prev, parts', prev', stop)
    ensures stop ==> parts == PartsBy(w, false, text, acc)
    ensures !stop ==> ScanInv(w, i + 1, parts', prev', text, acc)
  {
    PartsByAt(w, i, prev, text, acc);
    if text(w[i]) != [] && acc(w[i]) {
      ScanCollects(w, i, parts, prev, text, acc);
    }
  }

  /** The accepted case of `ScanStep`. */
  lemma ScanCollects<T>(w: seq<T>, i: nat, parts: seq<string>, prev: bool, text: T -> string, acc: T -> bool)
    requires i < |w| && ScanInv(w, i, parts, prev, text, acc)
    requires PartsBy(w[i..], prev, text, acc) == [text(w[i])] + PartsBy(w[i + 1..], true, text, acc)
    ensures ScanInv(w, i + 1, parts + [text(w[i])], true, text, acc)
  {
    assert parts + PartsBy(w[i..], prev, text, acc) == (parts + [text(w[i])]) + PartsBy(w[i + 1..], true, text, acc);
  }

  /** The scan's definition, read at position `i`. */
  lemma PartsByAt<T>(w: seq<T>, i: nat, prev: bool, text: T -> string, acc: T -> bool)
    requires i < |w|
    ensures PartsBy(w[i..], prev, text, acc) ==
      if text(w[i]) == [] then PartsBy(w[i + 1..], prev, text, acc)
      else if acc(w[i]) then [text(w[i])] + PartsBy(w[i + 1..], true, text, acc)
      else if prev then []
      else PartsBy(w[i + 1..], prev, text, acc)
  {
    assert w[i..][0] == w[i];
    assert w[i..][1..] == w[i + 1..];
  }

  lemma ScanStart<T>(w: seq<T>, text: T -> string, acc: T -> bool)
    ensures ScanInv(w, 0, [], false, text, acc)
  {
    assert w[0..] == w;
  }

  lemma ScanEnd<T>(w: seq<T>, parts: seq<string>, prev: bool, text: T -> string, acc: T -> bool)
    requires ScanInv(w, |w|, parts, prev, text, acc)
    ensures parts == PartsBy(w, false, text, acc)
  {
    assert w[|w|..] == [];
  }

  lemma WindowAt(ps: seq<Paragraph>, i: nat)
    requires i < |ps| && i < ScanLimit
    ensures i < |Window(ps)| && Window(ps)[i] == ps[i]
  {
  }

  lemma WindowEnd(ps: seq<Paragraph>, i: nat)
    requires i <= |ps| && i <= ScanLimit && (i == |ps| || i == ScanLimit)
    ensures i == |Window(ps)|
  {
  }

  /** One paragraph of the scan. */
  method ScanParagraph(para: Paragraph, parts: seq<string>, prev: bool)
    returns (parts': seq<string>, prev': bool, stop: bool)
    ensures ScanOutcome(Strip(para.text), Accepted(para), parts, prev, parts', prev', stop)
  {
    parts', prev', stop := parts, prev, false;
    var text := Strip(para.text);
    if text != [] {
      var score := ParagraphScore(para);
      if score > 40 {
        parts' := parts + [text];
        prev' := true;
      } else if prev {
        stop := true;
      }
    }
  }

  /** The scan loop of the DOCX title: the texts it collects. */
  method ScanTitleParts(paras: seq<Paragraph>) returns (parts: seq<string>)
    ensures parts == TitleParts(Window(paras), false)
  {
    ghost var w := Window(paras);
    parts := [];
    var prev := false;
    var i := 0;
    var stop := false;
    ScanStart(w, ParaText, Accepted);
    while !stop && i < |paras| && i < ScanLimit
      invariant i <= |w|
      invariant stop || ScanInv(w, i, parts, prev, ParaText, Accepted)
      invariant stop ==> parts == PartsBy(w, false, ParaText, Accepted)
      decreases ScanLimit - i, !stop
    {
      parts, prev, stop := ScanAt(paras, w, i, parts, prev);
      if !stop {
        i := i + 1;
      }
    }
    if !stop {
      WindowEnd(paras, i);
      ScanEnd(w, parts, prev, ParaText, Accepted);
    }
    PartsByAccepted(w, false);
  }

  /** The scan at paragraph `i`: it either stops with the scan complete or
      keeps the invariant. */
  method ScanAt(paras: seq<Paragraph>, ghost w: seq<Paragraph>, i: nat, parts: seq<string>, prev: bool)
    returns (parts': seq<string>, prev': bool, stop: bool)
    requires w == Window(paras)
    requires i < |paras| && i < ScanLimit && ScanInv(w, i, parts, prev, ParaText, Accepted)
    ensures stop ==> parts' == PartsBy(w, false, ParaText, Accepted)
    ensures !stop ==> ScanInv(w, i + 1, parts', prev', ParaText, Accepted)
  {
    WindowAt(paras, i);
    var next;
    next, prev', stop := ScanParagraph(paras[i], parts, prev);
    ScanStep(w, i, parts, prev, ParaText, Accepted, next, prev', stop);
    parts' := if stop then parts else next;
  }

  /** The DOCX title scan. */
  method DocxTitle(paras: seq<Paragraph>) returns (title: string)
    ensures title == DocxTitleOf(paras)
  {
    var parts := ScanTitleParts(paras);
    title := if parts == [] then "" else Join(parts, " ");
  }

  predicate Kept(p: Paragraph)
  {
    Strip(p.text) != [] && Accepted(p)
  }

  predicate Rejected(p: Paragraph)
  {
    Strip(p.text) != [] && !Accepted(p)
  }

  /** Paragraphs past the eighth never change the title. */
  lemma ScanLimitOnly(ps: seq<Paragraph>, more: seq<Paragraph>)
    ensures |ps| >= ScanLimit ==> DocxTitleOf(ps + more) == DocxTitleOf(ps)
  {
    if |ps| >= ScanLimit {
      assert (ps + more)[..ScanLimit] == ps[..ScanLimit];
      assert |ps| == ScanLimit && more == [] ==> ps + more == ps[..ScanLimit];
      assert |ps| == ScanLimit ==> ps == ps[..ScanLimit];
      assert Window(ps + more) == Window(ps);
    }
  }

  /** The stripped texts of the non-empty accepted paragraphs, in order. */
  function KeptTexts(ps: seq<Paragraph>): seq<string>
    decreases |ps|
  {
    if ps == [] then []
    else if Kept(ps[0]) then [Strip(ps[0].text)] + KeptTexts(ps[1..])
    else KeptTexts(ps[1..])
  }

  /** The title parts are the leading run of accepted texts: a prefix of
      the texts of all non-empty accepted paragraphs. */
  lemma {:induction false} PartsAreAccepted(ps: seq<Paragraph>, prev: bool)
    ensures TitleParts(ps, prev) <= KeptTexts(ps)
    decreases |ps|
  {
    if ps != [] {
      PartsAreAccepted(ps[1..], true);
      PartsAreAccepted(ps[1..], prev);
    }
  }

  /** Before anything is accepted, the title is empty exactly when no
      scanned paragraph is both non-empty and accepted. */
  lemma {:induction false} TitleEmptyIff(ps: seq<Paragraph>)
    ensures TitleParts(ps, false) == [] <==> forall k :: 0 <= k < |ps| ==> !Kept(ps[k])
    decreases |ps|
  {
    if ps != [] {
      TitleEmptyIff(ps[1..]);
      forall k | 1 <= k < |ps| ensures ps[k] == ps[1..][k - 1] { }
    }
  }

  /** A rejected non-empty paragraph that follows an accepted one ends the
      scan: nothing from it onwards contributes. */
  lemma ScanStops(ps: seq<Paragraph>, prev: bool, k: int, j: nat)
    requires j < |ps| && Rejected(ps[j])
    requires prev || (0 <= k < j && Kept(ps[k]))
    ensures TitleParts(ps, prev) == TitleParts(ps[..j], prev)
  {
    PartsByAccepted(ps, prev);
    PartsByAccepted(ps[..j], prev);
    PartsByStops(ps, prev, k, j, ParaText, Accepted);
  }

  /** The scan with the stripped text and the acceptance test as
      parameters. */
  function PartsBy<T>(ps: seq<T>, prev: bool, text: T -> string, acc: T -> bool): seq<string>
    decreases |ps|
  {
    if ps == [] then []
    else if text(ps[0]) == [] then PartsBy(ps[1..], prev, text, acc)
    else if acc(ps[0]) then [text(ps[0])] + PartsBy(ps[1..], true, text, acc)
    else if prev then []
    else PartsBy(ps[1..], prev, text, acc)
  }

  lemma {:induction false} PartsByAccepted(ps: seq<Paragraph>, prev: bool)
    ensures TitleParts(ps, prev) == PartsBy(ps, prev, ParaText, Accepted)
    decreases |ps|
  {
    if ps != [] {
      PartsByAccepted(ps[1..], true);
      PartsByAccepted(ps[1..], prev);
    }
  }

  lemma {:induction false} PartsByStops<T>(ps: seq<T>, prev: bool, k: int, j: nat, text: T -> string, acc: T -> bool)
    requires j < |ps| && text(ps[j]) != [] && !acc(ps[j])
    requires prev || (0 <= k < j && text(ps[k]) != [] && acc(ps[k]))
    ensures PartsBy(ps, prev, text, acc) == PartsBy(ps[..j], prev, text, acc)
    decreases j
  {
    if j == 0 {
      assert ps[..j] == [];
    } else {
      var rest := ps[1..];
      assert ps[..j][1..] == rest[..j - 1];
      assert ps[..j][0] == ps[0];
      assert rest[j - 1] == ps[j];
      if 1 <= k < j {
        assert rest[k - 1] == ps[k];
      }
      if text(ps[0]) == [] {
        PartsByStops(rest, prev, k - 1, j - 1, text, acc);
      } else if acc(ps[0]) {
        PartsByStops(rest, true, k - 1, j - 1, text, acc);
      } else if !prev {
        PartsByStops(rest, prev, k - 1, j - 1, text, acc);
      }
    }
  }

  /** The segments of a DOCX body: every non-blank paragraph as written,
      then one space-joined line of stripped non-blank cells per table row
      that has any. */
  function ParagraphSegments(paras: seq<Paragraph>): seq<string>
  {
    if paras == [] then []
    else
      var init := ParagraphSegments(paras[..|paras| - 1]);
      var p := paras[|paras| - 1];
      if Strip(p.text) != [] then init + [p.text] else init
  }

  /** The stripped non-blank cells of a row, in order. */
  function FilledCells(cells: seq<string>): seq<string>
  {
    if cells == [] then []
    else
      var init := FilledCells(cells[..|cells| - 1]);
      var c := Strip(cells[|cells| - 1]);
      if c != [] then init + [c] else init
  }

  function CellRowSegments(rows: seq<seq<string>>): seq<string>
  {
    if rows == [] then []
    else
      var init := CellRowSegments(rows[..|rows| - 1]);
      var cells := FilledCells(rows[|rows| - 1]);
      if cells != [] then init + [Join(cells, " ")] else init
  }

  /** A table as a list of rows, each a list of cell texts. */
  datatype Table = Table(rows: seq<seq<string>>)

  function TableSegments(tables: seq<Table>): seq<string>
  {
    if tables == [] then []
    else TableSegments(tables[..|tables| - 1]) + CellRowSegments(tables[|tables| - 1].rows)
  }

  /** The step of an appending loop: extending what it has appended by the
      next piece keeps the output equal to the input plus what is done. */
  lemma ExtendDone<T>(segments: seq<T>, done: seq<T>, r: seq<T>, piece: seq<T>, next: seq<T>)
    requires r == segments + done && next == done + piece
    ensures r + piece == segments + next
  {
  }

  lemma CellRowSegmentsSnoc(rows: seq<seq<string>>, j: nat)
    requires j < |rows|
    ensures CellRowSegments(rows[..j + 1]) == CellRowSegments(rows[..j]) +
      (if FilledCells(rows[j]) != [] then [Join(FilledCells(rows[j]), " ")] else [])
  {
    assert rows[..j + 1][..j] == rows[..j];
  }

  method AppendTableRows(segments: seq<string>, rows: seq<seq<string>>) returns (r: seq<string>)
    ensures r == segments + CellRowSegments(rows)
  {
    r := segments;
    var j := 0;
    while j < |rows|
      invariant 0 <= j <= |rows|
      invariant r == segments + CellRowSegments(rows[..j])
    {
      var cells := FilledCells(rows[j]);
      CellRowSegmentsSnoc(rows, j);
      ExtendDone(segments, CellRowSegments(rows[..j]), r,
                 if cells != [] then [Join(cells, " ")] else [], CellRowSegments(rows[..j + 1]));
      if cells != [] {
        r := r + [Join(cells, " ")];
      }
      j := j + 1;
    }
    assert rows[..j] == rows;
  }

  lemma ParagraphSegmentsSnoc(paras: seq<Paragraph>, i: nat)
    requires i < |paras|
    ensures ParagraphSegments(paras[..i + 1]) == ParagraphSegments(paras[..i]) +
      (if Strip(paras[i].text) != [] then [paras[i].text] else [])
  {
    assert paras[..i + 1][..i] == paras[..i];
  }

  method CollectParagraphs(paras: seq<Paragraph>) returns (segments: seq<string>)
    ensures segments == ParagraphSegments(paras)
  {
    segments := [];
    var i := 0;
    while i < |paras|
      invariant 0 <= i <= |paras|
      invariant segments == ParagraphSegments(paras[..i])
    {
      ParagraphSegmentsSnoc(paras, i);
      ExtendDone([], ParagraphSegments(paras[..i]), segments,
                 if Strip(paras[i].text) != [] then [paras[i].text] else [], ParagraphSegments(paras[..i + 1]));
      if Strip(paras[i].text) != [] {
        segments := segments + [paras[i].text];
      }
      i := i + 1;
    }
    assert paras[..i] == paras;
  }

  lemma TableSegmentsSnoc(tables: seq<Table>, t: nat)
    requires t < |tables|
    ensures TableSegments(tables[..t + 1]) == TableSegments(tables[..t]) + CellRowSegments(tables[t].rows)
  {
    assert tables[..t + 1][..t] == tables[..t];
  }

  method CollectTables(segments: seq<string>, tables: seq<Table>) returns (r: seq<string>)
    ensures r == segments + TableSegments(tables)
  {
    r := segments;
    var t := 0;
    while t < |tables|
      invariant 0 <= t <= |tables|
      invariant r == segments + TableSegments(tables[..t])
    {
      TableSegmentsSnoc(tables, t);
      ExtendDone(segments, TableSegments(tables[..t]), r, CellRowSegments(tables[t].rows), TableSegments(tables[..t + 1]));
      r := AppendTableRows(r, tables[t].rows);
      t := t + 1;
    }
    assert tables[..t] == tables;
  }

  /** A DOCX file as the library reads it. */
  datatype DocxFile = DocxFile(paragraphs: seq<Paragraph>, tables: seq<Table>, coreTitle: string)

  /** What the DOCX handler returns: its segments, and the in-document title
      or, when the scan finds none, the core-properties title. */
  function DocxOutput(d: DocxFile): (seq<string>, string)
  {
    var scanned := DocxTitleOf(d.paragraphs);
    (ParagraphSegments(d.paragraphs) + TableSegments(d.tables), if scanned != "" then scanned else d.coreTitle)
  }

  /** The DOCX handler after the library has read the file. */
  method ProcessDocx(d: DocxFile) returns (segments: seq<string>, title: string)
    ensures (segments, title) == DocxOutput(d)
  {
    title := DocxTitle(d.paragraphs);
    if title == "" && d.coreTitle != "" {
      title := d.coreTitle;
    }
    segments := CollectParagraphs(d.paragraphs);
    segments := CollectTables(segments, d.tables);
  }

  /** A space join ends with its last part. */
  lemma {:induction false} JoinEndsWithLast(parts: seq<string>, sep: string)
    requires parts != []
    ensures |Join(parts, sep)| >= |parts[|parts| - 1]|
    ensures EndsWith(Join(parts, sep), parts[|parts| - 1])
  {
  }

  /** A non-empty string with no whitespace at either end. */
  predicate Solid(s: string)
  {
    s != [] && !IsSpace(s[0]) && !IsSpace(s[|s| - 1])
  }

  lemma {:induction false} FilledCellsShape(cells: seq<string>)
    ensures forall i :: 0 <= i < |FilledCells(cells)| ==> Solid(FilledCells(cells)[i])
    decreases |cells|
  {
    if cells != [] {
      var init := FilledCells(cells[..|cells| - 1]);
      var c := Strip(cells[|cells| - 1]);
      FilledCellsShape(cells[..|cells| - 1]);
      if c != [] {
        assert Solid(c);
        SolidSnoc(init, c);
      }
    }
  }

  lemma SolidSnoc(init: seq<string>, c: string)
    requires forall i :: 0 <= i < |init| ==> Solid(init[i])
    requires Solid(c)
    ensures forall i :: 0 <= i < |init + [c]| ==> Solid((init + [c])[i])
  {
    forall i | 0 <= i < |init + [c]|
      ensures Solid((init + [c])[i])
    {
      if i < |init| {
        assert (init + [c])[i] == init[i];
      }
    }
  }

  /** Every DOCX segment is non-blank. */
  lemma {:induction false} DocxSegmentsNonBlank(paras: seq<Paragraph>, tables: seq<Table>)
    ensures forall s :: s in ParagraphSegments(paras) + TableSegments(tables) ==> Strip(s) != []
    decreases |paras| + |tables|
  {
    if paras != [] {
      DocxSegmentsNonBlank(paras[..|paras| - 1], tables);
    } else if tables != [] {
      DocxSegmentsNonBlank(paras, tables[..|tables| - 1]);
      RowSegmentsNonBlank(tables[|tables| - 1].rows);
    }
  }

  lemma {:induction false} RowSegmentsNonBlank(rows: seq<seq<string>>)
    ensures forall s :: s in CellRowSegments(rows) ==> Strip(s) != []
    decreases |rows|
  {
    if rows != [] {
      RowSegmentsNonBlank(rows[..|rows| - 1]);
      var cells := FilledCells(rows[|rows| - 1]);
      if cells != [] {
        FilledCellsShape(rows[|rows| - 1]);
        JoinNonBlank(cells);
      }
    }
  }

  lemma JoinNonBlank(cells: seq<string>)
    requires cells != []
    requires Solid(cells[|cells| - 1])
    ensures Strip(Join(cells, " ")) != []
  {
    var j := Join(cells, " ");
    var last := cells[|cells| - 1];
    JoinEndsWithLast(cells, " ");
    assert j[|j| - 1] == last[|last| - 1];
    StripRemovesSpaces(j);
  }

  // ---------------------------------------------------------------------
  // Spreadsheets
  // ---------------------------------------------------------------------

  /** A sheet after missing cells have been filled with "" and every cell
      rendered as text. */
  datatype Sheet = Sheet(name: string, rows: seq<seq<string>>)

  /** A cell survives when it is not blank and its text is not "nan" in any
      case (the case test is on the unstripped text). */
  predicate KeepCell(x: string)
  {
    Strip(x) != [] && LowerStr(x) != "nan"
  }

  /** The stripped surviving cells of a row, in order. */
  function KeptCells(row: seq<string>): seq<string>
  {
    if row == [] then []
    else
      var init := KeptCells(row[..|row| - 1]);
      var x := row[|row| - 1];
      if KeepCell(x) then init + [Strip(x)] else init
  }

  function RowSegments(rows: seq<seq<string>>): seq<string>
  {
    if rows == [] then []
    else
      var init := RowSegments(rows[..|rows| - 1]);
      var vals := KeptCells(rows[|rows| - 1]);
      if vals != [] then init + [Join(vals, " ")] else init
  }

  function Marker(s: Sheet): string
  {
    "Sheet: " + s.name
  }

  /** The segments of sheets `sheets`, `many` saying whether the workbook
      has more than one sheet (and so gets a marker before each). */
  function SheetSegments(sheets: seq<Sheet>, many: bool): seq<string>
  {
    if sheets == [] then []
    else
      var s := sheets[|sheets| - 1];
      SheetSegments(sheets[..|sheets| - 1], many) + (if many then [Marker(s)] else []) + RowSegments(s.rows)
  }

  /** The title: the only surviving cell of the first row of the first
      sheet, or "" when that row keeps none or several. */
  function ExcelTitle(sheets: seq<Sheet>): string
  {
    if sheets == [] || sheets[0].rows == [] then ""
    else
      var row0 := KeptCells(sheets[0].rows[0]);
      if |row0| == 1 then row0[0] else ""
  }

  lemma RowSegmentsSnoc(rows: seq<seq<string>>, j: nat)
    requires j < |rows|
    ensures RowSegments(rows[..j + 1]) == RowSegments(rows[..j]) +
      (if KeptCells(rows[j]) != [] then [Join(KeptCells(rows[j]), " ")] else [])
  {
    assert rows[..j + 1][..j] == rows[..j];
  }

  method AppendRows(segments: seq<string>, rows: seq<seq<string>>) returns (r: seq<string>)
    ensures r == segments + RowSegments(rows)
  {
    r := segments;
    var j := 0;
    while j < |rows|
      invariant 0 <= j <= |rows|
      invariant r == segments + RowSegments(rows[..j])
    {
      var vals := KeptCells(rows[j]);
      RowSegmentsSnoc(rows, j);
      ExtendDone(segments, RowSegments(rows[..j]), r,
                 if vals != [] then [Join(vals, " ")] else [], RowSegments(rows[..j + 1]));
      if vals != [] {
        r := r + [Join(vals, " ")];
      }
      j := j + 1;
    }
    assert rows[..j] == rows;
  }

  function ExcelOutput(sheets: seq<Sheet>): (seq<string>, string)
  {
    (SheetSegments(sheets, |sheets| > 1), ExcelTitle(sheets))
  }

  /** The spreadsheet handler after the library has read the workbook. */
  method ProcessExcel(sheets: seq<Sheet>) returns (segments: seq<string>, title: string)
    ensures (segments, title) == ExcelOutput(sheets)
  {
    segments, title := [], "";
    var i := 0;
    while i < |sheets|
      invariant 0 <= i <= |sheets|
      invariant segments == SheetSegments(sheets[..i], |sheets| > 1)
      invariant title == (if i == 0 then "" else ExcelTitle(sheets))
    {
      assert sheets[..i + 1][..i] == sheets[..i];
      var sheet := sheets[i];
      if i == 0 && title == "" && sheet.rows != [] {
        var row0 := KeptCells(sheet.rows[0]);
        if |row0| == 1 {
          title := row0[0];
        }
      }
      if |sheets| > 1 {
        segments := segments + ["Sheet: " + sheet.name];
      }
      segments := AppendRows(segments, sheet.rows);
      i := i + 1;
    }
    assert sheets[..i] == sheets;
  }

  function CountFilled(rows: seq<seq<string>>): nat
  {
    if rows == [] then 0
    else CountFilled(rows[..|rows| - 1]) + (if KeptCells(rows[|rows| - 1]) != [] then 1 else 0)
  }

  function TotalFilled(sheets: seq<Sheet>): nat
  {
    if sheets == [] then 0 else TotalFilled(sheets[..|sheets| - 1]) + CountFilled(sheets[|sheets| - 1].rows)
  }

  lemma {:induction false} RowSegmentsCount(rows: seq<seq<string>>)
    ensures |RowSegments(rows)| == CountFilled(rows)
    decreases |rows|
  {
    if rows != [] {
      RowSegmentsCount(rows[..|rows| - 1]);
    }
  }

  /** One segment per row with a surviving cell, plus one marker per sheet
      exactly when there is more than one sheet. */
  lemma {:induction false} ExcelSegmentCount(sheets: seq<Sheet>, many: bool)
    ensures |SheetSegments(sheets, many)| == (if many then |sheets| else 0) + TotalFilled(sheets)
    decreases |sheets|
  {
    if sheets != [] {
      ExcelSegmentCount(sheets[..|sheets| - 1], many);
      RowSegmentsCount(sheets[|sheets| - 1].rows);
    }
  }

  /** The surviving cells are exactly the stripped forms of the kept cells,
      so none is blank and none reads "nan". */
  lemma {:induction false} KeptCellsSound(row: seq<string>)
    ensures forall c :: c in KeptCells(row) ==>
      exists x :: x in row && KeepCell(x) && c == Strip(x)
    ensures forall x :: x in row && KeepCell(x) ==> Strip(x) in KeptCells(row)
    decreases |row|
  {
    if row != [] {
      var init, last := row[..|row| - 1], row[|row| - 1];
      KeptCellsSound(init);
      assert row == init + [last];
      assert KeptCells(row) == KeptCells(init) + (if KeepCell(last) then [Strip(last)] else []);
      KeptCellsFrom(row, init, last);
      KeptCellsAll(row, init, last);
    }
  }

  /** The first half of the step of `KeptCellsSound`. */
  lemma KeptCellsFrom(row: seq<string>, init: seq<string>, last: string)
    requires row == init + [last]
    requires KeptCells(row) == KeptCells(init) + (if KeepCell(last) then [Strip(last)] else [])
    requires forall c :: c in KeptCells(init) ==> exists x :: x in init && KeepCell(x) && c == Strip(x)
    ensures forall c :: c in KeptCells(row) ==> exists x :: x in row && KeepCell(x) && c == Strip(x)
  {
    forall c | c in KeptCells(row)
      ensures exists x :: x in row && KeepCell(x) && c == Strip(x)
    {
      if c in KeptCells(init) {
        var x :| x in init && KeepCell(x) && c == Strip(x);
        assert x in row;
      } else {
        assert last in row;
      }
    }
  }

  /** The second half of the step of `KeptCellsSound`. */
  lemma KeptCellsAll(row: seq<string>, init: seq<string>, last: string)
    requires row == init + [last]
    requires KeptCells(row) == KeptCells(init) + (if KeepCell(last) then [Strip(last)] else [])
    requires forall x :: x in init && KeepCell(x) ==> Strip(x) in KeptCells(init)
    ensures forall x :: x in row && KeepCell(x) ==> Strip(x) in KeptCells(row)
  {
    forall x | x in row && KeepCell(x)
      ensures Strip(x) in KeptCells(row)
    {
      if x in init {
        assert Strip(x) in KeptCells(init);
      } else {
        assert x == last;
      }
    }
  }

  /** A workbook title is the only surviving cell of the first row of the
      first sheet, and is then also that sheet's first row segment. */
  lemma ExcelTitleShape(sheets: seq<Sheet>)
    ensures ExcelTitle(sheets) != "" ==>
      sheets != [] && sheets[0].rows != [] && KeptCells(sheets[0].rows[0]) == [ExcelTitle(sheets)] &&
      RowSegments(sheets[0].rows) != [] && RowSegments(sheets[0].rows)[0] == ExcelTitle(sheets)
  {
    if ExcelTitle(sheets) != "" {
      RowSegmentsFirst(sheets[0].rows);
    }
  }

  lemma {:induction false} RowSegmentsFirst(rows: seq<seq<string>>)
    requires rows != [] && KeptCells(rows[0]) != []
    ensures RowSegments(rows) != [] && RowSegments(rows)[0] == Join(KeptCells(rows[0]), " ")
    decreases |rows|
  {
    if |rows| > 1 {
      var init := rows[..|rows| - 1];
      assert init[0] == rows[0];
      RowSegmentsFirst(init);
    }
  }

  // ---------------------------------------------------------------------
  // Plain text and legacy Word
  // ---------------------------------------------------------------------

  /** The first line that is not blank, stripped; "" when every line is. */
  function FirstNonBlank(lines: seq<string>): string
    decreases |lines|
  {
    if lines == [] then ""
    else if Strip(lines[0]) != [] then Strip(lines[0])
    else FirstNonBlank(lines[1..])
  }

  method FirstLineTitle(lines: seq<string>) returns (title: string)
    ensures title == FirstNonBlank(lines)
  {
    title := "";
    var i := 0;
    while i < |lines|
      invariant 0 <= i <= |lines|
      invariant FirstNonBlank(lines[i..]) == FirstNonBlank(lines)
    {
      assert lines[i..][0] == lines[i];
      assert lines[i..][1..] == lines[i + 1..];
      var clean := Strip(lines[i]);
      if clean != [] {
        title := clean;
        return;
      }
      i := i + 1;
    }
  }

  /** The title is "" exactly when every line is blank. */
  lemma {:induction false} FirstNonBlankEmpty(lines: seq<string>)
    ensures FirstNonBlank(lines) == "" <==> forall i :: 0 <= i < |lines| ==> Strip(lines[i]) == []
    decreases |lines|
  {
    if lines != [] {
      FirstNonBlankEmpty(lines[1..]);
      assert forall i :: 1 <= i < |lines| ==> lines[i] == lines[1..][i - 1];
    }
  }

  /** A non-empty title is the stripped text of a line that every earlier
      line, being blank, precedes. */
  lemma {:induction false} FirstNonBlankIsFirst(lines: seq<string>)
    ensures FirstNonBlank(lines) != "" ==>
      exists k :: 0 <= k < |lines| && FirstNonBlank(lines) == Strip(lines[k]) &&
        forall i :: 0 <= i < k ==> Strip(lines[i]) == []
    decreases |lines|
  {
    if lines != [] && Strip(lines[0]) == [] {
      var tail := lines[1..];
      FirstNonBlankIsFirst(tail);
      if FirstNonBlank(tail) != "" {
        var k :| 0 <= k < |tail| && FirstNonBlank(tail) == Strip(tail[k]) &&
          forall i :: 0 <= i < k ==> Strip(tail[i]) == [];
        assert lines[k + 1] == tail[k];
        forall i | 0 <= i < k + 1
          ensures Strip(lines[i]) == []
        {
          if i > 0 {
            assert lines[i] == tail[i - 1];
          }
        }
      }
    }
  }

  /** The lines of a text and the first non-blank one as title. */
  function LinesOutput(text: string): (seq<string>, string)
  {
    (SplitLines(text), FirstNonBlank(SplitLines(text)))
  }

  /** What the text handler returns for the decoded content ("" when the
      file is empty or none of the tried encodings could decode it). */
  function TextOutput(content: string): Result<(seq<string>, string), ParseError>
  {
    if content == [] then Err(EmptyText) else Ok(LinesOutput(content))
  }

  method ProcessTxt(content: string) returns (r: Result<(seq<string>, string), ParseError>)
    ensures r == TextOutput(content)
  {
    if content == [] {
      return Err(EmptyText);
    }
    var lines := SplitLines(content);
    var title := FirstLineTitle(lines);
    return Ok((lines, title));
  }

  /** What the legacy-Word handler returns for the converter's exit code
      and output: a failure unless it exited with 0 and printed something. */
  function DocOutput(returnCode: int, stdout: string): Result<(seq<string>, string), ParseError>
  {
    if returnCode == 0 && stdout != [] then Ok(LinesOutput(stdout)) else Err(AntiwordFailed(returnCode))
  }

  method ProcessDoc(returnCode: int, stdout: string) returns (r: Result<(seq<string>, string), ParseError>)
    ensures r == DocOutput(returnCode, stdout)
  {
    if returnCode == 0 && stdout != [] {
      var lines := SplitLines(stdout);
      var title := FirstLineTitle(lines);
      return Ok((lines, title));
    }
    return Err(AntiwordFailed(returnCode));
  }
}
