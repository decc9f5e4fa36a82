/** The structural index of a Word document built by
    app/src/JBGDocumentStructureExtractor.py: the ordered list of text
    elements with their `element_id`s (`_extract_docx_texts`), the textbox and
    footnote collectors that feed it, the id-to-object map the editor looks
    elements up in (`_extract_docx_elements`), and the line numbering of the
    PDF branch.

    python-docx is not part of this model: a document is given as what the
    extractor reads from it (`Docx`): each paragraph's `.text` together with
    its XML element, the cell texts of every table row, the paragraph texts of
    the first section's header and footer (absent when the object has no
    `paragraphs` attribute), the `word/footnotes.xml` part, and whether the
    body has a section at all (a `w:sectPr`), without which
    `doc.sections[0]` raises IndexError. */
module StructureIndex {
  import opened Wrappers
  import opened Text
  import opened Xml
  import TI = TrackedInserter

  // ---------------------------------------------------------------------------
  // element ids

  /** The numbered families of elements; table cells are numbered by three
      indexes instead. */
  datatype Series = Paragraphs | Headers | Footers | Textboxes | Footnotes

  /** Which unit of the document an element is: the n-th of a series, or the
      cell at (table, row, column); every index counts from 1. */
  datatype Key = Nth(series: Series, n: nat) | Cell(table: nat, row: nat, col: nat)

  function Prefix(s: Series): string {
    match s
    case Paragraphs => "paragraph_"
    case Headers => "header_"
    case Footers => "footer_"
    case Textboxes => "textbox_"
    case Footnotes => "footnote_"
  }

  /** The `element_id` string of a key: `paragraph_3`, `table_1_cell_2_4`, ... */
  function Render(k: Key): string {
    match k
    case Nth(s, n) => Prefix(s) + Decimal(n)
    case Cell(t, r, c) => "table_" + (Decimal(t) + ("_cell_" + (Decimal(r) + ("_" + Decimal(c)))))
  }

  /** The characters at positions 0, 1 and 4 of an id, which tell the
      families apart (`paragraph_`, `header_`, `footer_`, `textbox_`,
      `footnote_`, `table_`). */
  function Sig(k: Key): (char, char, char) {
    match k
    case Nth(Paragraphs, _) => ('p', 'a', 'g')
    case Nth(Headers, _) => ('h', 'e', 'e')
    case Nth(Footers, _) => ('f', 'o', 'e')
    case Nth(Textboxes, _) => ('t', 'e', 'b')
    case Nth(Footnotes, _) => ('f', 'o', 'n')
    case Cell(_, _, _) => ('t', 'a', 'e')
  }

  lemma SigOfRender(k: Key)
    ensures |Render(k)| > 4 && (Render(k)[0], Render(k)[1], Render(k)[4]) == Sig(k)
  {
  }

  /** The position of the first character that is not a digit. */
  function DigitRun(s: string): (r: nat)
    ensures r <= |s|
  {
    if s == [] || !IsDigit(s[0]) then 0 else 1 + DigitRun(s[1..])
  }

  lemma {:induction false} DigitRunOfNumeral(p: string, x: string)
    requires AllDigits(p) && x != [] && !IsDigit(x[0])
    ensures DigitRun(p + x) == |p|
    decreases |p|
  {
    if p == [] {
      assert p + x == x;
    } else {
      assert (p + x)[0] == p[0];
      assert (p + x)[1..] == p[1..] + x;
      DigitRunOfNumeral(p[1..], x);
    }
  }

  /** A run of digits ends where the next non-digit begins, so a numeral
      followed by a separator splits in one way only. */
  lemma DigitsThenSeparator(p: string, x: string, q: string, y: string)
    requires AllDigits(p) && AllDigits(q)
    requires x != [] && !IsDigit(x[0]) && y != [] && !IsDigit(y[0])
    requires p + x == q + y
    ensures p == q && x == y
  {
    DigitRunOfNumeral(p, x);
    DigitRunOfNumeral(q, y);
    assert |p| == |q|;
    assert p == (p + x)[..|p|] && q == (q + y)[..|q|];
    assert x == (p + x)[|p|..] && y == (q + y)[|q|..];
  }

  lemma CellInjective(t: nat, r: nat, c: nat, t': nat, r': nat, c': nat)
    requires Render(Cell(t, r, c)) == Render(Cell(t', r', c'))
    ensures t == t' && r == r' && c == c'
  {
    var u := Decimal(t) + ("_cell_" + (Decimal(r) + ("_" + Decimal(c))));
    var v := Decimal(t') + ("_cell_" + (Decimal(r') + ("_" + Decimal(c'))));
    assert u == ("table_" + u)[6..] && v == ("table_" + v)[6..];
    DigitsThenSeparator(Decimal(t), "_cell_" + (Decimal(r) + ("_" + Decimal(c))),
                        Decimal(t'), "_cell_" + (Decimal(r') + ("_" + Decimal(c'))));
    DecimalInjective(t, t');
    var u2 := Decimal(r) + ("_" + Decimal(c));
    var v2 := Decimal(r') + ("_" + Decimal(c'));
    assert u2 == ("_cell_" + u2)[6..] && v2 == ("_cell_" + v2)[6..];
    DigitsThenSeparator(Decimal(r), "_" + Decimal(c), Decimal(r'), "_" + Decimal(c'));
    DecimalInjective(r, r');
    assert Decimal(c) == ("_" + Decimal(c))[1..] && Decimal(c') == ("_" + Decimal(c'))[1..];
    DecimalInjective(c, c');
  }

  /** Different units get different `element_id`s. */
  lemma RenderInjective(a: Key, b: Key)
    ensures Render(a) == Render(b) <==> a == b
  {
    if Render(a) == Render(b) {
      SameRender(a, b);
    }
  }

  lemma SameRender(a: Key, b: Key)
    requires Render(a) == Render(b)
    ensures a == b
  {
    SigOfRender(a);
    SigOfRender(b);
    match a
    case Nth(s, n) =>
      match b {
      case Nth(s', n') =>
        assert s == s';
        var p := Prefix(s);
        assert Decimal(n) == (p + Decimal(n))[|p|..] && Decimal(n') == (p + Decimal(n'))[|p|..];
        DecimalInjective(n, n');
      case Cell(_, _, _) =>
        assert false;
      }
    case Cell(t, r, c) =>
      match b {
      case Nth(_, _) =>
        assert false;
      case Cell(t', r', c') =>
        CellInjective(t, r, c, t', r', c');
      }
  }

  // ---------------------------------------------------------------------------
  // elements

  /** The element's `type`; a footnote also carries its `w:id` attribute
      (`footnote_id`, JSON null when the attribute is missing). */
  datatype Kind = Paragraph | TableCell | Header | Footer | Textbox | Footnote(xmlId: Option<string>)

  /** One entry of `structure["elements"]`. */
  datatype Element = Element(kind: Kind, key: Key, text: string, empty: bool)

  /** The entry for one text unit: its text stripped, `empty` exactly when
      the unit holds only whitespace. */
  function Entry(kind: Kind, key: Key, raw: string): (e: Element)
    ensures e.kind == kind && e.key == key
    ensures e.text == Strip(raw) && Strip(e.text) == e.text
    ensures e.empty <==> e.text == ""
    ensures e.empty <==> AllSpace(raw)
  {
    StripEmptyIff(raw);
    StripIdempotent(raw);
    Element(kind, key, Strip(raw), Strip(raw) == "")
  }

  /** A series numbered 1, 2, ... in the order of its texts. */
  function Listed(kind: Kind, series: Series, texts: seq<string>): seq<Element> {
    seq(|texts|, i requires 0 <= i < |texts| => Entry(kind, Nth(series, i + 1), texts[i]))
  }

  /** The cells of one row of table `t`: `table_t_cell_r_c` for c = 1, 2, ... */
  function RowCells(t: nat, r: nat, cells: seq<string>): seq<Element> {
    seq(|cells|, c requires 0 <= c < |cells| => Entry(TableCell, Cell(t, r, c + 1), cells[c]))
  }

  /** The cells of table `t`, row by row. */
  function TableCells(t: nat, rows: seq<seq<string>>): seq<Element> {
    if rows == [] then []
    else TableCells(t, rows[..|rows| - 1]) + RowCells(t, |rows|, rows[|rows| - 1])
  }

  /** The cells of every table, table by table. */
  function AllCells(tables: seq<seq<seq<string>>>): seq<Element> {
    if tables == [] then []
    else AllCells(tables[..|tables| - 1]) + TableCells(|tables|, tables[|tables| - 1])
  }

  // ---------------------------------------------------------------------------
  // textboxes: `_extract_textbox_texts_from_paragraph`

  /** `[t.text for t in ts if t.text]`. */
  function PresentTexts(ts: seq<Node>): seq<string> {
    if ts == [] then []
    else
      var t := ts[|ts| - 1];
      PresentTexts(ts[..|ts| - 1]) + (if t.text.Some? && t.text.value != "" then [t.text.value] else [])
  }

  /** The text of a drawing: its non-empty `w:t` texts joined by single spaces. */
  function DrawingText(d: Node): string {
    Join(PresentTexts(IterKids(d.kids, "w:t")), " ")
  }

  /** The texts of the drawings that have any. */
  function Boxes(ds: seq<Node>): seq<string> {
    if ds == [] then []
    else
      var s := DrawingText(ds[|ds| - 1]);
      Boxes(ds[..|ds| - 1]) + (if s != "" then [s] else [])
  }

  /** The textbox texts of one paragraph, in document order of its drawings. */
  function TextboxTexts(para: Node): seq<string> {
    Boxes(IterKids(para.kids, "w:drawing"))
  }

  lemma {:induction false} PresentTextsNonEmpty(ts: seq<Node>)
    ensures forall i :: 0 <= i < |PresentTexts(ts)| ==> PresentTexts(ts)[i] != ""
    ensures PresentTexts(ts) == [] <==> forall k :: 0 <= k < |ts| ==> ts[k].text.GetOr("") == ""
  {
    if ts != [] {
      PresentTextsNonEmpty(ts[..|ts| - 1]);
      assert forall k :: 0 <= k < |ts| - 1 ==> ts[..|ts| - 1][k] == ts[k];
    }
  }

  lemma {:induction false} JoinEmptyIff(parts: seq<string>, sep: string)
    requires forall i :: 0 <= i < |parts| ==> parts[i] != ""
    ensures Join(parts, sep) == "" <==> parts == []
  {
    if |parts| > 1 {
      assert |Join(parts, sep)| >= |parts[0]|;
    }
  }

  /** A drawing contributes text exactly when one of its `w:t` elements has
      a non-empty text. */
  lemma DrawingTextEmptyIff(d: Node)
    ensures DrawingText(d) == "" <==>
      forall k :: 0 <= k < |IterKids(d.kids, "w:t")| ==> IterKids(d.kids, "w:t")[k].text.GetOr("") == ""
  {
    var ts := IterKids(d.kids, "w:t");
    assert DrawingText(d) == Join(PresentTexts(ts), " ");
    PresentTextsNonEmpty(ts);
    JoinEmptyIff(PresentTexts(ts), " ");
  }

  /** `s` is the text of one of the drawings `ds`. */
  predicate FromDrawing(ds: seq<Node>, s: string) {
    exists k :: 0 <= k < |ds| && s == DrawingText(ds[k])
  }

  lemma {:induction false} BoxesShape(ds: seq<Node>)
    ensures |Boxes(ds)| <= |ds|
    ensures forall i :: 0 <= i < |Boxes(ds)| ==> Boxes(ds)[i] != ""
    ensures Boxes(ds) == [] <==> forall k :: 0 <= k < |ds| ==> DrawingText(ds[k]) == ""
  {
    if ds != [] {
      var init := ds[..|ds| - 1];
      BoxesShape(init);
      assert forall k :: 0 <= k < |init| ==> init[k] == ds[k];
    }
  }

  lemma {:induction false} BoxesFromDrawings(ds: seq<Node>)
    ensures forall i :: 0 <= i < |Boxes(ds)| ==> FromDrawing(ds, Boxes(ds)[i])
  {
    if ds != [] {
      var init := ds[..|ds| - 1];
      BoxesFromDrawings(init);
      var s := DrawingText(ds[|ds| - 1]);
      assert Boxes(ds) == Boxes(init) + (if s != "" then [s] else []);
      forall i | 0 <= i < |Boxes(ds)| ensures FromDrawing(ds, Boxes(ds)[i]) {
        if i < |Boxes(init)| {
          assert Boxes(ds)[i] == Boxes(init)[i] && FromDrawing(init, Boxes(init)[i]);
          var k :| 0 <= k < |init| && Boxes(init)[i] == DrawingText(init[k]);
          assert init[k] == ds[k];
        } else {
          assert Boxes(ds)[i] == DrawingText(ds[|ds| - 1]);
        }
      }
    }
  }

  /** Every collected textbox text is the non-empty text of a drawing, at
      most one per drawing, and textless drawings yield nothing. */
  lemma BoxesSpec(ds: seq<Node>)
    ensures |Boxes(ds)| <= |ds|
    ensures forall i :: 0 <= i < |Boxes(ds)| ==> Boxes(ds)[i] != ""
    ensures forall i :: 0 <= i < |Boxes(ds)| ==> FromDrawing(ds, Boxes(ds)[i])
    ensures Boxes(ds) == [] <==> forall k :: 0 <= k < |ds| ==> DrawingText(ds[k]) == ""
  {
    BoxesShape(ds);
    BoxesFromDrawings(ds);
  }

  /** `_extract_textbox_texts_from_paragraph`: one text per drawing below the
      paragraph that has any. */
  method ExtractTextboxTexts(para: Node) returns (texts: seq<string>)
    ensures texts == TextboxTexts(para)
  {
    var drawings := IterKids(para.kids, "w:drawing");
    texts := [];
    var k := 0;
    while k < |drawings|
      invariant 0 <= k <= |drawings|
      invariant texts == Boxes(drawings[..k])
    {
      var fullText := DrawingText(drawings[k]);
      if fullText != "" {
        texts := texts + [fullText];
      }
      assert drawings[..k + 1][..k] == drawings[..k];
      k := k + 1;
    }
    assert drawings[..k] == drawings;
  }

  /** `_extract_textboxes_from_paragraph`: the drawings themselves, under
      the same test. */
  function BoxDrawings(ds: seq<Node>): seq<Node> {
    if ds == [] then []
    else
      var d := ds[|ds| - 1];
      BoxDrawings(ds[..|ds| - 1]) + (if DrawingText(d) != "" then [d] else [])
  }

  /** The map's textbox objects and the listed textbox texts correspond one
      to one, in order. */
  lemma {:induction false} BoxDrawingsMatchBoxes(ds: seq<Node>)
    ensures |BoxDrawings(ds)| == |Boxes(ds)|
    ensures forall i :: 0 <= i < |Boxes(ds)| ==> Boxes(ds)[i] == DrawingText(BoxDrawings(ds)[i])
  {
    if ds != [] {
      BoxDrawingsMatchBoxes(ds[..|ds| - 1]);
    }
  }

  // ---------------------------------------------------------------------------
  // footnotes: `_extract_footnote_texts`

  /** The entry one `w:footnote` yields: none for the separator ids "-1" and
      "0" or for a footnote without visible text; otherwise its concatenated
      `w:t` text, stripped, with its id. */
  function Note(f: Node): Option<(string, Option<string>)> {
    var id := Attr(f, "w:id");
    if id == Some("-1") || id == Some("0") then None
    else
      var s := Strip(TI.Texts(IterKids(f.kids, "w:t")));
      if s == "" then None else Some((s, id))
  }

  function Kept(fs: seq<Node>): seq<(string, Option<string>)> {
    if fs == [] then []
    else
      var n := Note(fs[|fs| - 1]);
      Kept(fs[..|fs| - 1]) + (if n.Some? then [n.value] else [])
  }

  /** The footnote entries of the `word/footnotes.xml` part: nothing when the
      part is missing, or when it does not parse (the exception is logged and
      the empty list returned); otherwise one per direct `w:footnote` child. */
  function FootnoteTexts(v: View): seq<(string, Option<string>)> {
    match v
    case Present(root) => Kept(ChildrenWith(root.kids, "w:footnote"))
    case _ => []
  }

  /** Some footnote of `fs` yields the entry `e`. */
  predicate NoteOf(fs: seq<Node>, e: (string, Option<string>)) {
    exists k :: 0 <= k < |fs| && Note(fs[k]) == Some(e)
  }

  /** A kept entry: non-blank, stripped text and a non-separator id. */
  predicate CleanNote(e: (string, Option<string>)) {
    e.0 != "" && Strip(e.0) == e.0 && e.1 != Some("-1") && e.1 != Some("0")
  }

  lemma {:induction false} KeptShape(fs: seq<Node>)
    ensures |Kept(fs)| <= |fs|
    ensures forall i :: 0 <= i < |Kept(fs)| ==> CleanNote(Kept(fs)[i])
  {
    if fs != [] {
      var init := fs[..|fs| - 1];
      var f := fs[|fs| - 1];
      KeptShape(init);
      var n := Note(f);
      assert Kept(fs) == Kept(init) + (if n.Some? then [n.value] else []);
      if n.Some? {
        StripIdempotent(TI.Texts(IterKids(f.kids, "w:t")));
        assert CleanNote(n.value);
      }
    }
  }

  lemma {:induction false} KeptMembership(fs: seq<Node>)
    ensures forall e :: e in Kept(fs) <==> NoteOf(fs, e)
  {
    if fs != [] {
      var init := fs[..|fs| - 1];
      var f := fs[|fs| - 1];
      KeptMembership(init);
      var n := Note(f);
      assert Kept(fs) == Kept(init) + (if n.Some? then [n.value] else []);
      forall e | e in Kept(init) ensures NoteOf(fs, e) {
        var k :| 0 <= k < |init| && Note(init[k]) == Some(e);
        assert fs[k] == init[k];
      }
      forall e | NoteOf(fs, e) ensures e in Kept(fs) {
        var k :| 0 <= k < |fs| && Note(fs[k]) == Some(e);
        if k < |init| {
          assert init[k] == fs[k];
          assert NoteOf(init, e);
        }
      }
    }
  }

  /** Every kept entry has non-blank, stripped text and a non-separator id;
      an entry is kept exactly when some footnote yields it. */
  lemma KeptSpec(fs: seq<Node>)
    ensures |Kept(fs)| <= |fs|
    ensures forall i :: 0 <= i < |Kept(fs)| ==> CleanNote(Kept(fs)[i])
    ensures forall e :: e in Kept(fs) <==> NoteOf(fs, e)
  {
    KeptShape(fs);
    KeptMembership(fs);
  }

  /** `_extract_footnote_texts`. */
  method ExtractFootnoteTexts(v: View) returns (notes: seq<(string, Option<string>)>)
    ensures notes == FootnoteTexts(v)
  {
    notes := [];
    if !v.Present? {
      return;
    }
    var fs := ChildrenWith(v.root.kids, "w:footnote");
    var k := 0;
    while k < |fs|
      invariant 0 <= k <= |fs|
      invariant notes == Kept(fs[..k])
    {
      var footnote := fs[k];
      var id := Attr(footnote, "w:id");
      assert fs[..k + 1][..k] == fs[..k];
      if id == Some("-1") || id == Some("0") {
        k := k + 1;
        continue;
      }
      var fullText := TI.Texts(IterKids(footnote.kids, "w:t"));
      if Strip(fullText) != "" {
        notes := notes + [(Strip(fullText), id)];
      }
      k := k + 1;
    }
    assert fs[..k] == fs;
  }

  /** The footnote elements: `footnote_1`, `footnote_2`, ... over the kept
      entries, each with its xml id. */
  function Notes(ns: seq<(string, Option<string>)>): seq<Element> {
    seq(|ns|, i requires 0 <= i < |ns| => Element(Footnote(ns[i].1), Nth(Footnotes, i + 1), ns[i].0, ns[i].0 == ""))
  }

  // ---------------------------------------------------------------------------
  // `_extract_docx_texts`

  /** A body paragraph: python-docx's `.text` and its XML element. */
  datatype Para = Para(text: string, xml: Node)

  /** What the extractor reads from a document (see the module comment). */
  datatype Docx = Docx(paragraphs: seq<Para>, tables: seq<seq<seq<string>>>,
                       header: Option<seq<string>>, footer: Option<seq<string>>,
                       footnotes: View, sectioned: bool)

  function ParaTexts(ps: seq<Para>): seq<string> {
    seq(|ps|, i requires 0 <= i < |ps| => ps[i].text)
  }

  /** The textbox texts of all paragraphs, paragraph by paragraph. */
  function AllBoxes(ps: seq<Para>): seq<string> {
    if ps == [] then [] else AllBoxes(ps[..|ps| - 1]) + TextboxTexts(ps[|ps| - 1].xml)
  }

  /** `structure["elements"]`: paragraphs, table cells, header paragraphs,
      footer paragraphs, textboxes, footnotes. */
  function Structure(doc: Docx): seq<Element> {
    Listed(Paragraph, Paragraphs, ParaTexts(doc.paragraphs))
    + AllCells(doc.tables)
    + Listed(Header, Headers, doc.header.GetOr([]))
    + Listed(Footer, Footers, doc.footer.GetOr([]))
    + Listed(Textbox, Textboxes, AllBoxes(doc.paragraphs))
    + Notes(FootnoteTexts(doc.footnotes))
  }

  lemma ListedSnoc(kind: Kind, series: Series, texts: seq<string>, t: string)
    ensures Listed(kind, series, texts + [t]) == Listed(kind, series, texts) + [Entry(kind, Nth(series, |texts| + 1), t)]
  {
  }

  /** The loop shared by the paragraph, header and footer passes. */
  method AppendListed(es: seq<Element>, kind: Kind, series: Series, texts: seq<string>) returns (r: seq<Element>)
    ensures r == es + Listed(kind, series, texts)
  {
    r := es;
    var i := 0;
    while i < |texts|
      invariant 0 <= i <= |texts|
      invariant r == es + Listed(kind, series, texts[..i])
    {
      ListedSnoc(kind, series, texts[..i], texts[i]);
      assert texts[..i + 1] == texts[..i] + [texts[i]];
      r := r + [Entry(kind, Nth(series, i + 1), texts[i])];
      i := i + 1;
    }
    assert texts[..i] == texts;
  }

  /** The cell loop of the table pass, for row `row` of table `t`. */
  method AppendRow(es: seq<Element>, t: nat, row: nat, cells: seq<string>) returns (r: seq<Element>)
    ensures r == es + RowCells(t, row, cells)
  {
    r := es;
    var ci := 0;
    while ci < |cells|
      invariant 0 <= ci <= |cells|
      invariant r == es + RowCells(t, row, cells[..ci])
    {
      r := r + [Entry(TableCell, Cell(t, row, ci + 1), cells[ci])];
      ci := ci + 1;
    }
    assert cells[..ci] == cells;
  }

  /** The row loop of the table pass, for table `t`. */
  method AppendTable(es: seq<Element>, t: nat, rows: seq<seq<string>>) returns (r: seq<Element>)
    ensures r == es + TableCells(t, rows)
  {
    r := es;
    var ri := 0;
    while ri < |rows|
      invariant 0 <= ri <= |rows|
      invariant r == es + TableCells(t, rows[..ri])
    {
      ghost var done := TableCells(t, rows[..ri]);
      ghost var more := RowCells(t, ri + 1, rows[ri]);
      r := AppendRow(r, t, ri + 1, rows[ri]);
      assert rows[..ri + 1][..ri] == rows[..ri];
      assert TableCells(t, rows[..ri + 1]) == done + more;
      assert (es + done) + more == es + (done + more);
      ri := ri + 1;
    }
    assert rows[..ri] == rows;
  }

  /** The table pass: table by table, row by row, cell by cell. */
  method AppendCells(es: seq<Element>, tables: seq<seq<seq<string>>>) returns (r: seq<Element>)
    ensures r == es + AllCells(tables)
  {
    r := es;
    var ti := 0;
    while ti < |tables|
      invariant 0 <= ti <= |tables|
      invariant r == es + AllCells(tables[..ti])
    {
      ghost var done := AllCells(tables[..ti]);
      ghost var more := TableCells(ti + 1, tables[ti]);
      r := AppendTable(r, ti + 1, tables[ti]);
      assert tables[..ti + 1][..ti] == tables[..ti];
      assert AllCells(tables[..ti + 1]) == done + more;
      assert (es + done) + more == es + (done + more);
      ti := ti + 1;
    }
    assert tables[..ti] == tables;
  }

  /** The inner loop of the textbox pass: the texts of one paragraph,
      numbered on from the counter shared by all paragraphs. */
  method AppendBoxes(r0: seq<Element>, ghost es: seq<Element>, ghost before: seq<string>, texts: seq<string>, counter0: nat)
    returns (r: seq<Element>, counter: nat)
    requires r0 == es + Listed(Textbox, Textboxes, before) && counter0 == |before| + 1
    ensures r == es + Listed(Textbox, Textboxes, before + texts) && counter == |before| + |texts| + 1
  {
    r := r0;
    counter := counter0;
    var j := 0;
    while j < |texts|
      invariant 0 <= j <= |texts|
      invariant counter == |before| + j + 1
      invariant r == es + Listed(Textbox, Textboxes, before + texts[..j])
    {
      ListedSnoc(Textbox, Textboxes, before + texts[..j], texts[j]);
      assert before + texts[..j + 1] == before + texts[..j] + [texts[j]];
      r := r + [Entry(Textbox, Nth(Textboxes, counter), texts[j])];
      counter := counter + 1;
      j := j + 1;
    }
    assert texts[..j] == texts;
  }

  /** The textbox pass: one counter across all paragraphs. */
  method AppendTextboxes(es: seq<Element>, ps: seq<Para>) returns (r: seq<Element>)
    ensures r == es + Listed(Textbox, Textboxes, AllBoxes(ps))
  {
    r := es;
    var counter := 1;
    var k := 0;
    while k < |ps|
      invariant 0 <= k <= |ps|
      invariant counter == |AllBoxes(ps[..k])| + 1
      invariant r == es + Listed(Textbox, Textboxes, AllBoxes(ps[..k]))
    {
      var texts := ExtractTextboxTexts(ps[k].xml);
      r, counter := AppendBoxes(r, es, AllBoxes(ps[..k]), texts, counter);
      assert ps[..k + 1][..k] == ps[..k];
      assert AllBoxes(ps[..k + 1]) == AllBoxes(ps[..k]) + texts;
      k := k + 1;
    }
    assert ps[..k] == ps;
  }

  /** The footnote pass, numbered over the kept footnotes. */
  method AppendNotes(es: seq<Element>, ns: seq<(string, Option<string>)>) returns (r: seq<Element>)
    ensures r == es + Notes(ns)
  {
    r := es;
    var i := 0;
    while i < |ns|
      invariant 0 <= i <= |ns|
      invariant r == es + Notes(ns[..i])
    {
      var (text, xmlId) := ns[i];
      r := r + [Element(Footnote(xmlId), Nth(Footnotes, i + 1), text, text == "")];
      i := i + 1;
    }
    assert ns[..i] == ns;
  }

  /** `_extract_docx_texts`: the element list, or the IndexError of
      `doc.sections[0]` when the body has no section, which discards the
      paragraphs and cells gathered before it. */
  method ExtractDocxTexts(doc: Docx) returns (r: Result<seq<Element>, MapError>)
    ensures r.Failure? <==> !doc.sectioned
    ensures r.Failure? ==> r.error == NoSection
    ensures r.Success? ==> r.value == Structure(doc)
  {
    ghost var p := Listed(Paragraph, Paragraphs, ParaTexts(doc.paragraphs));
    ghost var h := Listed(Header, Headers, doc.header.GetOr([]));
    ghost var f := Listed(Footer, Footers, doc.footer.GetOr([]));
    var elements := AppendListed([], Paragraph, Paragraphs, ParaTexts(doc.paragraphs));
    assert elements == p;
    elements := AppendCells(elements, doc.tables);
    if !doc.sectioned {
      return Failure(NoSection);
    }
    if doc.header.Some? {
      elements := AppendListed(elements, Header, Headers, doc.header.value);
    } else {
      assert h == [];
    }
    assert elements == p + AllCells(doc.tables) + h;
    if doc.footer.Some? {
      elements := AppendListed(elements, Footer, Footers, doc.footer.value);
    } else {
      assert f == [];
    }
    assert elements == p + AllCells(doc.tables) + h + f;
    elements := AppendTextboxes(elements, doc.paragraphs);
    var notes := ExtractFootnoteTexts(doc.footnotes);
    elements := AppendNotes(elements, notes);
    return Success(elements);
  }

  // ---------------------------------------------------------------------------
  // properties of the element list

  /** Which numbered series a key belongs to; `None` for a table cell. */
  function FamilyOf(k: Key): Option<Series> {
    if k.Nth? then Some(k.series) else None
  }

  /** No two elements are the same unit. */
  predicate Distinct(es: seq<Element>) {
    forall i, j :: 0 <= i < j < |es| ==> es[i].key != es[j].key
  }

  predicate InFamilies(es: seq<Element>, fams: set<Option<Series>>) {
    forall i :: 0 <= i < |es| ==> FamilyOf(es[i].key) in fams
  }

  lemma DistinctJoin(a: seq<Element>, b: seq<Element>, fa: set<Option<Series>>, fb: set<Option<Series>>)
    requires Distinct(a) && Distinct(b) && InFamilies(a, fa) && InFamilies(b, fb) && fa !! fb
    ensures Distinct(a + b) && InFamilies(a + b, fa + fb)
  {
    forall i, j | 0 <= i < j < |a + b| ensures (a + b)[i].key != (a + b)[j].key {
      if j < |a| {
        assert (a + b)[i] == a[i] && (a + b)[j] == a[j];
      } else if i < |a| {
        assert FamilyOf(a[i].key) in fa && FamilyOf(b[j - |a|].key) in fb;
      } else {
        assert (a + b)[i] == b[i - |a|] && (a + b)[j] == b[j - |a|];
      }
    }
  }

  lemma ListedDistinct(kind: Kind, series: Series, texts: seq<string>)
    ensures Distinct(Listed(kind, series, texts)) && InFamilies(Listed(kind, series, texts), {Some(series)})
  {
  }

  lemma NotesDistinct(ns: seq<(string, Option<string>)>)
    ensures Distinct(Notes(ns)) && InFamilies(Notes(ns), {Some(Footnotes)})
  {
  }

  /** The cells of table `t` are distinct cells of that table, in rows
      1 to |rows|. */
  lemma {:induction false} TableCellsDistinct(t: nat, rows: seq<seq<string>>)
    ensures Distinct(TableCells(t, rows))
    ensures forall i :: 0 <= i < |TableCells(t, rows)| ==>
      var k := TableCells(t, rows)[i].key; k.Cell? && k.table == t && 1 <= k.row <= |rows|
  {
    if rows != [] {
      var a: seq<Element> := TableCells(t, rows[..|rows| - 1]);
      var b: seq<Element> := RowCells(t, |rows|, rows[|rows| - 1]);
      TableCellsDistinct(t, rows[..|rows| - 1]);
      forall i, j | 0 <= i < j < |a + b| ensures (a + b)[i].key != (a + b)[j].key {
        if j < |a| {
          assert (a + b)[i] == a[i] && (a + b)[j] == a[j];
        } else if i < |a| {
          assert (a + b)[i].key.row < |rows| == (a + b)[j].key.row;
        } else {
          assert (a + b)[i] == b[i - |a|] && (a + b)[j] == b[j - |a|];
        }
      }
    }
  }

  /** All cells are distinct cells, of tables 1 to |tables|. */
  lemma {:induction false} AllCellsDistinct(tables: seq<seq<seq<string>>>)
    ensures Distinct(AllCells(tables)) && InFamilies(AllCells(tables), {None})
    ensures forall i :: 0 <= i < |AllCells(tables)| ==>
      var k := AllCells(tables)[i].key; k.Cell? && 1 <= k.table <= |tables|
  {
    if tables != [] {
      var a: seq<Element> := AllCells(tables[..|tables| - 1]);
      var b: seq<Element> := TableCells(|tables|, tables[|tables| - 1]);
      AllCellsDistinct(tables[..|tables| - 1]);
      TableCellsDistinct(|tables|, tables[|tables| - 1]);
      forall i, j | 0 <= i < j < |a + b| ensures (a + b)[i].key != (a + b)[j].key {
        if j < |a| {
          assert (a + b)[i] == a[i] && (a + b)[j] == a[j];
        } else if i < |a| {
          assert (a + b)[i].key.table < |tables| == (a + b)[j].key.table;
        } else {
          assert (a + b)[i] == b[i - |a|] && (a + b)[j] == b[j - |a|];
        }
      }
    }
  }

  /** Every element is a different unit. */
  lemma StructureDistinct(doc: Docx)
    ensures Distinct(Structure(doc))
  {
    var p := Listed(Paragraph, Paragraphs, ParaTexts(doc.paragraphs));
    var c := AllCells(doc.tables);
    var h := Listed(Header, Headers, doc.header.GetOr([]));
    var f := Listed(Footer, Footers, doc.footer.GetOr([]));
    var t := Listed(Textbox, Textboxes, AllBoxes(doc.paragraphs));
    var n := Notes(FootnoteTexts(doc.footnotes));
    ListedDistinct(Paragraph, Paragraphs, ParaTexts(doc.paragraphs));
    AllCellsDistinct(doc.tables);
    ListedDistinct(Header, Headers, doc.header.GetOr([]));
    ListedDistinct(Footer, Footers, doc.footer.GetOr([]));
    ListedDistinct(Textbox, Textboxes, AllBoxes(doc.paragraphs));
    NotesDistinct(FootnoteTexts(doc.footnotes));
    DistinctJoin(p, c, {Some(Paragraphs)}, {None});
    DistinctJoin(p + c, h, {Some(Paragraphs), None}, {Some(Headers)});
    DistinctJoin(p + c + h, f, {Some(Paragraphs), None, Some(Headers)}, {Some(Footers)});
    DistinctJoin(p + c + h + f, t, {Some(Paragraphs), None, Some(Headers), Some(Footers)}, {Some(Textboxes)});
    DistinctJoin(p + c + h + f + t, n, {Some(Paragraphs), None, Some(Headers), Some(Footers), Some(Textboxes)}, {Some(Footnotes)});
  }

  /** The `element_id`s of a document's elements are pairwise different. */
  lemma StructureIdsUnique(doc: Docx)
    ensures var es := Structure(doc);
      forall i, j :: 0 <= i < j < |es| ==> Render(es[i].key) != Render(es[j].key)
  {
    var es := Structure(doc);
    StructureDistinct(doc);
    forall i, j | 0 <= i < j < |es| ensures Render(es[i].key) != Render(es[j].key) {
      RenderInjective(es[i].key, es[j].key);
    }
  }

  /** An element's text is stripped, its `empty` flag says whether that text
      is empty, and a footnote is never empty. */
  predicate Clean(es: seq<Element>) {
    forall e :: e in es ==> Strip(e.text) == e.text && (e.empty <==> e.text == "") && (e.kind.Footnote? ==> !e.empty)
  }

  lemma ListedClean(kind: Kind, series: Series, texts: seq<string>)
    requires !kind.Footnote?
    ensures Clean(Listed(kind, series, texts))
  {
  }

  lemma {:induction false} TableClean(t: nat, rows: seq<seq<string>>)
    ensures Clean(TableCells(t, rows))
  {
    if rows != [] {
      TableClean(t, rows[..|rows| - 1]);
    }
  }

  lemma {:induction false} CellsClean(tables: seq<seq<seq<string>>>)
    ensures Clean(AllCells(tables))
  {
    if tables != [] {
      CellsClean(tables[..|tables| - 1]);
      TableClean(|tables|, tables[|tables| - 1]);
    }
  }

  /** Every element of a document is clean in the sense above. */
  lemma StructureTexts(doc: Docx)
    ensures Clean(Structure(doc))
  {
    ListedClean(Paragraph, Paragraphs, ParaTexts(doc.paragraphs));
    CellsClean(doc.tables);
    ListedClean(Header, Headers, doc.header.GetOr([]));
    ListedClean(Footer, Footers, doc.footer.GetOr([]));
    ListedClean(Textbox, Textboxes, AllBoxes(doc.paragraphs));
    if doc.footnotes.Present? {
      KeptSpec(ChildrenWith(doc.footnotes.root.kids, "w:footnote"));
    }
    assert Clean(Notes(FootnoteTexts(doc.footnotes)));
  }

  // ---------------------------------------------------------------------------
  // `_extract_docx_elements`: the id -> object map

  /* The map is kept with each id given by the key it renders: `Render` is
     injective (`RenderInjective`), so a map from id strings and a map from
     keys have the same entries. An object (a paragraph, cell, drawing or
     footnote element) is named by the key of the unit it is. */

  /** The successive assignments `elements[id] = obj`. */
  function Enter(m: map<Key, Key>, ps: seq<(Key, Key)>): map<Key, Key> {
    if ps == [] then m else Enter(m, ps[..|ps| - 1])[ps[|ps| - 1].0 := ps[|ps| - 1].1]
  }

  /** Each element's id paired with its own unit. */
  function Pairs(es: seq<Element>): seq<(Key, Key)> {
    seq(|es|, i requires 0 <= i < |es| => (es[i].key, es[i].key))
  }

  /** The map from each element's id to the unit it was taken from. */
  function Index(es: seq<Element>): map<Key, Key> {
    Enter(map[], Pairs(es))
  }

  /** `series_1`, `series_2`, ..., `series_n`, each naming its own unit. */
  function Ids(series: Series, n: nat): seq<(Key, Key)> {
    seq(n, i requires 0 <= i < n => (Nth(series, i + 1), Nth(series, i + 1)))
  }

  lemma PairsListed(kind: Kind, series: Series, texts: seq<string>)
    ensures Pairs(Listed(kind, series, texts)) == Ids(series, |texts|)
  {
  }

  lemma PairsNotes(ns: seq<(string, Option<string>)>)
    ensures Pairs(Notes(ns)) == Ids(Footnotes, |ns|)
  {
  }

  lemma PairsAppend(a: seq<Element>, b: seq<Element>)
    ensures Pairs(a + b) == Pairs(a) + Pairs(b)
  {
  }

  lemma {:induction false} EnterAppend(m: map<Key, Key>, a: seq<(Key, Key)>, b: seq<(Key, Key)>)
    ensures Enter(m, a + b) == Enter(Enter(m, a), b)
    decreases |b|
  {
    if b == [] {
      assert a + b == a;
    } else {
      assert (a + b)[..|a + b| - 1] == a + b[..|b| - 1];
      EnterAppend(m, a, b[..|b| - 1]);
    }
  }

  lemma EnterSnoc(m: map<Key, Key>, a: seq<(Key, Key)>, p: (Key, Key))
    ensures Enter(m, a + [p]) == Enter(m, a)[p.0 := p.1]
  {
    assert (a + [p])[..|a|] == a;
  }

  /** Entering pairs that each name their own unit adds exactly their ids,
      each to its own unit. */
  lemma {:induction false} EnterSelf(m: map<Key, Key>, ps: seq<(Key, Key)>)
    requires forall k :: k in m ==> m[k] == k
    requires forall i :: 0 <= i < |ps| ==> ps[i].0 == ps[i].1
    ensures forall k :: k in Enter(m, ps) ==> Enter(m, ps)[k] == k
    ensures forall k :: k in Enter(m, ps) <==> k in m || exists i :: 0 <= i < |ps| && ps[i].0 == k
  {
    if ps != [] {
      var init := ps[..|ps| - 1];
      assert forall i :: 0 <= i < |init| ==> init[i] == ps[i];
      EnterSelf(m, init);
      forall k | k in Enter(m, ps)
        ensures k in m || exists i :: 0 <= i < |ps| && ps[i].0 == k
      {
        if k != ps[|ps| - 1].0 && k !in m {
          var i :| 0 <= i < |init| && init[i].0 == k;
          assert ps[i].0 == k;
        }
      }
    }
  }

  /** The map of a list of elements sends each element's id to that element's
      unit, and holds no other id. */
  lemma IndexSpec(es: seq<Element>)
    ensures forall i :: 0 <= i < |es| ==> es[i].key in Index(es) && Index(es)[es[i].key] == es[i].key
    ensures forall k :: k in Index(es) ==> exists i :: 0 <= i < |es| && es[i].key == k
  {
    var ps := Pairs(es);
    EnterSelf(map[], ps);
    forall i | 0 <= i < |es| ensures es[i].key in Index(es) {
      assert ps[i].0 == es[i].key;
    }
  }

  /** The loop shared by the paragraph, header, footer and footnote passes of
      the map; `last` is the value the loop variable is left holding. */
  method EnterNumbered(m: map<Key, Key>, series: Series, n: nat, bound: Option<nat>)
    returns (r: map<Key, Key>, last: Option<nat>)
    ensures r == Enter(m, Ids(series, n))
    ensures last == if n == 0 then bound else Some(n - 1)
  {
    r := m;
    last := bound;
    var i := 0;
    while i < n
      invariant 0 <= i <= n
      invariant r == Enter(m, Ids(series, i))
      invariant last == if i == 0 then bound else Some(i - 1)
    {
      assert Ids(series, i + 1) == Ids(series, i) + [(Nth(series, i + 1), Nth(series, i + 1))];
      EnterSnoc(m, Ids(series, i), (Nth(series, i + 1), Nth(series, i + 1)));
      r := r[Nth(series, i + 1) := Nth(series, i + 1)];
      last := Some(i);
      i := i + 1;
    }
  }

  /** `table_t_cell_r_1`, ..., `table_t_cell_r_n`, each naming its own cell. */
  function RowIds(t: nat, r: nat, n: nat): seq<(Key, Key)> {
    seq(n, c requires 0 <= c < n => (Cell(t, r, c + 1), Cell(t, r, c + 1)))
  }

  lemma PairsRow(t: nat, r: nat, cells: seq<string>)
    ensures Pairs(RowCells(t, r, cells)) == RowIds(t, r, |cells|)
  {
  }

  /** One row of the table pass of the map. */
  method EnterRow(m: map<Key, Key>, t: nat, r: nat, n: nat) returns (res: map<Key, Key>)
    ensures res == Enter(m, RowIds(t, r, n))
  {
    res := m;
    var ci := 0;
    while ci < n
      invariant 0 <= ci <= n
      invariant res == Enter(m, RowIds(t, r, ci))
    {
      assert RowIds(t, r, ci + 1) == RowIds(t, r, ci) + [(Cell(t, r, ci + 1), Cell(t, r, ci + 1))];
      EnterSnoc(m, RowIds(t, r, ci), (Cell(t, r, ci + 1), Cell(t, r, ci + 1)));
      res := res[Cell(t, r, ci + 1) := Cell(t, r, ci + 1)];
      ci := ci + 1;
    }
  }

  /** One table of the table pass of the map. */
  method EnterTable(m: map<Key, Key>, t: nat, rows: seq<seq<string>>) returns (res: map<Key, Key>)
    ensures res == Enter(m, Pairs(TableCells(t, rows)))
  {
    res := m;
    var ri := 0;
    while ri < |rows|
      invariant 0 <= ri <= |rows|
      invariant res == Enter(m, Pairs(TableCells(t, rows[..ri])))
    {
      res := EnterRow(res, t, ri + 1, |rows[ri]|);
      PairsRow(t, ri + 1, rows[ri]);
      assert rows[..ri + 1][..ri] == rows[..ri];
      PairsAppend(TableCells(t, rows[..ri]), RowCells(t, ri + 1, rows[ri]));
      EnterAppend(m, Pairs(TableCells(t, rows[..ri])), Pairs(RowCells(t, ri + 1, rows[ri])));
      ri := ri + 1;
    }
    assert rows[..ri] == rows;
  }

  /** The table pass of the map. */
  method EnterCells(m: map<Key, Key>, tables: seq<seq<seq<string>>>) returns (res: map<Key, Key>)
    ensures res == Enter(m, Pairs(AllCells(tables)))
  {
    res := m;
    var ti := 0;
    while ti < |tables|
      invariant 0 <= ti <= |tables|
      invariant res == Enter(m, Pairs(AllCells(tables[..ti])))
    {
      res := EnterTable(res, ti + 1, tables[ti]);
      assert tables[..ti + 1][..ti] == tables[..ti];
      PairsAppend(AllCells(tables[..ti]), TableCells(ti + 1, tables[ti]));
      EnterAppend(m, Pairs(AllCells(tables[..ti])), Pairs(TableCells(ti + 1, tables[ti])));
      ti := ti + 1;
    }
    assert tables[..ti] == tables;
  }

  /** The inner loop of the map's textbox pass: one entry per drawing with
      text, numbered on from the counter shared by all paragraphs. */
  method EnterBoxes(r0: map<Key, Key>, ghost m: map<Key, Key>, boxes: seq<Node>, counter0: nat)
    returns (r: map<Key, Key>, counter: nat)
    requires counter0 >= 1 && r0 == Enter(m, Ids(Textboxes, counter0 - 1))
    ensures counter == counter0 + |boxes| && r == Enter(m, Ids(Textboxes, counter - 1))
  {
    r := r0;
    counter := counter0;
    var j := 0;
    while j < |boxes|
      invariant 0 <= j <= |boxes|
      invariant counter == counter0 + j
      invariant r == Enter(m, Ids(Textboxes, counter - 1))
    {
      assert Ids(Textboxes, counter) == Ids(Textboxes, counter - 1) + [(Nth(Textboxes, counter), Nth(Textboxes, counter))];
      EnterSnoc(m, Ids(Textboxes, counter - 1), (Nth(Textboxes, counter), Nth(Textboxes, counter)));
      r := r[Nth(Textboxes, counter) := Nth(Textboxes, counter)];
      counter := counter + 1;
      j := j + 1;
    }
  }

  /** The textbox pass of the map: the drawings that have text, numbered by
      one counter across all paragraphs. */
  method EnterTextboxes(m: map<Key, Key>, ps: seq<Para>) returns (r: map<Key, Key>)
    ensures r == Enter(m, Ids(Textboxes, |AllBoxes(ps)|))
  {
    r := m;
    var counter := 1;
    var k := 0;
    while k < |ps|
      invariant 0 <= k <= |ps|
      invariant counter == |AllBoxes(ps[..k])| + 1
      invariant r == Enter(m, Ids(Textboxes, counter - 1))
    {
      var drawings := IterKids(ps[k].xml.kids, "w:drawing");
      var boxes := BoxDrawings(drawings);
      BoxDrawingsMatchBoxes(drawings);
      r, counter := EnterBoxes(r, m, boxes, counter);
      assert ps[..k + 1][..k] == ps[..k];
      assert AllBoxes(ps[..k + 1]) == AllBoxes(ps[..k]) + TextboxTexts(ps[k].xml);
      k := k + 1;
    }
    assert ps[..k] == ps;
  }

  /** How the two docx extractors can fail. */
  datatype MapError =
    | NoSection      // `doc.sections[0]` on a body without a section
    | UnboundIndex   // the footer loop reads `i` when no earlier loop bound it
    | UnboundLogger  // the footnote collector's handler names `self` in a static method

  /** `_extract_footnotes`: the footnote elements themselves, under the same
      tests as `_extract_footnote_texts`; a part that does not parse makes its
      exception handler fail in turn. */
  function FootnoteNodes(v: View): Result<seq<Node>, MapError> {
    match v
    case Absent => Success([])
    case Broken => Failure(UnboundLogger)
    case Present(root) => Success(KeptNodes(ChildrenWith(root.kids, "w:footnote")))
  }

  function KeptNodes(fs: seq<Node>): seq<Node> {
    if fs == [] then []
    else KeptNodes(fs[..|fs| - 1]) + (if Note(fs[|fs| - 1]).Some? then [fs[|fs| - 1]] else [])
  }

  /** The map's footnote objects and the listed footnotes correspond one to
      one, in order. */
  lemma {:induction false} KeptNodesMatchKept(fs: seq<Node>)
    ensures |KeptNodes(fs)| == |Kept(fs)|
    ensures forall i :: 0 <= i < |Kept(fs)| ==> Note(KeptNodes(fs)[i]) == Some(Kept(fs)[i])
  {
    if fs != [] {
      KeptNodesMatchKept(fs[..|fs| - 1]);
    }
  }

  // --- as written ---

  /** The value Python's `i` holds when the footer loop runs: the last index
      of the header loop, else of the paragraph loop, else unbound. */
  function Bound(doc: Docx): Option<nat> {
    if doc.header.Some? && |doc.header.value| > 0 then Some(|doc.header.value| - 1)
    else if |doc.paragraphs| > 0 then Some(|doc.paragraphs| - 1)
    else None
  }

  /** The footer assignments as written: every footer paragraph goes under
      the id built from `i`. */
  function StaleIds(i: nat, n: nat): seq<(Key, Key)> {
    seq(n, fi requires 0 <= fi < n => (Nth(Footers, i + 1), Nth(Footers, fi + 1)))
  }

  function AsWrittenIndex(doc: Docx): Result<map<Key, Key>, MapError> {
    if !doc.sectioned then Failure(NoSection)
    else
    var m := Index(Listed(Paragraph, Paragraphs, ParaTexts(doc.paragraphs))
                   + AllCells(doc.tables)
                   + Listed(Header, Headers, doc.header.GetOr([])));
    var n := |doc.footer.GetOr([])|;
    if n > 0 && Bound(doc).None? then Failure(UnboundIndex)
    else
      var m := Enter(m, StaleIds(Bound(doc).GetOr(0), n));
      match FootnoteNodes(doc.footnotes)
      case Failure(e) => Failure(e)
      case Success(ns) => Success(Enter(Enter(m, Ids(Textboxes, |AllBoxes(doc.paragraphs)|)), Ids(Footnotes, |ns|)))
  }

  /** The first three passes, common to both versions of the map. */
  method EnterLeading(doc: Docx) returns (elements: map<Key, Key>, i: Option<nat>)
    ensures elements == Index(Listed(Paragraph, Paragraphs, ParaTexts(doc.paragraphs))
                              + AllCells(doc.tables)
                              + Listed(Header, Headers, doc.header.GetOr([])))
    ensures i == Bound(doc)
  {
    ghost var p := Listed(Paragraph, Paragraphs, ParaTexts(doc.paragraphs));
    ghost var c := AllCells(doc.tables);
    ghost var h := Listed(Header, Headers, doc.header.GetOr([]));
    elements, i := EnterNumbered(map[], Paragraphs, |doc.paragraphs|, None);
    PairsListed(Paragraph, Paragraphs, ParaTexts(doc.paragraphs));
    elements := EnterCells(elements, doc.tables);
    EnterAppend(map[], Pairs(p), Pairs(c));
    PairsAppend(p, c);
    if doc.header.Some? {
      elements, i := EnterNumbered(elements, Headers, |doc.header.value|, i);
    }
    PairsListed(Header, Headers, doc.header.GetOr([]));
    EnterAppend(map[], Pairs(p + c), Pairs(h));
    PairsAppend(p + c, h);
  }

  lemma StaleIdsSnoc(i: nat, fi: nat)
    ensures StaleIds(i, fi + 1) == StaleIds(i, fi) + [(Nth(Footers, i + 1), Nth(Footers, fi + 1))]
  {
  }

  /** The footer pass as written: every footer is entered under the id of
      the unit after the last numbered one, so each overwrites the last. */
  method EnterStaleFooters(m: map<Key, Key>, i: nat, n: nat) returns (elements: map<Key, Key>)
    ensures elements == Enter(m, StaleIds(i, n))
  {
    elements := m;
    var fi := 0;
    while fi < n
      invariant 0 <= fi <= n
      invariant elements == Enter(m, StaleIds(i, fi))
    {
      StaleIdsSnoc(i, fi);
      EnterSnoc(m, StaleIds(i, fi), (Nth(Footers, i + 1), Nth(Footers, fi + 1)));
      elements := elements[Nth(Footers, i + 1) := Nth(Footers, fi + 1)];
      fi := fi + 1;
    }
  }

  /** `_extract_docx_elements` as written. */
  method ElementMapAsWritten(doc: Docx) returns (r: Result<map<Key, Key>, MapError>)
    ensures r == AsWrittenIndex(doc)
  {
    var elements, i := EnterLeading(doc);
    if !doc.sectioned {
      return Failure(NoSection);
    }
    ghost var start := elements;
    var n := |doc.footer.GetOr([])|;
    if doc.footer.Some? {
      if n > 0 && i.None? {
        return Failure(UnboundIndex);
      }
      elements := EnterStaleFooters(elements, i.GetOr(0), n);
    } else {
      assert StaleIds(i.GetOr(0), 0) == [];
    }
    elements := EnterTextboxes(elements, doc.paragraphs);
    var footnotes := FootnoteNodes(doc.footnotes);
    if footnotes.Failure? {
      return Failure(footnotes.error);
    }
    elements, i := EnterNumbered(elements, Footnotes, |footnotes.value|, i);
    return Success(elements);
  }

  // --- corrected ---

  /** `_extract_docx_elements` with the footer ids built from `fi` and the
      footnote collector falling back to an empty list like
      `_extract_footnote_texts`: the map sends every `element_id` of the
      element list to its own unit. A body without a section still raises,
      like the element list. */
  method ElementMap(doc: Docx) returns (r: Result<map<Key, Key>, MapError>)
    ensures r.Failure? <==> !doc.sectioned
    ensures r.Failure? ==> r.error == NoSection
    ensures r.Success? ==> r.value == Index(Structure(doc))
  {
    if !doc.sectioned {
      return Failure(NoSection);
    }
    ghost var pch := Listed(Paragraph, Paragraphs, ParaTexts(doc.paragraphs))
                     + AllCells(doc.tables) + Listed(Header, Headers, doc.header.GetOr([]));
    ghost var f := Listed(Footer, Footers, doc.footer.GetOr([]));
    ghost var t := Listed(Textbox, Textboxes, AllBoxes(doc.paragraphs));
    ghost var ns := FootnoteTexts(doc.footnotes);
    var elements, i := EnterLeading(doc);
    elements, i := EnterNumbered(elements, Footers, |doc.footer.GetOr([])|, i);
    PairsListed(Footer, Footers, doc.footer.GetOr([]));
    EnterAppend(map[], Pairs(pch), Pairs(f));
    PairsAppend(pch, f);
    elements := EnterTextboxes(elements, doc.paragraphs);
    PairsListed(Textbox, Textboxes, AllBoxes(doc.paragraphs));
    EnterAppend(map[], Pairs(pch + f), Pairs(t));
    PairsAppend(pch + f, t);
    var footnotes := FootnoteNodes(doc.footnotes);
    var count := if footnotes.Success? then |footnotes.value| else 0;
    if doc.footnotes.Present? {
      KeptNodesMatchKept(ChildrenWith(doc.footnotes.root.kids, "w:footnote"));
    }
    assert count == |ns|;
    elements, i := EnterNumbered(elements, Footnotes, count, i);
    PairsNotes(ns);
    EnterAppend(map[], Pairs(pch + f + t), Pairs(Notes(ns)));
    PairsAppend(pch + f + t, Notes(ns));
    return Success(elements);
  }

  /** The corrected map holds exactly the ids of the element list, each
      naming the unit its element was taken from. */
  lemma ElementMapMatchesIds(doc: Docx)
    ensures var es := Structure(doc);
      && (forall i :: 0 <= i < |es| ==> es[i].key in Index(es) && Index(es)[es[i].key] == es[i].key)
      && (forall k :: k in Index(es) ==> exists i :: 0 <= i < |es| && es[i].key == k)
  {
    IndexSpec(Structure(doc));
  }

  /** As written, with one header paragraph and two footer paragraphs the map
      holds `footer_1` for the second footer paragraph and no `footer_2`,
      although the element list names both. */
  lemma FooterKeysAsWritten()
    ensures var doc := Docx([], [], Some(["H"]), Some(["F1", "F2"]), Absent, true);
      AsWrittenIndex(doc) == Success(map[Nth(Headers, 1) := Nth(Headers, 1), Nth(Footers, 1) := Nth(Footers, 2)])
  {
    var m := HeaderOnlyIndex();
    var m2 := StaleFooters(m);
    assert AllBoxes([]) == [];
    EnterNothing(m2);
  }

  lemma HeaderOnlyIndex() returns (m: map<Key, Key>)
    ensures m == map[Nth(Headers, 1) := Nth(Headers, 1)]
    ensures Index(Listed(Paragraph, Paragraphs, ParaTexts([])) + AllCells([]) + Listed(Header, Headers, ["H"])) == m
  {
    var h := Listed(Header, Headers, ["H"]);
    assert Listed(Paragraph, Paragraphs, ParaTexts([])) + AllCells([]) + h == h;
    PairsListed(Header, Headers, ["H"]);
    var one := (Nth(Headers, 1), Nth(Headers, 1));
    assert Pairs(h) == [] + [one];
    EnterSnoc(map[], [], one);
    m := map[one.0 := one.1];
  }

  lemma StaleFooters(m: map<Key, Key>) returns (m2: map<Key, Key>)
    ensures m2 == m[Nth(Footers, 1) := Nth(Footers, 2)]
    ensures Enter(m, StaleIds(0, 2)) == m2
  {
    var f1 := Nth(Footers, 1);
    var f2 := Nth(Footers, 2);
    assert StaleIds(0, 2) == [(f1, f1)] + [(f1, f2)];
    EnterSnoc(m, [], (f1, f1));
    EnterSnoc(m, [(f1, f1)], (f1, f2));
    m2 := m[f1 := f2];
  }

  lemma EnterNothing(m: map<Key, Key>)
    ensures Enter(m, Ids(Textboxes, 0)) == m && Enter(m, Ids(Footnotes, 0)) == m
  {
    assert Ids(Textboxes, 0) == [] && Ids(Footnotes, 0) == [];
  }

  /** The element list of the same document names both footer paragraphs,
      `footer_1` and `footer_2`. */
  lemma FooterIdsListed()
    ensures var doc := Docx([], [], Some(["H"]), Some(["F1", "F2"]), Absent, true);
      && |Structure(doc)| == 3
      && Structure(doc)[1].key == Nth(Footers, 1)
      && Structure(doc)[2].key == Nth(Footers, 2)
      && Render(Nth(Footers, 2)) == "footer_2"
  {
    RenderSecondFooter();
    assert AllBoxes([]) == [];
  }

  lemma RenderSecondFooter()
    ensures Render(Nth(Footers, 2)) == "footer_2"
  {
    assert Decimal(2) == "2";
  }

  /** As written, a document with no body paragraph, a header part holding
      no paragraph of its own and a footer paragraph fails on the unbound
      `i`; the corrected map has its `footer_1`. */
  lemma UnboundFooterIndex()
    ensures var doc := Docx([], [], Some([]), Some(["F"]), Absent, true);
      && AsWrittenIndex(doc) == Failure(UnboundIndex)
      && Index(Structure(doc))[Nth(Footers, 1)] == Nth(Footers, 1)
  {
    var doc := Docx([], [], Some([]), Some(["F"]), Absent, true);
    var es := Structure(doc);
    assert es[0].key == Nth(Footers, 1);
    IndexSpec(es);
  }

  /** As written, a footnotes part that does not parse makes the map fail,
      while the element list simply has no footnotes. */
  lemma BrokenFootnotesAsWritten(doc: Docx)
    requires doc.footnotes.Broken? && doc.footer.GetOr([]) == [] && doc.sectioned
    ensures AsWrittenIndex(doc) == Failure(UnboundLogger)
    ensures Notes(FootnoteTexts(doc.footnotes)) == []
  {
  }

  // ---------------------------------------------------------------------------
  // `_extract_pdf`: line numbering

  /** One entry of a page's `lines`. */
  datatype Line = Line(line: nat, text: string)

  /** One entry of `structure["pages"]`. */
  datatype Page = Page(page: nat, lines: seq<Line>)

  /** The lines of a page whose blocks' texts are given in their sorted
      order: a block keeps its position (from 1) in that order, and blank
      blocks are dropped only afterwards. */
  function Lines(blocks: seq<string>): seq<Line> {
    if blocks == [] then []
    else
      var t := Strip(blocks[|blocks| - 1]);
      Lines(blocks[..|blocks| - 1]) + (if t != "" then [Line(|blocks|, t)] else [])
  }

  /** `l` is a non-blank block of `blocks`, stripped, under its position. */
  predicate LineOf(blocks: seq<string>, l: Line) {
    1 <= l.line <= |blocks| && l.text == Strip(blocks[l.line - 1]) && l.text != ""
  }

  lemma {:induction false} LinesFaithful(blocks: seq<string>)
    ensures forall i :: 0 <= i < |Lines(blocks)| ==> LineOf(blocks, Lines(blocks)[i])
  {
    if blocks != [] {
      var init := blocks[..|blocks| - 1];
      LinesFaithful(init);
      var t := Strip(blocks[|blocks| - 1]);
      assert Lines(blocks) == Lines(init) + (if t != "" then [Line(|blocks|, t)] else []);
      forall i | 0 <= i < |Lines(blocks)| ensures LineOf(blocks, Lines(blocks)[i]) {
        if i < |Lines(init)| {
          var l := Lines(init)[i];
          assert Lines(blocks)[i] == l && LineOf(init, l);
          assert blocks[l.line - 1] == init[l.line - 1];
        }
      }
    }
  }

  lemma {:induction false} LinesIncreasing(blocks: seq<string>)
    ensures forall i, j :: 0 <= i < j < |Lines(blocks)| ==> Lines(blocks)[i].line < Lines(blocks)[j].line
  {
    if blocks != [] {
      var init := blocks[..|blocks| - 1];
      LinesIncreasing(init);
      LinesFaithful(init);
      var t := Strip(blocks[|blocks| - 1]);
      assert Lines(blocks) == Lines(init) + (if t != "" then [Line(|blocks|, t)] else []);
      forall i, j | 0 <= i < j < |Lines(blocks)| ensures Lines(blocks)[i].line < Lines(blocks)[j].line {
        assert Lines(blocks)[i] == Lines(init)[i] && LineOf(init, Lines(init)[i]);
        if j < |Lines(init)| {
          assert Lines(blocks)[j] == Lines(init)[j];
        }
      }
    }
  }

  lemma {:induction false} LinesComplete(blocks: seq<string>)
    ensures forall k :: 0 <= k < |blocks| && Strip(blocks[k]) != "" ==> Line(k + 1, Strip(blocks[k])) in Lines(blocks)
  {
    if blocks != [] {
      var init := blocks[..|blocks| - 1];
      LinesComplete(init);
      var t := Strip(blocks[|blocks| - 1]);
      assert Lines(blocks) == Lines(init) + (if t != "" then [Line(|blocks|, t)] else []);
      forall k | 0 <= k < |blocks| && Strip(blocks[k]) != "" ensures Line(k + 1, Strip(blocks[k])) in Lines(blocks) {
        if k < |init| {
          assert init[k] == blocks[k];
        }
      }
    }
  }

  /** Every line is a non-blank block, stripped, under its position; line
      numbers increase; and no non-blank block is left out. */
  lemma LinesSpec(blocks: seq<string>)
    ensures forall i :: 0 <= i < |Lines(blocks)| ==> LineOf(blocks, Lines(blocks)[i])
    ensures forall i, j :: 0 <= i < j < |Lines(blocks)| ==> Lines(blocks)[i].line < Lines(blocks)[j].line
    ensures forall k :: 0 <= k < |blocks| && Strip(blocks[k]) != "" ==> Line(k + 1, Strip(blocks[k])) in Lines(blocks)
  {
    LinesFaithful(blocks);
    LinesIncreasing(blocks);
    LinesComplete(blocks);
  }

  /** A blank block leaves a gap in the numbering. */
  lemma LinesSkipBlank()
    ensures Lines(["a", " ", "b"]) == [Line(1, "a"), Line(3, "b")]
  {
    assert Strip("a") == "a" && Strip(" ") == "" && Strip("b") == "b";
    assert ["a", " ", "b"][..2] == ["a", " "] && ["a", " "][..1] == ["a"] && ["a"][..0] == [];
  }

  /** The page loop of `_extract_pdf`, over each page's block texts in the
      order the sort left them: pages are numbered from 1. */
  method ExtractPdf(pages: seq<seq<string>>) returns (structure: seq<Page>)
    ensures |structure| == |pages|
    ensures forall k :: 0 <= k < |pages| ==> structure[k] == Page(k + 1, Lines(pages[k]))
  {
    structure := [];
    var k := 0;
    while k < |pages|
      invariant 0 <= k <= |pages|
      invariant |structure| == k
      invariant forall j :: 0 <= j < k ==> structure[j] == Page(j + 1, Lines(pages[j]))
    {
      structure := structure + [Page(k + 1, Lines(pages[k]))];
      k := k + 1;
    }
  }
}
