/** The layout-analysis result and its JSON cache format. Every entity keeps
    its scalar attributes as the JSON values it was given (`JNull` stands for
    Python's `None`), since loading stores whatever value a key holds. Each
    entity has an encoder (`to_json`) and a decoder (`from_json`); the
    decoders look keys up with a `None` default and iterate list-valued keys
    with an empty-list default. */
module DocIntel {
  import opened Wrappers
  import opened JsonValue

  // ---------------------------------------------------------------- Span

  datatype Span = Span(offset: Json, length: Json)

  function SpanToJson(s: Span): (j: Json)
    ensures j.JObj? && j.fields.Keys == {"offset", "length"}
  {
    JObj(map["offset" := s.offset, "length" := s.length])
  }

  function SpanFromJson(j: Json): (r: Result<Span, DecodeError>)
    ensures r.Success? <==> j.JObj?
  {
    if !j.JObj? then Failure(NotAnObject)
    else Success(Span(Get(j.fields, "offset"), Get(j.fields, "length")))
  }

  lemma SpanRoundTrip(s: Span)
    ensures SpanFromJson(SpanToJson(s)) == Success(s)
  {
  }

  /** A span object without keys loads with both attributes `None`. */
  lemma SpanDefaults()
    ensures SpanFromJson(JObj(map[])) == Success(Span(JNull, JNull))
  {
  }

  // ---------------------------------------------------------------- Word

  datatype Word = Word(content: Json, polygon: Json, span: Span, confidence: Json)

  function WordToJson(w: Word): (j: Json)
    ensures j.JObj? && j.fields.Keys == {"content", "polygon", "span", "confidence"}
  {
    JObj(map["content" := w.content, "polygon" := w.polygon, "span" := SpanToJson(w.span),
             "confidence" := w.confidence])
  }

  function WordFromJson(j: Json): (r: Result<Word, DecodeError>)
    ensures r.Success? <==> j.JObj? && Get(j.fields, "span").JObj?
  {
    if !j.JObj? then Failure(NotAnObject)
    else
      var m := j.fields;
      var span :- SpanFromJson(Get(m, "span"));
      Success(Word(Get(m, "content"), Get(m, "polygon"), span, Get(m, "confidence")))
  }

  lemma WordRoundTrip(w: Word)
    ensures WordFromJson(WordToJson(w)) == Success(w)
  {
  }

  // ---------------------------------------------------------------- Line

  datatype Line = Line(content: Json, polygon: Json, spans: seq<Span>)

  function LineToJson(l: Line): (j: Json)
    ensures j.JObj? && j.fields.Keys == {"content", "polygon", "spans"}
  {
    JObj(map["content" := l.content, "polygon" := l.polygon, "spans" := JArr(EncodeAll(l.spans, SpanToJson))])
  }

  function LineFromJson(j: Json): (r: Result<Line, DecodeError>)
    ensures !j.JObj? ==> r == Failure(NotAnObject)
  {
    if !j.JObj? then Failure(NotAnObject)
    else
      var m := j.fields;
      var spans :- ListField(m, "spans", SpanFromJson);
      Success(Line(Get(m, "content"), Get(m, "polygon"), spans))
  }

  lemma LineRoundTrip(l: Line)
    ensures LineFromJson(LineToJson(l)) == Success(l)
  {
    forall s | s in l.spans ensures SpanFromJson(SpanToJson(s)) == Success(s) {
      SpanRoundTrip(s);
    }
    ListFieldOfEncodedExact(LineToJson(l).fields, "spans", l.spans, SpanToJson, SpanFromJson);
  }

  /** Missing keys give `None` content and polygon and no spans. */
  lemma LineDefaults()
    ensures LineFromJson(JObj(map[])) == Success(Line(JNull, JNull, []))
  {
  }

  // ---------------------------------------------------------------- Barcode

  datatype Barcode = Barcode(kind: Json, value: Json, polygon: Json, span: Span, confidence: Json)

  function BarcodeToJson(b: Barcode): (j: Json)
    ensures j.JObj? && j.fields.Keys == {"kind", "value", "polygon", "span", "confidence"}
  {
    JObj(map["kind" := b.kind, "value" := b.value, "polygon" := b.polygon, "span" := SpanToJson(b.span),
             "confidence" := b.confidence])
  }

  function BarcodeFromJson(j: Json): (r: Result<Barcode, DecodeError>)
    ensures r.Success? <==> j.JObj? && Get(j.fields, "span").JObj?
  {
    if !j.JObj? then Failure(NotAnObject)
    else
      var m := j.fields;
      var span :- SpanFromJson(Get(m, "span"));
      Success(Barcode(Get(m, "kind"), Get(m, "value"), Get(m, "polygon"), span, Get(m, "confidence")))
  }

  lemma BarcodeRoundTrip(b: Barcode)
    ensures BarcodeFromJson(BarcodeToJson(b)) == Success(b)
  {
  }

  // ---------------------------------------------------------------- Formula

  datatype Formula = Formula(kind: Json, value: Json, polygon: Json, span: Span, confidence: Json)

  function FormulaToJson(f: Formula): (j: Json)
    ensures j.JObj? && j.fields.Keys == {"kind", "value", "polygon", "span", "confidence"}
  {
    JObj(map["kind" := f.kind, "value" := f.value, "polygon" := f.polygon, "span" := SpanToJson(f.span),
             "confidence" := f.confidence])
  }

  function FormulaFromJson(j: Json): (r: Result<Formula, DecodeError>)
    ensures r.Success? <==> j.JObj? && Get(j.fields, "span").JObj?
  {
    if !j.JObj? then Failure(NotAnObject)
    else
      var m := j.fields;
      var span :- SpanFromJson(Get(m, "span"));
      Success(Formula(Get(m, "kind"), Get(m, "value"), Get(m, "polygon"), span, Get(m, "confidence")))
  }

  lemma FormulaRoundTrip(f: Formula)
    ensures FormulaFromJson(FormulaToJson(f)) == Success(f)
  {
  }

  // ---------------------------------------------------------------- Page

  datatype Page = Page(pageNumber: Json, angle: Json, width: Json, height: Json, unit: Json,
                       words: seq<Word>, lines: seq<Line>, barcodes: seq<Barcode>, formulas: seq<Formula>)

  function PageToJson(p: Page): (j: Json)
    ensures j.JObj? && j.fields.Keys == {"page_number", "angle", "width", "height", "unit",
                                         "words", "lines", "barcodes", "formulas"}
  {
    JObj(map["page_number" := p.pageNumber, "angle" := p.angle, "width" := p.width, "height" := p.height,
             "unit" := p.unit,
             "words" := JArr(EncodeAll(p.words, WordToJson)),
             "lines" := JArr(EncodeAll(p.lines, LineToJson)),
             "barcodes" := JArr(EncodeAll(p.barcodes, BarcodeToJson)),
             "formulas" := JArr(EncodeAll(p.formulas, FormulaToJson))])
  }

  function PageFromJson(j: Json): (r: Result<Page, DecodeError>)
    ensures !j.JObj? ==> r == Failure(NotAnObject)
  {
    if !j.JObj? then Failure(NotAnObject)
    else
      var m := j.fields;
      var words :- ListField(m, "words", WordFromJson);
      var lines :- ListField(m, "lines", LineFromJson);
      var barcodes :- ListField(m, "barcodes", BarcodeFromJson);
      var formulas :- ListField(m, "formulas", FormulaFromJson);
      Success(Page(Get(m, "page_number"), Get(m, "angle"), Get(m, "width"), Get(m, "height"), Get(m, "unit"),
                   words, lines, barcodes, formulas))
  }

  lemma WordsAndLinesRoundTrip(m: map<string, Json>, p: Page)
    requires "words" in m && m["words"] == JArr(EncodeAll(p.words, WordToJson))
    requires "lines" in m && m["lines"] == JArr(EncodeAll(p.lines, LineToJson))
    ensures ListField(m, "words", WordFromJson) == Success(p.words)
    ensures ListField(m, "lines", LineFromJson) == Success(p.lines)
  {
    forall w | w in p.words ensures WordFromJson(WordToJson(w)) == Success(w) {
      WordRoundTrip(w);
    }
    forall l | l in p.lines ensures LineFromJson(LineToJson(l)) == Success(l) {
      LineRoundTrip(l);
    }
    ListFieldOfEncodedExact(m, "words", p.words, WordToJson, WordFromJson);
    ListFieldOfEncodedExact(m, "lines", p.lines, LineToJson, LineFromJson);
  }

  lemma BarcodesAndFormulasRoundTrip(m: map<string, Json>, p: Page)
    requires "barcodes" in m && m["barcodes"] == JArr(EncodeAll(p.barcodes, BarcodeToJson))
    requires "formulas" in m && m["formulas"] == JArr(EncodeAll(p.formulas, FormulaToJson))
    ensures ListField(m, "barcodes", BarcodeFromJson) == Success(p.barcodes)
    ensures ListField(m, "formulas", FormulaFromJson) == Success(p.formulas)
  {
    forall b | b in p.barcodes ensures BarcodeFromJson(BarcodeToJson(b)) == Success(b) {
      BarcodeRoundTrip(b);
    }
    forall f | f in p.formulas ensures FormulaFromJson(FormulaToJson(f)) == Success(f) {
      FormulaRoundTrip(f);
    }
    ListFieldOfEncodedExact(m, "barcodes", p.barcodes, BarcodeToJson, BarcodeFromJson);
    ListFieldOfEncodedExact(m, "formulas", p.formulas, FormulaToJson, FormulaFromJson);
  }

  lemma PageRoundTrip(p: Page)
    ensures PageFromJson(PageToJson(p)) == Success(p)
  {
    var m := PageToJson(p).fields;
    PageListFields(p);
    WordsAndLinesRoundTrip(m, p);
    BarcodesAndFormulasRoundTrip(m, p);
    PageScalarFields(p);
  }

  lemma PageListFields(p: Page)
    ensures var m := PageToJson(p).fields;
            && "words" in m && m["words"] == JArr(EncodeAll(p.words, WordToJson))
            && "lines" in m && m["lines"] == JArr(EncodeAll(p.lines, LineToJson))
            && "barcodes" in m && m["barcodes"] == JArr(EncodeAll(p.barcodes, BarcodeToJson))
            && "formulas" in m && m["formulas"] == JArr(EncodeAll(p.formulas, FormulaToJson))
  {
  }

  lemma PageScalarFields(p: Page)
    ensures var m := PageToJson(p).fields;
            && Get(m, "page_number") == p.pageNumber && Get(m, "angle") == p.angle && Get(m, "width") == p.width
            && Get(m, "height") == p.height && Get(m, "unit") == p.unit
  {
  }

  /** Missing keys give `None` scalars and empty word, line, barcode and
      formula lists. */
  lemma PageDefaults()
    ensures PageFromJson(JObj(map[])) == Success(Page(JNull, JNull, JNull, JNull, JNull, [], [], [], []))
  {
  }

  // ---------------------------------------------------------------- BoundingRegion

  datatype BoundingRegion = BoundingRegion(pageNumber: Json, polygon: Json)

  function RegionToJson(b: BoundingRegion): (j: Json)
    ensures j.JObj? && j.fields.Keys == {"page_number", "polygon"}
  {
    JObj(map["page_number" := b.pageNumber, "polygon" := b.polygon])
  }

  function RegionFromJson(j: Json): (r: Result<BoundingRegion, DecodeError>)
    ensures r.Success? <==> j.JObj?
  {
    if !j.JObj? then Failure(NotAnObject)
    else Success(BoundingRegion(Get(j.fields, "page_number"), Get(j.fields, "polygon")))
  }

  lemma RegionRoundTrip(b: BoundingRegion)
    ensures RegionFromJson(RegionToJson(b)) == Success(b)
  {
  }

  /** Bounding regions and spans are the two lists nearly every entity
      carries. */
  lemma RegionsAndSpansRoundTrip(m: map<string, Json>, regions: seq<BoundingRegion>, spans: seq<Span>)
    requires "bounding_regions" in m && m["bounding_regions"] == JArr(EncodeAll(regions, RegionToJson))
    requires "spans" in m && m["spans"] == JArr(EncodeAll(spans, SpanToJson))
    ensures ListField(m, "bounding_regions", RegionFromJson) == Success(regions)
    ensures ListField(m, "spans", SpanFromJson) == Success(spans)
  {
    forall b | b in regions ensures RegionFromJson(RegionToJson(b)) == Success(b) {
      RegionRoundTrip(b);
    }
    forall s | s in spans ensures SpanFromJson(SpanToJson(s)) == Success(s) {
      SpanRoundTrip(s);
    }
    ListFieldOfEncodedExact(m, "bounding_regions", regions, RegionToJson, RegionFromJson);
    ListFieldOfEncodedExact(m, "spans", spans, SpanToJson, SpanFromJson);
  }

  // ---------------------------------------------------------------- Paragraph

  datatype Paragraph = Paragraph(role: Json, content: Json, boundingRegions: seq<BoundingRegion>, spans: seq<Span>)

  function ParagraphToJson(p: Paragraph): (j: Json)
    ensures j.JObj? && j.fields.Keys == {"role", "content", "bounding_regions", "spans"}
  {
    JObj(map["role" := p.role, "content" := p.content,
             "bounding_regions" := JArr(EncodeAll(p.boundingRegions, RegionToJson)),
             "spans" := JArr(EncodeAll(p.spans, SpanToJson))])
  }

  function ParagraphFromJson(j: Json): (r: Result<Paragraph, DecodeError>)
    ensures !j.JObj? ==> r == Failure(NotAnObject)
  {
    if !j.JObj? then Failure(NotAnObject)
    else
      var m := j.fields;
      var regions :- ListField(m, "bounding_regions", RegionFromJson);
      var spans :- ListField(m, "spans", SpanFromJson);
      Success(Paragraph(Get(m, "role"), Get(m, "content"), regions, spans))
  }

  lemma ParagraphRoundTrip(p: Paragraph)
    ensures ParagraphFromJson(ParagraphToJson(p)) == Success(p)
  {
    RegionsAndSpansRoundTrip(ParagraphToJson(p).fields, p.boundingRegions, p.spans);
  }

  // ---------------------------------------------------------------- TableCell

  /** `elements` is declared but neither filled from the service nor written
      or read by the codec, so it stays `None`. */
  datatype TableCell = TableCell(kind: Json, rowIndex: Json, columnIndex: Json, rowSpan: Json, columnSpan: Json,
                                 content: Json, boundingRegions: seq<BoundingRegion>, spans: seq<Span>,
                                 elements: Json)

  function CellToJson(c: TableCell): (j: Json)
    ensures j.JObj? && j.fields.Keys == {"kind", "row_index", "column_index", "row_span", "column_span",
                                         "content", "bounding_regions", "spans"}
  {
    JObj(map["kind" := c.kind, "row_index" := c.rowIndex, "column_index" := c.columnIndex,
             "row_span" := c.rowSpan, "column_span" := c.columnSpan, "content" := c.content,
             "bounding_regions" := JArr(EncodeAll(c.boundingRegions, RegionToJson)),
             "spans" := JArr(EncodeAll(c.spans, SpanToJson))])
  }

  function CellFromJson(j: Json): (r: Result<TableCell, DecodeError>)
    ensures r.Success? ==> r.value.elements == JNull
  {
    if !j.JObj? then Failure(NotAnObject)
    else
      var m := j.fields;
      var regions :- ListField(m, "bounding_regions", RegionFromJson);
      var spans :- ListField(m, "spans", SpanFromJson);
      Success(TableCell(Get(m, "kind"), Get(m, "row_index"), Get(m, "column_index"), Get(m, "row_span"),
                        Get(m, "column_span"), Get(m, "content"), regions, spans, JNull))
  }

  /** What a cell is after a save and a reload. */
  function CellReloaded(c: TableCell): TableCell {
    c.(elements := JNull)
  }

  /** A cell comes back with everything but `elements`. */
  lemma CellRoundTrip(c: TableCell)
    ensures CellFromJson(CellToJson(c)) == Success(c.(elements := JNull))
  {
    RegionsAndSpansRoundTrip(CellToJson(c).fields, c.boundingRegions, c.spans);
  }

  // ---------------------------------------------------------------- Footnote

  /** `elements` is declared but never filled, written or read. */
  datatype Footnote = Footnote(content: Json, boundingRegions: seq<BoundingRegion>, spans: seq<Span>, elements: Json)

  function FootnoteToJson(f: Footnote): (j: Json)
    ensures j.JObj? && j.fields.Keys == {"content", "bounding_regions", "spans"}
  {
    JObj(map["content" := f.content,
             "bounding_regions" := JArr(EncodeAll(f.boundingRegions, RegionToJson)),
             "spans" := JArr(EncodeAll(f.spans, SpanToJson))])
  }

  function FootnoteFromJson(j: Json): (r: Result<Footnote, DecodeError>)
    ensures r.Success? ==> r.value.elements == JNull
  {
    if !j.JObj? then Failure(NotAnObject)
    else
      var m := j.fields;
      var regions :- ListField(m, "bounding_regions", RegionFromJson);
      var spans :- ListField(m, "spans", SpanFromJson);
      Success(Footnote(Get(m, "content"), regions, spans, JNull))
  }

  /** What a footnote is after a save and a reload. */
  function FootnoteReloaded(f: Footnote): Footnote {
    f.(elements := JNull)
  }

  /** A footnote comes back with everything but `elements`. */
  lemma FootnoteRoundTrip(f: Footnote)
    ensures FootnoteFromJson(FootnoteToJson(f)) == Success(f.(elements := JNull))
  {
    RegionsAndSpansRoundTrip(FootnoteToJson(f).fields, f.boundingRegions, f.spans);
  }

  lemma FootnotesRoundTrip(m: map<string, Json>, key: string, fs: seq<Footnote>)
    requires key in m && m[key] == JArr(EncodeAll(fs, FootnoteToJson))
    ensures ListField(m, key, FootnoteFromJson) == Success(MapSeq(fs, FootnoteReloaded))
  {
    forall f | f in fs ensures FootnoteFromJson(FootnoteToJson(f)) == Success(FootnoteReloaded(f)) {
      FootnoteRoundTrip(f);
    }
    ListFieldOfEncoded(m, key, fs, FootnoteToJson, FootnoteFromJson, FootnoteReloaded);
  }

  // ---------------------------------------------------------------- Table

  /** `caption` holds the caption's text. `footnotes` is declared but never
      filled, written or read. */
  datatype Table = Table(rowCount: Json, columnCount: Json, cells: seq<TableCell>,
                         boundingRegions: seq<BoundingRegion>, spans: seq<Span>, caption: Json,
                         footnotes: Option<seq<Footnote>>)

  function TableToJson(t: Table): (j: Json)
    ensures j.JObj? && j.fields.Keys == {"row_count", "column_count", "cells", "bounding_regions", "spans", "caption"}
  {
    JObj(map["row_count" := t.rowCount, "column_count" := t.columnCount,
             "cells" := JArr(EncodeAll(t.cells, CellToJson)),
             "bounding_regions" := JArr(EncodeAll(t.boundingRegions, RegionToJson)),
             "spans" := JArr(EncodeAll(t.spans, SpanToJson)),
             "caption" := t.caption])
  }

  function TableFromJson(j: Json): (r: Result<Table, DecodeError>)
    ensures r.Success? ==> r.value.footnotes == None
  {
    if !j.JObj? then Failure(NotAnObject)
    else
      var m := j.fields;
      var cells :- ListField(m, "cells", CellFromJson);
      var regions :- ListField(m, "bounding_regions", RegionFromJson);
      var spans :- ListField(m, "spans", SpanFromJson);
      Success(Table(Get(m, "row_count"), Get(m, "column_count"), cells, regions, spans, Get(m, "caption"), None))
  }

  /** What a table is after a save and a reload. */
  function TableReloaded(t: Table): Table {
    t.(cells := MapSeq(t.cells, CellReloaded), footnotes := None)
  }

  /** A table comes back without its footnotes and without its cells'
      `elements`; everything else survives. */
  lemma TableRoundTrip(t: Table)
    ensures TableFromJson(TableToJson(t)) == Success(TableReloaded(t))
  {
    var m := TableToJson(t).fields;
    TableListFields(t);
    forall c | c in t.cells ensures CellFromJson(CellToJson(c)) == Success(CellReloaded(c)) {
      CellRoundTrip(c);
    }
    ListFieldOfEncoded(m, "cells", t.cells, CellToJson, CellFromJson, CellReloaded);
    RegionsAndSpansRoundTrip(m, t.boundingRegions, t.spans);
    TableScalarFields(t);
  }

  lemma TableListFields(t: Table)
    ensures var m := TableToJson(t).fields;
            && "cells" in m && m["cells"] == JArr(EncodeAll(t.cells, CellToJson))
            && "bounding_regions" in m && m["bounding_regions"] == JArr(EncodeAll(t.boundingRegions, RegionToJson))
            && "spans" in m && m["spans"] == JArr(EncodeAll(t.spans, SpanToJson))
  {
  }

  lemma TableScalarFields(t: Table)
    ensures var m := TableToJson(t).fields;
            Get(m, "row_count") == t.rowCount && Get(m, "column_count") == t.columnCount && Get(m, "caption") == t.caption
  {
  }

  // ---------------------------------------------------------------- Figure

  /** `caption` holds the caption's text. `elements` and `id` are declared but
      never filled, written or read. */
  datatype Figure = Figure(boundingRegions: seq<BoundingRegion>, spans: seq<Span>, elements: Json, caption: Json,
                           footnotes: seq<Footnote>, id: Json)

  function FigureToJson(f: Figure): (j: Json)
    ensures j.JObj? && j.fields.Keys == {"bounding_regions", "spans", "caption", "footnotes"}
  {
    JObj(map["bounding_regions" := JArr(EncodeAll(f.boundingRegions, RegionToJson)),
             "spans" := JArr(EncodeAll(f.spans, SpanToJson)),
             "caption" := f.caption,
             "footnotes" := JArr(EncodeAll(f.footnotes, FootnoteToJson))])
  }

  /** Unlike every other list-valued key, a `footnotes` key holding null
      loads as no footnotes. */
  function FigureFromJson(j: Json): (r: Result<Figure, DecodeError>)
    ensures r.Success? ==> r.value.elements == JNull && r.value.id == JNull
  {
    if !j.JObj? then Failure(NotAnObject)
    else
      var m := j.fields;
      var regions :- ListField(m, "bounding_regions", RegionFromJson);
      var spans :- ListField(m, "spans", SpanFromJson);
      var footnotes :- if Get(m, "footnotes") == JNull then Success([]) else ListField(m, "footnotes", FootnoteFromJson);
      Success(Figure(regions, spans, JNull, Get(m, "caption"), footnotes, JNull))
  }

  /** What a figure is after a save and a reload. */
  function FigureReloaded(f: Figure): Figure {
    f.(elements := JNull, id := JNull, footnotes := MapSeq(f.footnotes, FootnoteReloaded))
  }

  /** A figure comes back without `elements` and `id`, and its footnotes
      without their `elements`. */
  lemma FigureRoundTrip(f: Figure)
    ensures FigureFromJson(FigureToJson(f)) == Success(FigureReloaded(f))
  {
    var m := FigureToJson(f).fields;
    RegionsAndSpansRoundTrip(m, f.boundingRegions, f.spans);
    FootnotesRoundTrip(m, "footnotes", f.footnotes);
  }

  /** A null `footnotes` on a figure is no footnotes, while the same null on
      a table's `cells` (or any other list-valued key) fails to load. */
  lemma FigureNullFootnotesIsEmpty(m: map<string, Json>)
    requires "footnotes" in m && m["footnotes"] == JNull
    requires FigureFromJson(JObj(m)).Success?
    ensures FigureFromJson(JObj(m)).value.footnotes == []
    ensures TableFromJson(JObj(m["cells" := JNull])) == Failure(NotIterable)
  {
  }

  // ---------------------------------------------------------------- Section

  /** `elements` holds the service's list of element references as given. */
  datatype Section = Section(spans: seq<Span>, elements: Json)

  function SectionToJson(s: Section): (j: Json)
    ensures j.JObj? && j.fields.Keys == {"spans", "elements"}
  {
    JObj(map["spans" := JArr(EncodeAll(s.spans, SpanToJson)), "elements" := s.elements])
  }

  function SectionFromJson(j: Json): (r: Result<Section, DecodeError>)
    ensures !j.JObj? ==> r == Failure(NotAnObject)
  {
    if !j.JObj? then Failure(NotAnObject)
    else
      var m := j.fields;
      var spans :- ListField(m, "spans", SpanFromJson);
      Success(Section(spans, Get(m, "elements")))
  }

  lemma SectionRoundTrip(s: Section)
    ensures SectionFromJson(SectionToJson(s)) == Success(s)
  {
    forall x | x in s.spans ensures SpanFromJson(SpanToJson(x)) == Success(x) {
      SpanRoundTrip(x);
    }
    ListFieldOfEncodedExact(SectionToJson(s).fields, "spans", s.spans, SpanToJson, SpanFromJson);
  }

  // ---------------------------------------------------------------- KeyValuePair

  datatype KeyValueElement = KeyValueElement(content: Json, boundingRegions: seq<BoundingRegion>, spans: seq<Span>)

  function ElementToJson(e: KeyValueElement): (j: Json)
    ensures j.JObj? && j.fields.Keys == {"content", "bounding_regions", "spans"}
  {
    JObj(map["content" := e.content,
             "bounding_regions" := JArr(EncodeAll(e.boundingRegions, RegionToJson)),
             "spans" := JArr(EncodeAll(e.spans, SpanToJson))])
  }

  function ElementFromJson(j: Json): (r: Result<KeyValueElement, DecodeError>)
    ensures !j.JObj? ==> r == Failure(NotAnObject)
  {
    if !j.JObj? then Failure(NotAnObject)
    else
      var m := j.fields;
      var regions :- ListField(m, "bounding_regions", RegionFromJson);
      var spans :- ListField(m, "spans", SpanFromJson);
      Success(KeyValueElement(Get(m, "content"), regions, spans))
  }

  lemma ElementRoundTrip(e: KeyValueElement)
    ensures ElementFromJson(ElementToJson(e)) == Success(e)
  {
    RegionsAndSpansRoundTrip(ElementToJson(e).fields, e.boundingRegions, e.spans);
  }

  datatype KeyValuePair = KeyValuePair(key: KeyValueElement, value: KeyValueElement, confidence: Json)

  function PairToJson(p: KeyValuePair): (j: Json)
    ensures j.JObj? && j.fields.Keys == {"key", "value", "confidence"}
  {
    JObj(map["key" := ElementToJson(p.key), "value" := ElementToJson(p.value), "confidence" := p.confidence])
  }

  /** Both `key` and `value` are required objects. */
  function PairFromJson(j: Json): (r: Result<KeyValuePair, DecodeError>)
    ensures !j.JObj? || !Get(j.fields, "key").JObj? ==> r == Failure(NotAnObject)
    ensures r.Success? ==> Get(j.fields, "key").JObj? && Get(j.fields, "value").JObj?
  {
    if !j.JObj? then Failure(NotAnObject)
    else
      var m := j.fields;
      var key :- ElementFromJson(Get(m, "key"));
      var value :- ElementFromJson(Get(m, "value"));
      Success(KeyValuePair(key, value, Get(m, "confidence")))
  }

  lemma PairRoundTrip(p: KeyValuePair)
    ensures PairFromJson(PairToJson(p)) == Success(p)
  {
    ElementRoundTrip(p.key);
    ElementRoundTrip(p.value);
  }

  // ---------------------------------------------------------------- Language

  datatype Language = Language(locale: Json, spans: seq<Span>, confidence: Json)

  function LanguageToJson(l: Language): (j: Json)
    ensures j.JObj? && j.fields.Keys == {"locale", "spans", "confidence"}
  {
    JObj(map["locale" := l.locale, "spans" := JArr(EncodeAll(l.spans, SpanToJson)), "confidence" := l.confidence])
  }

  function LanguageFromJson(j: Json): (r: Result<Language, DecodeError>)
    ensures !j.JObj? ==> r == Failure(NotAnObject)
  {
    if !j.JObj? then Failure(NotAnObject)
    else
      var m := j.fields;
      var spans :- ListField(m, "spans", SpanFromJson);
      Success(Language(Get(m, "locale"), spans, Get(m, "confidence")))
  }

  lemma LanguageRoundTrip(l: Language)
    ensures LanguageFromJson(LanguageToJson(l)) == Success(l)
  {
    forall x | x in l.spans ensures SpanFromJson(SpanToJson(x)) == Success(x) {
      SpanRoundTrip(x);
    }
    ListFieldOfEncodedExact(LanguageToJson(l).fields, "spans", l.spans, SpanToJson, SpanFromJson);
  }

  // ---------------------------------------------------------------- Style

  datatype Style = Style(isHandwritten: Json, similarFontFamily: Json, fontStyle: Json, fontWeight: Json,
                         color: Json, backgroundColour: Json, spans: seq<Span>, confidence: Json)

  function StyleToJson(s: Style): (j: Json)
    ensures j.JObj? && j.fields.Keys == {"is_handwritten", "similar_font_family", "font_style", "font_weight",
                                         "color", "background_colour", "spans", "confidence"}
  {
    JObj(map["is_handwritten" := s.isHandwritten, "similar_font_family" := s.similarFontFamily,
             "font_style" := s.fontStyle, "font_weight" := s.fontWeight, "color" := s.color,
             "background_colour" := s.backgroundColour,
             "spans" := JArr(EncodeAll(s.spans, SpanToJson)), "confidence" := s.confidence])
  }

  function StyleFromJson(j: Json): (r: Result<Style, DecodeError>)
    ensures !j.JObj? ==> r == Failure(NotAnObject)
  {
    if !j.JObj? then Failure(NotAnObject)
    else
      var m := j.fields;
      var spans :- ListField(m, "spans", SpanFromJson);
      Success(Style(Get(m, "is_handwritten"), Get(m, "similar_font_family"), Get(m, "font_style"),
                    Get(m, "font_weight"), Get(m, "color"), Get(m, "background_colour"), spans,
                    Get(m, "confidence")))
  }

  lemma StyleRoundTrip(s: Style)
    ensures StyleFromJson(StyleToJson(s)) == Success(s)
  {
    forall x | x in s.spans ensures SpanFromJson(SpanToJson(x)) == Success(x) {
      SpanRoundTrip(x);
    }
    ListFieldOfEncodedExact(StyleToJson(s).fields, "spans", s.spans, SpanToJson, SpanFromJson);
  }

  // ---------------------------------------------------------------- DocumentField

  /** `valueType` is the field's type, `value` its text content. */
  datatype DocumentField = DocumentField(valueType: Json, value: Json, boundingRegions: seq<BoundingRegion>,
                                         spans: seq<Span>, confidence: Json)

  function FieldToJson(f: DocumentField): (j: Json)
    ensures j.JObj? && j.fields.Keys == {"value_type", "value", "bounding_regions", "spans", "confidence"}
  {
    JObj(map["value_type" := f.valueType, "value" := f.value,
             "bounding_regions" := JArr(EncodeAll(f.boundingRegions, RegionToJson)),
             "spans" := JArr(EncodeAll(f.spans, SpanToJson)),
             "confidence" := f.confidence])
  }

  function FieldFromJson(j: Json): (r: Result<DocumentField, DecodeError>)
    ensures !j.JObj? ==> r == Failure(NotAnObject)
  {
    if !j.JObj? then Failure(NotAnObject)
    else
      var m := j.fields;
      var regions :- ListField(m, "bounding_regions", RegionFromJson);
      var spans :- ListField(m, "spans", SpanFromJson);
      Success(DocumentField(Get(m, "value_type"), Get(m, "value"), regions, spans, Get(m, "confidence")))
  }

  lemma FieldRoundTrip(f: DocumentField)
    ensures FieldFromJson(FieldToJson(f)) == Success(f)
  {
    RegionsAndSpansRoundTrip(FieldToJson(f).fields, f.boundingRegions, f.spans);
  }

  // ---------------------------------------------------------------- Document

  datatype Document = Document(docType: Json, boundingRegions: seq<BoundingRegion>, spans: seq<Span>,
                               fields: seq<DocumentField>, confidence: Json)

  function DocumentToJson(d: Document): (j: Json)
    ensures j.JObj? && j.fields.Keys == {"doc_type", "bounding_regions", "spans", "fields", "confidence"}
  {
    JObj(map["doc_type" := d.docType,
             "bounding_regions" := JArr(EncodeAll(d.boundingRegions, RegionToJson)),
             "spans" := JArr(EncodeAll(d.spans, SpanToJson)),
             "fields" := JArr(EncodeAll(d.fields, FieldToJson)),
             "confidence" := d.confidence])
  }

  function DocumentFromJson(j: Json): (r: Result<Document, DecodeError>)
    ensures !j.JObj? ==> r == Failure(NotAnObject)
  {
    if !j.JObj? then Failure(NotAnObject)
    else
      var m := j.fields;
      var regions :- ListField(m, "bounding_regions", RegionFromJson);
      var spans :- ListField(m, "spans", SpanFromJson);
      var fields :- ListField(m, "fields", FieldFromJson);
      Success(Document(Get(m, "doc_type"), regions, spans, fields, Get(m, "confidence")))
  }

  lemma DocumentRoundTrip(d: Document)
    ensures DocumentFromJson(DocumentToJson(d)) == Success(d)
  {
    var m := DocumentToJson(d).fields;
    RegionsAndSpansRoundTrip(m, d.boundingRegions, d.spans);
    forall f | f in d.fields ensures FieldFromJson(FieldToJson(f)) == Success(f) {
      FieldRoundTrip(f);
    }
    ListFieldOfEncodedExact(m, "fields", d.fields, FieldToJson, FieldFromJson);
  }

  // ---------------------------------------------------------------- Warning

  datatype Warning = Warning(code: Json, message: Json, target: Json)

  function WarningToJson(w: Warning): (j: Json)
    ensures j.JObj? && j.fields.Keys == {"code", "message", "target"}
  {
    JObj(map["code" := w.code, "message" := w.message, "target" := w.target])
  }

  function WarningFromJson(j: Json): (r: Result<Warning, DecodeError>)
    ensures r.Success? <==> j.JObj?
  {
    if !j.JObj? then Failure(NotAnObject)
    else Success(Warning(Get(j.fields, "code"), Get(j.fields, "message"), Get(j.fields, "target")))
  }

  lemma WarningRoundTrip(w: Warning)
    ensures WarningFromJson(WarningToJson(w)) == Success(w)
  {
  }

  // ---------------------------------------------------------------- Analysis

  /** The whole analysis: the document's markdown and the ten entity lists. */
  datatype Analysis = Analysis(markdown: Json, pages: seq<Page>, paragraphs: seq<Paragraph>, tables: seq<Table>,
                               figures: seq<Figure>, sections: seq<Section>, keyValuePairs: seq<KeyValuePair>,
                               languages: seq<Language>, styles: seq<Style>, documents: seq<Document>,
                               warnings: seq<Warning>)

  /** The eleven top-level keys of a saved analysis. */
  const AnalysisKeys: set<string> :=
    {"markdown", "pages", "paragraphs", "tables", "figures", "sections", "key_value_pairs", "languages",
     "styles", "documents", "warnings"}

  function AnalysisToJson(a: Analysis): (j: Json)
    ensures j.JObj? && j.fields.Keys == AnalysisKeys
  {
    JObj(map["markdown" := a.markdown,
             "pages" := JArr(EncodeAll(a.pages, PageToJson)),
             "paragraphs" := JArr(EncodeAll(a.paragraphs, ParagraphToJson)),
             "tables" := JArr(EncodeAll(a.tables, TableToJson)),
             "figures" := JArr(EncodeAll(a.figures, FigureToJson)),
             "sections" := JArr(EncodeAll(a.sections, SectionToJson)),
             "key_value_pairs" := JArr(EncodeAll(a.keyValuePairs, PairToJson)),
             "languages" := JArr(EncodeAll(a.languages, LanguageToJson)),
             "styles" := JArr(EncodeAll(a.styles, StyleToJson)),
             "documents" := JArr(EncodeAll(a.documents, DocumentToJson)),
             "warnings" := JArr(EncodeAll(a.warnings, WarningToJson))])
  }

  function AnalysisFromJson(j: Json): (r: Result<Analysis, DecodeError>)
    ensures !j.JObj? ==> r == Failure(NotAnObject)
  {
    if !j.JObj? then Failure(NotAnObject)
    else
      var m := j.fields;
      var pages :- ListField(m, "pages", PageFromJson);
      var paragraphs :- ListField(m, "paragraphs", ParagraphFromJson);
      var tables :- ListField(m, "tables", TableFromJson);
      var figures :- ListField(m, "figures", FigureFromJson);
      var sections :- ListField(m, "sections", SectionFromJson);
      var pairs :- ListField(m, "key_value_pairs", PairFromJson);
      var languages :- ListField(m, "languages", LanguageFromJson);
      var styles :- ListField(m, "styles", StyleFromJson);
      var documents :- ListField(m, "documents", DocumentFromJson);
      var warnings :- ListField(m, "warnings", WarningFromJson);
      Success(Analysis(Get(m, "markdown"), pages, paragraphs, tables, figures, sections, pairs, languages,
                       styles, documents, warnings))
  }

  /** What an analysis is after a save and a reload. */
  function AnalysisReloaded(a: Analysis): Analysis {
    a.(tables := MapSeq(a.tables, TableReloaded), figures := MapSeq(a.figures, FigureReloaded))
  }

  lemma PagesAndParagraphsRoundTrip(m: map<string, Json>, a: Analysis)
    requires "pages" in m && m["pages"] == JArr(EncodeAll(a.pages, PageToJson))
    requires "paragraphs" in m && m["paragraphs"] == JArr(EncodeAll(a.paragraphs, ParagraphToJson))
    ensures ListField(m, "pages", PageFromJson) == Success(a.pages)
    ensures ListField(m, "paragraphs", ParagraphFromJson) == Success(a.paragraphs)
  {
    forall x | x in a.pages ensures PageFromJson(PageToJson(x)) == Success(x) {
      PageRoundTrip(x);
    }
    forall x | x in a.paragraphs ensures ParagraphFromJson(ParagraphToJson(x)) == Success(x) {
      ParagraphRoundTrip(x);
    }
    ListFieldOfEncodedExact(m, "pages", a.pages, PageToJson, PageFromJson);
    ListFieldOfEncodedExact(m, "paragraphs", a.paragraphs, ParagraphToJson, ParagraphFromJson);
  }

  lemma TablesAndFiguresRoundTrip(m: map<string, Json>, a: Analysis)
    requires "tables" in m && m["tables"] == JArr(EncodeAll(a.tables, TableToJson))
    requires "figures" in m && m["figures"] == JArr(EncodeAll(a.figures, FigureToJson))
    ensures ListField(m, "tables", TableFromJson) == Success(MapSeq(a.tables, TableReloaded))
    ensures ListField(m, "figures", FigureFromJson) == Success(MapSeq(a.figures, FigureReloaded))
  {
    forall x | x in a.tables ensures TableFromJson(TableToJson(x)) == Success(TableReloaded(x)) {
      TableRoundTrip(x);
    }
    forall x | x in a.figures ensures FigureFromJson(FigureToJson(x)) == Success(FigureReloaded(x)) {
      FigureRoundTrip(x);
    }
    ListFieldOfEncoded(m, "tables", a.tables, TableToJson, TableFromJson, TableReloaded);
    ListFieldOfEncoded(m, "figures", a.figures, FigureToJson, FigureFromJson, FigureReloaded);
  }

  lemma SectionsAndPairsRoundTrip(m: map<string, Json>, a: Analysis)
    requires "sections" in m && m["sections"] == JArr(EncodeAll(a.sections, SectionToJson))
    requires "key_value_pairs" in m && m["key_value_pairs"] == JArr(EncodeAll(a.keyValuePairs, PairToJson))
    requires "languages" in m && m["languages"] == JArr(EncodeAll(a.languages, LanguageToJson))
    ensures ListField(m, "sections", SectionFromJson) == Success(a.sections)
    ensures ListField(m, "key_value_pairs", PairFromJson) == Success(a.keyValuePairs)
    ensures ListField(m, "languages", LanguageFromJson) == Success(a.languages)
  {
    forall x | x in a.sections ensures SectionFromJson(SectionToJson(x)) == Success(x) {
      SectionRoundTrip(x);
    }
    forall x | x in a.keyValuePairs ensures PairFromJson(PairToJson(x)) == Success(x) {
      PairRoundTrip(x);
    }
    forall x | x in a.languages ensures LanguageFromJson(LanguageToJson(x)) == Success(x) {
      LanguageRoundTrip(x);
    }
    ListFieldOfEncodedExact(m, "sections", a.sections, SectionToJson, SectionFromJson);
    ListFieldOfEncodedExact(m, "key_value_pairs", a.keyValuePairs, PairToJson, PairFromJson);
    ListFieldOfEncodedExact(m, "languages", a.languages, LanguageToJson, LanguageFromJson);
  }

  lemma StylesDocumentsWarningsRoundTrip(m: map<string, Json>, a: Analysis)
    requires "styles" in m && m["styles"] == JArr(EncodeAll(a.styles, StyleToJson))
    requires "documents" in m && m["documents"] == JArr(EncodeAll(a.documents, DocumentToJson))
    requires "warnings" in m && m["warnings"] == JArr(EncodeAll(a.warnings, WarningToJson))
    ensures ListField(m, "styles", StyleFromJson) == Success(a.styles)
    ensures ListField(m, "documents", DocumentFromJson) == Success(a.documents)
    ensures ListField(m, "warnings", WarningFromJson) == Success(a.warnings)
  {
    forall x | x in a.styles ensures StyleFromJson(StyleToJson(x)) == Success(x) {
      StyleRoundTrip(x);
    }
    forall x | x in a.documents ensures DocumentFromJson(DocumentToJson(x)) == Success(x) {
      DocumentRoundTrip(x);
    }
    forall x | x in a.warnings ensures WarningFromJson(WarningToJson(x)) == Success(x) {
      WarningRoundTrip(x);
    }
    ListFieldOfEncodedExact(m, "styles", a.styles, StyleToJson, StyleFromJson);
    ListFieldOfEncodedExact(m, "documents", a.documents, DocumentToJson, DocumentFromJson);
    ListFieldOfEncodedExact(m, "warnings", a.warnings, WarningToJson, WarningFromJson);
  }

  /** An object whose keys each decode to the attribute of `b` loads as
      `b`. */
  lemma AnalysisFromDecodedKeys(m: map<string, Json>, b: Analysis)
    requires Get(m, "markdown") == b.markdown
    requires ListField(m, "pages", PageFromJson) == Success(b.pages)
    requires ListField(m, "paragraphs", ParagraphFromJson) == Success(b.paragraphs)
    requires ListField(m, "tables", TableFromJson) == Success(b.tables)
    requires ListField(m, "figures", FigureFromJson) == Success(b.figures)
    requires ListField(m, "sections", SectionFromJson) == Success(b.sections)
    requires ListField(m, "key_value_pairs", PairFromJson) == Success(b.keyValuePairs)
    requires ListField(m, "languages", LanguageFromJson) == Success(b.languages)
    requires ListField(m, "styles", StyleFromJson) == Success(b.styles)
    requires ListField(m, "documents", DocumentFromJson) == Success(b.documents)
    requires ListField(m, "warnings", WarningFromJson) == Success(b.warnings)
    ensures AnalysisFromJson(JObj(m)) == Success(b)
  {
  }

  /** Saving and reloading an analysis keeps everything except the
      attributes the codec never writes: tables lose their footnotes,
      figures their `elements` and `id`, cells and footnotes their
      `elements`. */
  lemma AnalysisRoundTrip(a: Analysis)
    ensures AnalysisFromJson(AnalysisToJson(a)) == Success(AnalysisReloaded(a))
  {
    var m := AnalysisToJson(a).fields;
    AnalysisFirstFields(a);
    PagesAndParagraphsRoundTrip(m, a);
    TablesAndFiguresRoundTrip(m, a);
    AnalysisLaterFields(a);
    SectionsAndPairsRoundTrip(m, a);
    StylesDocumentsWarningsRoundTrip(m, a);
    AnalysisFromDecodedKeys(m, AnalysisReloaded(a));
  }

  lemma AnalysisFirstFields(a: Analysis)
    ensures var m := AnalysisToJson(a).fields;
            && Get(m, "markdown") == a.markdown
            && "pages" in m && m["pages"] == JArr(EncodeAll(a.pages, PageToJson))
            && "paragraphs" in m && m["paragraphs"] == JArr(EncodeAll(a.paragraphs, ParagraphToJson))
            && "tables" in m && m["tables"] == JArr(EncodeAll(a.tables, TableToJson))
            && "figures" in m && m["figures"] == JArr(EncodeAll(a.figures, FigureToJson))
  {
  }

  lemma AnalysisLaterFields(a: Analysis)
    ensures var m := AnalysisToJson(a).fields;
            && "sections" in m && m["sections"] == JArr(EncodeAll(a.sections, SectionToJson))
            && "key_value_pairs" in m && m["key_value_pairs"] == JArr(EncodeAll(a.keyValuePairs, PairToJson))
            && "languages" in m && m["languages"] == JArr(EncodeAll(a.languages, LanguageToJson))
            && "styles" in m && m["styles"] == JArr(EncodeAll(a.styles, StyleToJson))
            && "documents" in m && m["documents"] == JArr(EncodeAll(a.documents, DocumentToJson))
            && "warnings" in m && m["warnings"] == JArr(EncodeAll(a.warnings, WarningToJson))
  {
  }

  /** An empty object loads as an analysis with no markdown and no
      entities. */
  lemma AnalysisDefaults()
    ensures AnalysisFromJson(JObj(map[])) == Success(Analysis(JNull, [], [], [], [], [], [], [], [], [], []))
  {
  }

  /** A word, barcode or formula without a `span` object cannot be loaded,
      although every other attribute is optional. */
  lemma SpanIsRequired(m: map<string, Json>)
    requires !Get(m, "span").JObj?
    ensures WordFromJson(JObj(m)) == Failure(NotAnObject)
    ensures BarcodeFromJson(JObj(m)) == Failure(NotAnObject)
    ensures FormulaFromJson(JObj(m)) == Failure(NotAnObject)
  {
  }
}
