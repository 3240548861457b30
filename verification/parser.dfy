/** The figure reconciliation of `DocumentParser.parse`: one replacement
    record per figure span (with the caption cut out of the span's markdown),
    image descriptions matched back to the records by figure index, the
    records sorted by descending start, and each span's markdown replaced by
    a description block. Then the document title. */
module Parser {
  import opened Wrappers
  import opened PyStr
  import opened JsonValue
  import DocIntel
  import ImageAnalysis

  /* ---------------------------------------------------------------------
     Captions
     --------------------------------------------------------------------- */

  const FigureOpen: string := "<figure>"
  const FigureClose: string := "</figure>"
  const CaptionOpen: string := "<figcaption>"
  const CaptionClose: string := "</figcaption>"

  /** `pat` first occurs in `s` at `i`. */
  predicate FirstAt(s: string, pat: string, i: nat) {
    OccursAt(s, pat, i) && forall k :: 0 <= k < i ==> !OccursAt(s, pat, k)
  }

  /** Where the caption starts: just past the first `<figure>` if there is
      one, else just past the first `<figcaption>`, else 0. It is never -1,
      so the source's later tests of a -1 start never fire. */
  function OpeningEnd(content: string): (s: nat)
    ensures s <= |content|
  {
    if Contains(content, FigureOpen) then Find(content, FigureOpen) + |FigureOpen|
    else if Contains(content, CaptionOpen) then Find(content, CaptionOpen) + |CaptionOpen|
    else 0
  }

  /** Where the caption ends: at the first `</figure>` if there is one, else
      at the first `</figcaption>`, else -1. */
  function ClosingStart(content: string): (e: int)
    ensures -1 <= e <= |content|
  {
    if Contains(content, FigureClose) then Find(content, FigureClose)
    else if Contains(content, CaptionClose) then Find(content, CaptionClose)
    else -1
  }

  /** The bounds of the caption inside a figure's markdown. Without a
      closing tag, or with the opening tag after the closing one, the whole
      text is the caption. */
  function CaptionBounds(content: string): (b: (nat, nat))
    ensures b.0 <= b.1 <= |content|
    ensures !Contains(content, FigureClose) && !Contains(content, CaptionClose) ==> b == (0, |content|)
  {
    var start := OpeningEnd(content);
    var end := ClosingStart(content);
    if end == -1 then (0, |content|)
    else if start > end then (0, |content|)
    else (start, end)
  }

  /** `Find` answers the first occurrence. */
  lemma FindFirst(s: string, pat: string, i: nat)
    requires FirstAt(s, pat, i)
    ensures Contains(s, pat) && Find(s, pat) == i
  {
    assert Occurs(s, pat);
  }

  /** `<figure>` and `</figure>` take precedence over `<figcaption>` and
      `</figcaption>`: whatever figcaption tags the text holds, the caption
      runs from just past the first `<figure>` to the first `</figure>`. */
  lemma FigureTagsTakePrecedence(content: string, i: nat, j: nat)
    requires FirstAt(content, FigureOpen, i) && FirstAt(content, FigureClose, j)
    requires i + |FigureOpen| <= j
    ensures CaptionBounds(content) == (i + |FigureOpen|, j)
  {
    FindFirst(content, FigureOpen, i);
    FindFirst(content, FigureClose, j);
  }

  /** Without figure tags, the figcaption tags delimit the caption. */
  lemma FigcaptionTagsDelimit(content: string, i: nat, j: nat)
    requires !Contains(content, FigureOpen) && !Contains(content, FigureClose)
    requires FirstAt(content, CaptionOpen, i) && FirstAt(content, CaptionClose, j)
    requires i + |CaptionOpen| <= j
    ensures CaptionBounds(content) == (i + |CaptionOpen|, j)
  {
    FindFirst(content, CaptionOpen, i);
    FindFirst(content, CaptionClose, j);
  }

  /** The tags mix: an opening `<figure>` pairs with a closing
      `</figcaption>` when there is no `</figure>`. */
  lemma FigureOpenPairsWithFigcaptionClose(content: string, i: nat, j: nat)
    requires !Contains(content, FigureClose)
    requires FirstAt(content, FigureOpen, i) && FirstAt(content, CaptionClose, j)
    requires i + |FigureOpen| <= j
    ensures CaptionBounds(content) == (i + |FigureOpen|, j)
  {
    FindFirst(content, FigureOpen, i);
    FindFirst(content, CaptionClose, j);
  }

  /** Without an opening tag the caption starts at the beginning and runs
      to the closing tag. */
  lemma NoOpeningTagStartsAtZero(content: string, j: nat)
    requires !Contains(content, FigureOpen) && !Contains(content, CaptionOpen)
    requires FirstAt(content, FigureClose, j)
    ensures CaptionBounds(content) == (0, j)
  {
    FindFirst(content, FigureClose, j);
  }

  /** An opening tag whose end lies past the closing tag makes the whole
      text the caption. */
  lemma InvertedTagsTakeWholeText(content: string, i: nat, j: nat)
    requires FirstAt(content, FigureOpen, i) && FirstAt(content, FigureClose, j)
    requires i + |FigureOpen| > j
    ensures CaptionBounds(content) == (0, |content|)
  {
    FindFirst(content, FigureOpen, i);
    FindFirst(content, FigureClose, j);
  }

  /** The caption stored for a span's markdown: the text between the tags,
      stripped, and then with every escaped newline replaced by a space. */
  function Caption(content: string): (c: string)
    ensures forall i :: !OccursAt(c, EscapedNewline, i)
    ensures var b := CaptionBounds(content);
            c == JoinOn(SplitOn(Strip(content[b.0..b.1]), EscapedNewline), " ")
  {
    var b := CaptionBounds(content);
    ReplaceEscapesRemovesAll(Strip(content[b.0..b.1]));
    ReplaceIsJoinOfSplit(Strip(content[b.0..b.1]), EscapedNewline, " ");
    ReplaceAll(Strip(content[b.0..b.1]), EscapedNewline, " ")
  }

  /** Between a `<figure>` and the first `</figure>` after it, the caption
      is the stripped text with each escaped newline turned into a space. */
  lemma CaptionBetweenFigureTags(content: string, i: nat, j: nat)
    requires FirstAt(content, FigureOpen, i) && FirstAt(content, FigureClose, j)
    requires i + |FigureOpen| <= j
    ensures Caption(content) == JoinOn(SplitOn(Strip(content[i + |FigureOpen|..j]), EscapedNewline), " ")
  {
    FigureTagsTakePrecedence(content, i, j);
  }

  /** Text without tags and without escaped newlines is its own caption,
      stripped. */
  lemma PlainTextCaption(content: string)
    requires !Contains(content, FigureClose) && !Contains(content, CaptionClose)
    requires forall k :: !OccursAt(Strip(content), EscapedNewline, k)
    ensures Caption(content) == Strip(content)
  {
    assert content[0..|content|] == content;
    ReplaceAbsent(Strip(content), EscapedNewline, " ");
  }

  /** Stripping happens before the escapes are replaced, so an escaped
      newline that opens the stripped caption text leaves a space at the
      start of the caption: a caption can start with whitespace. */
  lemma CaptionStripsBeforeReplacing(content: string)
    requires var b := CaptionBounds(content); OccursAt(Strip(content[b.0..b.1]), EscapedNewline, 0)
    ensures |Caption(content)| > 0 && Caption(content)[0] == ' '
  {
    var b := CaptionBounds(content);
    var t := Strip(content[b.0..b.1]);
    ReplaceAtFront(t, EscapedNewline, " ");
    assert Caption(content) == t[..0] + " " + ReplaceAll(t[|EscapedNewline|..], EscapedNewline, " ");
  }

  /* ---------------------------------------------------------------------
     Replacement records
     --------------------------------------------------------------------- */

  /** One replacement: the caption of a figure span, the span's range in
      the markdown, the index of its figure, and the description and image
      name the block will show. */
  datatype Replacement = Replacement(content: string, start: int, end: int, figureId: nat,
                                     description: Option<string>, imageName: string)

  /** Why the reconciliation raises: a span offset or length that is not an
      integer cannot bound a slice, and a missing description cannot be
      concatenated (both Python's TypeError). */
  datatype ParseError = SpanNotInteger | DescriptionMissing

  /** The description every record starts with. */
  const NoDescription: string := "<!-- No description available -->"

  predicate IntegralSpan(span: DocIntel.Span) {
    span.offset.JInt? && span.length.JInt?
  }

  /** A span together with the index of the figure it belongs to. */
  datatype Placed = Placed(figureId: nat, span: DocIntel.Span)

  /** The spans of every figure, figure by figure and in span order within
      a figure, as the nested loops over figures and their spans visit
      them. */
  function FlatSpans(figures: seq<DocIntel.Figure>): (r: seq<Placed>)
    ensures |r| == SpanTotal(figures)
    ensures forall k :: 0 <= k < |r| ==> r[k].figureId < |figures|
    ensures forall j, k :: 0 <= j < k < |r| ==> r[j].figureId <= r[k].figureId
  {
    if |figures| == 0 then []
    else
      var n := |figures| - 1;
      FlatSpans(figures[..n]) + PlaceAll(figures[n].spans, n)
  }

  /** The spans of figure `figureId`, each placed in it. */
  function PlaceAll(spans: seq<DocIntel.Span>, figureId: nat): (r: seq<Placed>)
    ensures |r| == |spans|
    ensures forall k :: 0 <= k < |r| ==> r[k] == Placed(figureId, spans[k])
  {
    seq(|spans|, k requires 0 <= k < |spans| => Placed(figureId, spans[k]))
  }

  /** How many spans the figures have between them. */
  function SpanTotal(figures: seq<DocIntel.Figure>): nat {
    if |figures| == 0 then 0 else SpanTotal(figures[..|figures| - 1]) + |figures[|figures| - 1].spans|
  }

  /** The spans placed in figure `figureId`, in order. */
  function SpansOf(placed: seq<Placed>, figureId: nat): seq<DocIntel.Span> {
    if |placed| == 0 then []
    else SpansOf(placed[..|placed| - 1], figureId)
         + (if placed[|placed| - 1].figureId == figureId then [placed[|placed| - 1].span] else [])
  }

  /** Every placed span has integer offset and length. */
  predicate AllIntegral(placed: seq<Placed>) {
    forall k :: 0 <= k < |placed| ==> IntegralSpan(placed[k].span)
  }

  /** The record of one span: its caption and range, the placeholder
      description and no image name. */
  function SpanRecord(markdown: string, p: Placed): (rec: Replacement)
    requires IntegralSpan(p.span)
    ensures rec.content == Caption(Slice(markdown, rec.start, rec.end))
  {
    var start := p.span.offset.i;
    var end := p.span.offset.i + p.span.length.i;
    Replacement(Caption(Slice(markdown, start, end)), start, end, p.figureId, Some(NoDescription), "")
  }

  /** The records built for every span of every figure, before any image
      has been described: one per span, in the order the spans are visited,
      each holding the caption of its span's text, the placeholder
      description and no image name. A span whose
      offset or length is not an integer stops the whole parse. */
  function MakeRecords(markdown: string, figures: seq<DocIntel.Figure>): (r: Result<seq<Replacement>, ParseError>)
    ensures r.Success? <==> AllIntegral(FlatSpans(figures))
    ensures r.Failure? ==> r.error == SpanNotInteger
    ensures r.Success? ==> |r.value| == SpanTotal(figures)
    ensures r.Success? ==> forall k :: 0 <= k < |r.value| ==>
              var p := FlatSpans(figures)[k];
              && r.value[k].figureId == p.figureId && r.value[k].figureId < |figures|
              && r.value[k].start == p.span.offset.i && r.value[k].end == p.span.offset.i + p.span.length.i
              && r.value[k].description == Some(NoDescription) && r.value[k].imageName == ""
    ensures r.Success? ==> forall k :: 0 <= k < |r.value| ==>
              r.value[k].content == Caption(Slice(markdown, r.value[k].start, r.value[k].end))
  {
    var placed := FlatSpans(figures);
    if AllIntegral(placed) then
      Success(seq(|placed|, k requires 0 <= k < |placed| => SpanRecord(markdown, placed[k])))
    else Failure(SpanNotInteger)
  }

  lemma {:induction false} SpansOfConcat(a: seq<Placed>, b: seq<Placed>, figureId: nat)
    ensures SpansOf(a + b, figureId) == SpansOf(a, figureId) + SpansOf(b, figureId)
    decreases |b|
  {
    if |b| == 0 {
      assert a + b == a;
    } else {
      var n := |b| - 1;
      assert (a + b)[..|a + b| - 1] == a + b[..n];
      assert (a + b)[|a + b| - 1] == b[n];
      SpansOfConcat(a, b[..n], figureId);
    }
  }

  lemma {:induction false} SpansOfPlaceAll(spans: seq<DocIntel.Span>, n: nat, figureId: nat)
    ensures SpansOf(PlaceAll(spans, n), figureId) == if figureId == n then spans else []
    decreases |spans|
  {
    if |spans| > 0 {
      var m := |spans| - 1;
      assert PlaceAll(spans, n)[..m] == PlaceAll(spans[..m], n);
      SpansOfPlaceAll(spans[..m], n, figureId);
      assert spans[..m] + [spans[m]] == spans;
    }
  }

  /** Every figure gets one placed span per span it has, in its own order,
      and no placed span names a figure that does not exist. */
  lemma {:induction false} FlatSpansOfFigure(figures: seq<DocIntel.Figure>, figureId: nat)
    ensures SpansOf(FlatSpans(figures), figureId) == if figureId < |figures| then figures[figureId].spans else []
    decreases |figures|
  {
    if |figures| > 0 {
      var n := |figures| - 1;
      var init := FlatSpans(figures[..n]);
      var last := PlaceAll(figures[n].spans, n);
      assert FlatSpans(figures) == init + last;
      FlatSpansOfFigure(figures[..n], figureId);
      SpansOfConcat(init, last, figureId);
      SpansOfPlaceAll(figures[n].spans, n, figureId);
      if figureId < n {
        assert figures[..n][figureId] == figures[figureId];
      }
    }
  }

  /* ---------------------------------------------------------------------
     Matching descriptions back to records
     --------------------------------------------------------------------- */

  /** What a finished image task hands back: the figure index, the
      description (possibly None) and the image name. */
  datatype TaskResult = TaskResult(figureId: nat, description: Option<string>, imageName: string)

  /** The description stored when analysing an image raised. */
  const AnalysisFailed: string := "<!-- There was an error analysing the image -->"

  /** The description an image task produces from the analysis outcome:
      an analysis that raised becomes the error placeholder, and whatever
      the analysis returned, None included, is passed on. */
  function Describe(outcome: ImageAnalysis.Outcome): (d: Option<string>)
    ensures d.None? <==> outcome == ImageAnalysis.Returned(None)
    ensures outcome.Raises? ==> d == Some(AnalysisFailed)
    ensures outcome.Returned? && outcome.content.Some? ==> d == outcome.content
  {
    match outcome
    case Returned(content) => content
    case Raises(_) => Some(AnalysisFailed)
  }

  /** The index of the first record of figure `figureId`, or `|records|`. */
  function FirstWithFigure(records: seq<Replacement>, figureId: nat): (k: nat)
    ensures k <= |records|
    ensures k < |records| ==> records[k].figureId == figureId
    ensures forall j :: 0 <= j < k ==> records[j].figureId != figureId
  {
    if |records| == 0 then 0
    else if records[0].figureId == figureId then 0
    else 1 + FirstWithFigure(records[1..], figureId)
  }

  /** The records have the same figure indices, position by position. */
  predicate SameFigures(a: seq<Replacement>, b: seq<Replacement>) {
    |a| == |b| && forall k :: 0 <= k < |a| ==> a[k].figureId == b[k].figureId
  }

  /** Only the description and image name of a record are ever updated. */
  predicate OnlyDescribed(a: seq<Replacement>, b: seq<Replacement>) {
    |a| == |b| && forall k :: 0 <= k < |a| ==> b[k] == a[k].(description := b[k].description, imageName := b[k].imageName)
  }

  lemma FirstWithFigureSameFigures(a: seq<Replacement>, b: seq<Replacement>, figureId: nat)
    requires SameFigures(a, b)
    ensures FirstWithFigure(a, figureId) == FirstWithFigure(b, figureId)
  {
  }

  /** One finished task: the first record of its figure takes its
      description and image name. */
  function ApplyResult(records: seq<Replacement>, t: TaskResult): (r: seq<Replacement>)
    ensures OnlyDescribed(records, r)
  {
    var k := FirstWithFigure(records, t.figureId);
    if k < |records| then records[k := records[k].(description := t.description, imageName := t.imageName)]
    else records
  }

  /** Every finished task in submission order. */
  function Correlate(records: seq<Replacement>, tasks: seq<TaskResult>): (r: seq<Replacement>)
    ensures OnlyDescribed(records, r)
    decreases |tasks|
  {
    if |tasks| == 0 then records
    else ApplyResult(Correlate(records, tasks[..|tasks| - 1]), tasks[|tasks| - 1])
  }

  /** The last task for figure `figureId`, if any. */
  function LastResultFor(tasks: seq<TaskResult>, figureId: nat): (t: Option<TaskResult>)
    ensures t.None? <==> forall i :: 0 <= i < |tasks| ==> tasks[i].figureId != figureId
  {
    if |tasks| == 0 then None
    else if tasks[|tasks| - 1].figureId == figureId then Some(tasks[|tasks| - 1])
    else
      var t := LastResultFor(tasks[..|tasks| - 1], figureId);
      assert forall i :: 0 <= i < |tasks| - 1 ==> tasks[..|tasks| - 1][i] == tasks[i];
      t
  }

  /** The task `LastResultFor` finds is one for the figure with no later
      task for it. */
  lemma {:induction false} LastResultForIsLast(tasks: seq<TaskResult>, figureId: nat)
    ensures var t := LastResultFor(tasks, figureId);
            t.Some? ==> exists i :: 0 <= i < |tasks| && tasks[i] == t.value && t.value.figureId == figureId
                                    && forall j :: i < j < |tasks| ==> tasks[j].figureId != figureId
    decreases |tasks|
  {
    if |tasks| > 0 && tasks[|tasks| - 1].figureId != figureId {
      var prefix := tasks[..|tasks| - 1];
      LastResultForIsLast(prefix, figureId);
      var t := LastResultFor(prefix, figureId);
      if t.Some? {
        var i :| 0 <= i < |prefix| && prefix[i] == t.value && t.value.figureId == figureId
                 && forall j :: i < j < |prefix| ==> prefix[j].figureId != figureId;
        assert tasks[i] == t.value;
      }
    }
  }

  /** What correlation leaves in record `k`: the last task of its figure
      if `k` is that figure's first record, the record unchanged
      otherwise. */
  function Expected(records: seq<Replacement>, tasks: seq<TaskResult>, k: nat): Replacement
    requires k < |records|
  {
    var figureId := records[k].figureId;
    var last := LastResultFor(tasks, figureId);
    if k == FirstWithFigure(records, figureId) && last.Some? then
      records[k].(description := last.value.description, imageName := last.value.imageName)
    else records[k]
  }

  /** Correlation is last-writer-wins on each figure's first record: a
      figure analysed several times (one task per bounding region) keeps
      the result submitted last, and every other record of the figure keeps
      its placeholder. */
  lemma {:induction false} CorrelateLastWins(records: seq<Replacement>, tasks: seq<TaskResult>)
    ensures |Correlate(records, tasks)| == |records|
    ensures forall k :: 0 <= k < |records| ==> Correlate(records, tasks)[k] == Expected(records, tasks, k)
    decreases |tasks|
  {
    if |tasks| > 0 {
      var n := |tasks| - 1;
      CorrelateLastWins(records, tasks[..n]);
      forall k | 0 <= k < |records|
        ensures Correlate(records, tasks)[k] == Expected(records, tasks, k)
      {
        CorrelateStepAt(records, tasks, k);
      }
    }
  }

  /** One more task changes record `k` exactly as `Expected` says, given
      that the earlier tasks left it as `Expected` says. */
  lemma CorrelateStepAt(records: seq<Replacement>, tasks: seq<TaskResult>, k: nat)
    requires |tasks| > 0 && k < |records|
    requires Correlate(records, tasks[..|tasks| - 1])[k] == Expected(records, tasks[..|tasks| - 1], k)
    ensures Correlate(records, tasks)[k] == Expected(records, tasks, k)
  {
    CorrelateStepSame(records, tasks, k);
    CorrelateStepOther(records, tasks, k);
  }

  /** The last task is for record `k`'s figure. */
  lemma CorrelateStepSame(records: seq<Replacement>, tasks: seq<TaskResult>, k: nat)
    requires |tasks| > 0 && k < |records|
    requires Correlate(records, tasks[..|tasks| - 1])[k] == Expected(records, tasks[..|tasks| - 1], k)
    ensures tasks[|tasks| - 1].figureId == records[k].figureId ==>
              Correlate(records, tasks)[k] == Expected(records, tasks, k)
  {
  }

  /** The last task is for another figure. */
  lemma CorrelateStepOther(records: seq<Replacement>, tasks: seq<TaskResult>, k: nat)
    requires |tasks| > 0 && k < |records|
    requires Correlate(records, tasks[..|tasks| - 1])[k] == Expected(records, tasks[..|tasks| - 1], k)
    ensures tasks[|tasks| - 1].figureId != records[k].figureId ==>
              Correlate(records, tasks)[k] == Expected(records, tasks, k)
  {
  }

  /* ---------------------------------------------------------------------
     Sorting by descending start
     --------------------------------------------------------------------- */

  predicate SortedByStartDesc(s: seq<Replacement>) {
    forall i, j :: 0 <= i < j < |s| ==> s[i].start >= s[j].start
  }

  /** The records starting at `v`, in order. */
  function WithStart(s: seq<Replacement>, v: int): seq<Replacement> {
    if |s| == 0 then []
    else WithStart(s[..|s| - 1], v) + (if s[|s| - 1].start == v then [s[|s| - 1]] else [])
  }

  /** Inserts `x` after every record starting at or after it. */
  function InsertByStart(x: Replacement, s: seq<Replacement>): (r: seq<Replacement>)
    requires SortedByStartDesc(s)
    ensures SortedByStartDesc(r)
    ensures multiset(r) == multiset(s) + multiset{x}
    ensures |r| == |s| + 1
  {
    if |s| == 0 then [x]
    else if s[0].start >= x.start then
      var rest := InsertByStart(x, s[1..]);
      StartsBoundedByHead(x, s, rest);
      assert s == [s[0]] + s[1..];
      [s[0]] + rest
    else
      [x] + s
  }

  /** Inserting `x` behind the head of a sorted list puts nothing after
      the head that starts later than it. */
  lemma StartsBoundedByHead(x: Replacement, s: seq<Replacement>, rest: seq<Replacement>)
    requires |s| > 0 && SortedByStartDesc(s) && s[0].start >= x.start
    requires multiset(rest) == multiset(s[1..]) + multiset{x}
    ensures forall k :: 0 <= k < |rest| ==> rest[k].start <= s[0].start
  {
    forall k | 0 <= k < |rest| ensures rest[k].start <= s[0].start {
      assert rest[k] in multiset(rest);
      if rest[k] != x {
        assert rest[k] in multiset(s[1..]);
        var m :| 0 <= m < |s[1..]| && s[1..][m] == rest[k];
        assert s[m + 1] == rest[k];
      }
    }
  }

  /** Python's `sort(key=start, reverse=True)`: descending by start, and
      stable, so records with equal starts keep their order. */
  function SortByStartDesc(xs: seq<Replacement>): (r: seq<Replacement>)
    ensures SortedByStartDesc(r)
    ensures multiset(r) == multiset(xs)
    ensures |r| == |xs|
  {
    if |xs| == 0 then []
    else
      var n := |xs| - 1;
      assert xs == xs[..n] + [xs[n]];
      InsertByStart(xs[n], SortByStartDesc(xs[..n]))
  }

  lemma {:induction false} WithStartConcat(a: seq<Replacement>, b: seq<Replacement>, v: int)
    ensures WithStart(a + b, v) == WithStart(a, v) + WithStart(b, v)
    decreases |b|
  {
    if |b| == 0 {
      assert a + b == a;
    } else {
      var n := |b| - 1;
      assert (a + b)[..|a + b| - 1] == a + b[..n];
      assert (a + b)[|a + b| - 1] == b[n];
      WithStartConcat(a, b[..n], v);
    }
  }

  lemma {:induction false} WithStartNone(s: seq<Replacement>, v: int)
    requires forall k :: 0 <= k < |s| ==> s[k].start < v
    ensures WithStart(s, v) == []
    decreases |s|
  {
    if |s| > 0 {
      WithStartNone(s[..|s| - 1], v);
    }
  }

  /** Inserting keeps the records of every start in their order, with the
      new record last among those of its start. */
  lemma {:induction false} InsertByStartStable(x: Replacement, s: seq<Replacement>, v: int)
    requires SortedByStartDesc(s)
    ensures WithStart(InsertByStart(x, s), v) == WithStart(s, v) + (if x.start == v then [x] else [])
    decreases |s|
  {
    if |s| == 0 {
      assert [x][..0] == [];
    } else if s[0].start >= x.start {
      InsertByStartStable(x, s[1..], v);
      assert InsertByStart(x, s) == [s[0]] + InsertByStart(x, s[1..]);
      ConsStable(s[0], InsertByStart(x, s[1..]), s[1..], if x.start == v then [x] else [], v);
      assert [s[0]] + s[1..] == s;
    } else {
      InsertBeforeHeadStable(x, s, v);
    }
  }

  /** Putting the same record in front of two lists keeps their records
      of each start related the same way. */
  lemma ConsStable(h: Replacement, rest: seq<Replacement>, s: seq<Replacement>, tail: seq<Replacement>, v: int)
    requires WithStart(rest, v) == WithStart(s, v) + tail
    ensures WithStart([h] + rest, v) == WithStart([h] + s, v) + tail
  {
    WithStartConcat([h], rest, v);
    WithStartConcat([h], s, v);
  }

  lemma InsertBeforeHeadStable(x: Replacement, s: seq<Replacement>, v: int)
    requires SortedByStartDesc(s) && |s| > 0 && s[0].start < x.start
    ensures WithStart(InsertByStart(x, s), v) == WithStart(s, v) + (if x.start == v then [x] else [])
  {
    assert InsertByStart(x, s) == [x] + s;
    WithStartConcat([x], s, v);
    assert [x][..0] == [];
    if x.start == v {
      assert forall k :: 0 <= k < |s| ==> s[k].start <= s[0].start;
      WithStartNone(s, v);
    }
  }

  /** The sort is stable: the records sharing a start come out in the
      order they went in. */
  lemma {:induction false} SortIsStable(xs: seq<Replacement>, v: int)
    ensures WithStart(SortByStartDesc(xs), v) == WithStart(xs, v)
    decreases |xs|
  {
    if |xs| > 0 {
      var n := |xs| - 1;
      SortIsStable(xs[..n], v);
      InsertByStartStable(xs[n], SortByStartDesc(xs[..n]), v);
    }
  }

  /* ---------------------------------------------------------------------
     Splicing the description blocks into the markdown
     --------------------------------------------------------------------- */

  const BlockOpening: string :=
    "<!-- Start of description of image" + " at this position in the source" + " document -->\n\n<!-- Image Path: "
  const BlockCaption: string := " -->\n\n**Caption:** "
  const BlockDescription: string := "\n\n**Description:** "
  const BlockClosing: string := "\n<!-- End of Image Description -->"

  /** The text that takes the place of a figure span. */
  function BlockText(imageName: string, caption: string, description: string): (b: string)
    ensures BlockOpening <= b
    ensures |b| == |BlockOpening| + |imageName| + |BlockCaption| + |caption| + |BlockDescription| + |description| + |BlockClosing|
  {
    BlockOpening + imageName + BlockCaption + caption + BlockDescription + description + BlockClosing
  }

  /** Every record has a description. */
  predicate Described(reps: seq<Replacement>) {
    forall k :: 0 <= k < |reps| ==> reps[k].description.Some?
  }

  function BlockOf(rep: Replacement): string
    requires rep.description.Some?
  {
    BlockText(rep.imageName, rep.content, rep.description.value)
  }

  /** One replacement: the markdown before the span's start, the block, and
      the markdown from the span's end, with Python's slice clamping. A
      record without a description cannot be concatenated. */
  function ApplyReplacement(markdown: string, rep: Replacement): (r: Result<string, ParseError>)
    ensures r.Success? <==> rep.description.Some?
    ensures r.Failure? ==> r.error == DescriptionMissing
  {
    if rep.description.None? then Failure(DescriptionMissing)
    else Success(Slice(markdown, 0, rep.start) + BlockOf(rep) + Slice(markdown, rep.end, |markdown|))
  }

  /** The replacements applied one after the other, each to the markdown
      the previous one left. */
  function SpliceAll(markdown: string, reps: seq<Replacement>): (r: Result<string, ParseError>)
    ensures r.Success? <==> Described(reps)
    ensures r.Failure? ==> r.error == DescriptionMissing
    decreases |reps|
  {
    if |reps| == 0 then Success(markdown)
    else
      var next := ApplyReplacement(markdown, reps[0]);
      if next.Failure? then Failure(next.error)
      else
        var r := SpliceAll(next.value, reps[1..]);
        assert Described(reps) <==> Described(reps[1..]) by {
          assert forall k :: 1 <= k < |reps| ==> reps[k] == reps[1..][k - 1];
        }
        r
  }

  /** The ranges lie within `[0, n]`, each entirely at or before the start
      of the one listed before it. */
  predicate Descending(reps: seq<Replacement>, n: int) {
    && (forall k :: 0 <= k < |reps| ==> 0 <= reps[k].start <= reps[k].end)
    && (|reps| > 0 ==> reps[0].end <= n)
    && (forall k :: 0 <= k < |reps| - 1 ==> reps[k + 1].end <= reps[k].start)
  }

  /** The markdown with each range replaced by its block: the text before
      the highest range (itself with the lower ranges replaced), the block,
      and the text after the range, untouched. */
  function Assemble(markdown: string, reps: seq<Replacement>): string
    requires Descending(reps, |markdown|) && Described(reps)
    decreases |reps|
  {
    if |reps| == 0 then markdown
    else Assemble(markdown[..reps[0].start], reps[1..]) + (BlockOf(reps[0]) + markdown[reps[0].end..])
  }

  /** How much longer the blocks make the markdown. */
  function Growth(reps: seq<Replacement>): int
    requires Described(reps)
  {
    if |reps| == 0 then 0
    else |BlockOf(reps[0])| - (reps[0].end - reps[0].start) + Growth(reps[1..])
  }

  /** Within bounds, the slices of a replacement are plain subsequences. */
  lemma SliceWithin(markdown: string, rep: Replacement)
    requires 0 <= rep.start <= rep.end <= |markdown|
    ensures Slice(markdown, 0, rep.start) == markdown[..rep.start]
    ensures Slice(markdown, rep.end, |markdown|) == markdown[rep.end..]
  {
  }

  /** Applying replacements that lie within `p` never touches text after
      `p`. */
  lemma {:induction false} SpliceLeavesTail(p: string, t: string, reps: seq<Replacement>)
    requires Descending(reps, |p|) && Described(reps)
    ensures SpliceAll(p + t, reps) == Success(SpliceAll(p, reps).value + t)
    decreases |reps|
  {
    if |reps| > 0 {
      var r := reps[0];
      var b := BlockOf(r);
      assert (p + t)[..r.start] == p[..r.start];
      assert (p + t)[r.end..] == p[r.end..] + t;
      var q := p[..r.start] + b + p[r.end..];
      SliceWithin(p, r);
      SliceWithin(p + t, r);
      assert ApplyReplacement(p, r) == Success(q);
      assert p[..r.start] + b + (p[r.end..] + t) == q + t;
      assert ApplyReplacement(p + t, r) == Success(q + t);
      assert Descending(reps[1..], |q|);
      SpliceLeavesTail(q, t, reps[1..]);
    }
  }

  /** Dropping the highest replacement leaves a chain within the text
      before it. */
  lemma DescendingTail(reps: seq<Replacement>, n: int)
    requires |reps| > 0 && Descending(reps, n) && Described(reps)
    ensures Descending(reps[1..], reps[0].start) && Described(reps[1..])
  {
    assert forall k :: 0 <= k < |reps| - 1 ==> reps[1..][k] == reps[k + 1];
  }

  /** The first step of the splice loop: the highest range is replaced,
      and the rest of the loop runs on the result. */
  lemma SpliceStep(markdown: string, reps: seq<Replacement>)
    requires |reps| > 0 && Descending(reps, |markdown|) && Described(reps)
    ensures var r := reps[0];
            SpliceAll(markdown, reps)
              == SpliceAll(markdown[..r.start] + (BlockOf(r) + markdown[r.end..]), reps[1..])
  {
    var r := reps[0];
    SliceWithin(markdown, r);
    ConcatAssoc(markdown[..r.start], BlockOf(r), markdown[r.end..]);
  }

  lemma ConcatAssoc(a: string, b: string, c: string)
    ensures a + b + c == a + (b + c)
  {
  }

  /** Sorted, disjoint, in-bounds replacements applied one after the
      other give the markdown with each range replaced by its block. */
  lemma {:induction false} SpliceAllIsAssemble(markdown: string, reps: seq<Replacement>)
    requires Descending(reps, |markdown|) && Described(reps)
    ensures SpliceAll(markdown, reps) == Success(Assemble(markdown, reps))
    decreases |reps|
  {
    if |reps| > 0 {
      var r := reps[0];
      var head := markdown[..r.start];
      var t := BlockOf(r) + markdown[r.end..];
      DescendingTail(reps, |markdown|);
      var a := Assemble(head, reps[1..]);
      assert SpliceAll(markdown, reps) == SpliceAll(head + t, reps[1..]) by {
        SpliceStep(markdown, reps);
      }
      assert SpliceAll(head + t, reps[1..]) == Success(a + t) by {
        SpliceLeavesTail(head, t, reps[1..]);
        SpliceAllIsAssemble(head, reps[1..]);
      }
    }
  }

  /** The spliced markdown is the original plus, per replacement, its block
      minus the span it covers. */
  lemma {:induction false} AssembleLength(markdown: string, reps: seq<Replacement>)
    requires Descending(reps, |markdown|) && Described(reps)
    ensures |Assemble(markdown, reps)| == |markdown| + Growth(reps)
    decreases |reps|
  {
    if |reps| > 0 {
      assert Descending(reps[1..], reps[0].start);
      AssembleLength(markdown[..reps[0].start], reps[1..]);
    }
  }

  /* ---------------------------------------------------------------------
     Well-placed spans
     --------------------------------------------------------------------- */

  /** Two records whose ranges do not overlap and do not start at the same
      offset. For non-empty ranges the second follows from the first; it
      matters only when one of the two is empty. */
  predicate Separate(a: Replacement, b: Replacement) {
    (a.end <= b.start || b.end <= a.start) && a.start != b.start
  }

  /** Every range, empty or not, is within `[0, n]`, and every two are
      separate. */
  predicate WellPlaced(reps: seq<Replacement>, n: int) {
    && (forall k :: 0 <= k < |reps| ==> 0 <= reps[k].start <= reps[k].end <= n)
    && (forall i, j :: 0 <= i < j < |reps| ==> Separate(reps[i], reps[j]))
  }

  lemma TwoIndicesCount(s: seq<Replacement>, p: nat, q: nat)
    requires p < q < |s| && s[p] == s[q]
    ensures multiset(s)[s[p]] >= 2
  {
    assert s == s[..q] + [s[q]] + s[q + 1..];
    assert s[p] in s[..q];
  }

  lemma CountTwoIndices(s: seq<Replacement>, e: Replacement)
    requires multiset(s)[e] >= 2
    ensures exists p, q :: 0 <= p < q < |s| && s[p] == e && s[q] == e
  {
    assert e in multiset(s);
    var p :| 0 <= p < |s| && s[p] == e;
    assert s == s[..p] + [s[p]] + s[p + 1..];
    assert multiset(s) == multiset(s[..p]) + multiset{e} + multiset(s[p + 1..]);
    if e in s[..p] {
      var q :| 0 <= q < p && s[..p][q] == e;
      assert s[q] == e;
    } else {
      assert e in multiset(s[p + 1..]);
      var q :| 0 <= q < |s| - p - 1 && s[p + 1..][q] == e;
      assert s[p + 1 + q] == e;
    }
  }

  lemma IndexOf(s: seq<Replacement>, e: Replacement) returns (p: nat)
    requires e in multiset(s)
    ensures p < |s| && s[p] == e
  {
    p :| 0 <= p < |s| && s[p] == e;
  }

  /** Well-placed records are all different. */
  lemma WellPlacedNoRepeats(xs: seq<Replacement>, e: Replacement, n: int)
    requires WellPlaced(xs, n)
    ensures multiset(xs)[e] <= 1
  {
    if multiset(xs)[e] >= 2 {
      CountTwoIndices(xs, e);
      assert false;
    }
  }

  /** Reordering records keeps them well placed. */
  lemma PermutationKeepsWellPlaced(xs: seq<Replacement>, ys: seq<Replacement>, n: int)
    requires multiset(xs) == multiset(ys) && WellPlaced(xs, n)
    ensures WellPlaced(ys, n)
  {
    forall k | 0 <= k < |ys| ensures 0 <= ys[k].start <= ys[k].end <= n {
      assert ys[k] in multiset(ys);
      var p := IndexOf(xs, ys[k]);
    }
    forall i, j | 0 <= i < j < |ys| ensures Separate(ys[i], ys[j]) {
      assert ys[i] in multiset(ys) && ys[j] in multiset(ys);
      if ys[i] == ys[j] {
        TwoIndicesCount(ys, i, j);
        WellPlacedNoRepeats(xs, ys[i], n);
        assert false;
      } else {
        var p := IndexOf(xs, ys[i]);
        var q := IndexOf(xs, ys[j]);
        assert p != q;
        if p < q {
          assert Separate(xs[p], xs[q]);
        } else {
          assert Separate(xs[q], xs[p]);
        }
      }
    }
  }

  /** Sorted by descending start, well-placed records form a descending
      chain: each range ends at or before the start of the previous one. */
  lemma SortedWellPlacedDescend(reps: seq<Replacement>, n: int)
    requires SortedByStartDesc(reps) && WellPlaced(reps, n)
    ensures Descending(reps, n)
  {
    forall k | 0 <= k < |reps| - 1 ensures reps[k + 1].end <= reps[k].start {
      assert Separate(reps[k], reps[k + 1]);
    }
  }

  /** Correlation keeps every range where it was. */
  lemma CorrelateKeepsRanges(records: seq<Replacement>, tasks: seq<TaskResult>, n: int)
    requires WellPlaced(records, n)
    ensures WellPlaced(Correlate(records, tasks), n)
  {
    var r := Correlate(records, tasks);
    assert forall k :: 0 <= k < |r| ==> r[k].start == records[k].start && r[k].end == records[k].end;
  }

  /** When every record starts described and every task brings a
      description, every record ends described. */
  lemma CorrelateKeepsDescribed(records: seq<Replacement>, tasks: seq<TaskResult>)
    requires Described(records)
    requires forall i :: 0 <= i < |tasks| ==> tasks[i].description.Some?
    ensures Described(Correlate(records, tasks))
  {
    CorrelateLastWins(records, tasks);
  }

  lemma SortKeepsDescribed(xs: seq<Replacement>)
    requires Described(xs)
    ensures Described(SortByStartDesc(xs))
  {
    var r := SortByStartDesc(xs);
    forall k | 0 <= k < |r| ensures r[k].description.Some? {
      assert r[k] in multiset(r);
      var p := IndexOf(xs, r[k]);
    }
  }

  /* ---------------------------------------------------------------------
     The whole reconciliation
     --------------------------------------------------------------------- */

  /** An image task as submitted: the figure index, what analysing the
      image came to, and the image name. */
  datatype ImageTask = ImageTask(figureId: nat, outcome: ImageAnalysis.Outcome, imageName: string)

  /** The task result as the source builds it: None passes through. */
  function ResultAsWritten(t: ImageTask): (r: TaskResult)
    ensures r.figureId == t.figureId && r.imageName == t.imageName
    ensures r.description.None? <==> t.outcome == ImageAnalysis.Returned(None)
  {
    TaskResult(t.figureId, Describe(t.outcome), t.imageName)
  }

  /** The description evidently intended: an analysis that returned
      nothing leaves the "no description" placeholder. */
  function DescribeIntended(outcome: ImageAnalysis.Outcome): (d: string)
    ensures outcome == ImageAnalysis.Returned(None) ==> d == NoDescription
    ensures outcome != ImageAnalysis.Returned(None) ==> Describe(outcome) == Some(d)
  {
    match Describe(outcome)
    case Some(d) => d
    case None => NoDescription
  }

  /** The task result with the intended description: it always carries
      one, and differs from the source's only for an empty analysis. */
  function ResultIntended(t: ImageTask): (r: TaskResult)
    ensures r.figureId == t.figureId && r.imageName == t.imageName
    ensures r.description.Some?
    ensures t.outcome != ImageAnalysis.Returned(None) ==> r == ResultAsWritten(t)
  {
    TaskResult(t.figureId, Some(DescribeIntended(t.outcome)), t.imageName)
  }

  /** The records, described by `results` in submission order, sorted and
      spliced into the markdown. */
  function ReconcileWith(markdown: string, figures: seq<DocIntel.Figure>, results: seq<TaskResult>): (r: Result<string, ParseError>)
    ensures !AllIntegral(FlatSpans(figures)) ==> r == Failure(SpanNotInteger)
    ensures AllIntegral(FlatSpans(figures)) && r.Failure? ==> r.error == DescriptionMissing
  {
    var records :- MakeRecords(markdown, figures);
    SpliceAll(markdown, SortByStartDesc(Correlate(records, results)))
  }

  /** The reconciliation as the source performs it. */
  function ReconcileAsWritten(markdown: string, figures: seq<DocIntel.Figure>, tasks: seq<ImageTask>): Result<string, ParseError> {
    ReconcileWith(markdown, figures, seq(|tasks|, i requires 0 <= i < |tasks| => ResultAsWritten(tasks[i])))
  }

  /** The reconciliation with the intended description of an empty
      analysis. */
  function Reconcile(markdown: string, figures: seq<DocIntel.Figure>, tasks: seq<ImageTask>): Result<string, ParseError> {
    ReconcileWith(markdown, figures, seq(|tasks|, i requires 0 <= i < |tasks| => ResultIntended(tasks[i])))
  }

  /** Where no image analysis returned nothing, the source's reconciliation
      is the intended one, so it inherits `ReconcileFailsOnlyOnSpans` and
      `ReconcileReplacesSpans`. */
  lemma AsWrittenAgreesWithoutEmptyAnalyses(markdown: string, figures: seq<DocIntel.Figure>, tasks: seq<ImageTask>)
    requires forall i :: 0 <= i < |tasks| ==> tasks[i].outcome != ImageAnalysis.Returned(None)
    ensures ReconcileAsWritten(markdown, figures, tasks) == Reconcile(markdown, figures, tasks)
  {
    var asWritten := seq(|tasks|, i requires 0 <= i < |tasks| => ResultAsWritten(tasks[i]));
    var intended := seq(|tasks|, i requires 0 <= i < |tasks| => ResultIntended(tasks[i]));
    assert asWritten == intended;
  }

  /** The records a reconciliation splices, in the order it splices them. */
  function Spliced(records: seq<Replacement>, tasks: seq<ImageTask>): (s: seq<Replacement>)
    ensures |s| == |records| && SortedByStartDesc(s)
  {
    SortByStartDesc(Correlate(records, seq(|tasks|, i requires 0 <= i < |tasks| => ResultIntended(tasks[i]))))
  }

  /** The reconciliation fails only on a span that is not an integer:
      every record ends up with a description. */
  lemma ReconcileFailsOnlyOnSpans(markdown: string, figures: seq<DocIntel.Figure>, tasks: seq<ImageTask>)
    ensures Reconcile(markdown, figures, tasks).Success? <==> AllIntegral(FlatSpans(figures))
    ensures Reconcile(markdown, figures, tasks).Failure? ==> Reconcile(markdown, figures, tasks).error == SpanNotInteger
  {
    var records := MakeRecords(markdown, figures);
    if records.Success? {
      var results := seq(|tasks|, i requires 0 <= i < |tasks| => ResultIntended(tasks[i]));
      CorrelateKeepsDescribed(records.value, results);
      SortKeepsDescribed(Correlate(records.value, results));
    }
  }

  /** With well-placed spans, the reconciled markdown is the original with
      each span replaced by its block, and its length grows by each block
      less the span it replaces. */
  lemma ReconcileReplacesSpans(markdown: string, figures: seq<DocIntel.Figure>, tasks: seq<ImageTask>)
    requires MakeRecords(markdown, figures).Success?
    requires WellPlaced(MakeRecords(markdown, figures).value, |markdown|)
    ensures var reps := Spliced(MakeRecords(markdown, figures).value, tasks);
            && Descending(reps, |markdown|) && Described(reps)
            && Reconcile(markdown, figures, tasks) == Success(Assemble(markdown, reps))
            && |Assemble(markdown, reps)| == |markdown| + Growth(reps)
  {
    var records := MakeRecords(markdown, figures).value;
    var reps := Spliced(records, tasks);
    SplicedDescends(records, tasks, |markdown|);
    assert Reconcile(markdown, figures, tasks) == SpliceAll(markdown, reps);
    SpliceAllIsAssemble(markdown, reps);
    AssembleLength(markdown, reps);
  }

  /** Well-placed records come out of correlation and sorting described
      and in descending, disjoint order. */
  lemma SplicedDescends(records: seq<Replacement>, tasks: seq<ImageTask>, n: int)
    requires WellPlaced(records, n) && Described(records)
    ensures Descending(Spliced(records, tasks), n) && Described(Spliced(records, tasks))
  {
    var results := seq(|tasks|, i requires 0 <= i < |tasks| => ResultIntended(tasks[i]));
    var correlated := Correlate(records, results);
    var reps := SortByStartDesc(correlated);
    CorrelateKeepsDescribed(records, results);
    SortKeepsDescribed(correlated);
    CorrelateKeepsRanges(records, results, n);
    PermutationKeepsWellPlaced(correlated, reps, n);
    SortedWellPlacedDescend(reps, n);
  }

  /** As written, a figure whose last image task returned no description
      aborts the whole reconciliation. */
  lemma EmptyAnalysisAbortsParse(markdown: string, figures: seq<DocIntel.Figure>, tasks: seq<ImageTask>, figureId: nat)
    requires MakeRecords(markdown, figures).Success?
    requires FirstWithFigure(MakeRecords(markdown, figures).value, figureId) < |MakeRecords(markdown, figures).value|
    requires exists i :: 0 <= i < |tasks| && tasks[i].figureId == figureId && tasks[i].outcome == ImageAnalysis.Returned(None)
                         && forall j :: i < j < |tasks| ==> tasks[j].figureId != figureId
    ensures ReconcileAsWritten(markdown, figures, tasks) == Failure(DescriptionMissing)
  {
    var records := MakeRecords(markdown, figures).value;
    var results := seq(|tasks|, i requires 0 <= i < |tasks| => ResultAsWritten(tasks[i]));
    assert ReconcileAsWritten(markdown, figures, tasks) == ReconcileWith(markdown, figures, results);
    LastEmptyResult(tasks, results, figureId);
    CorrelatedUndescribed(records, results, figureId);
    AbortsWhenUndescribed(markdown, figures, results);
  }

  /** A figure whose last result carries no description leaves its first
      record undescribed, wherever the sort puts it. */
  lemma CorrelatedUndescribed(records: seq<Replacement>, results: seq<TaskResult>, figureId: nat)
    requires FirstWithFigure(records, figureId) < |records|
    requires LastResultFor(results, figureId).Some? && LastResultFor(results, figureId).value.description.None?
    ensures !Described(SortByStartDesc(Correlate(records, results)))
  {
    var correlated := Correlate(records, results);
    var k := FirstWithFigure(records, figureId);
    assert correlated[k].description.None? by {
      CorrelateLastWins(records, results);
      assert correlated[k] == Expected(records, results, k);
    }
    UndescribedAfterSort(correlated, k);
  }

  /** A record left without a description after correlation and sorting
      makes the splice fail. */
  lemma AbortsWhenUndescribed(markdown: string, figures: seq<DocIntel.Figure>, results: seq<TaskResult>)
    requires MakeRecords(markdown, figures).Success?
    requires !Described(SortByStartDesc(Correlate(MakeRecords(markdown, figures).value, results)))
    ensures ReconcileWith(markdown, figures, results) == Failure(DescriptionMissing)
  {
  }

  lemma LastEmptyResult(tasks: seq<ImageTask>, results: seq<TaskResult>, figureId: nat)
    requires results == seq(|tasks|, i requires 0 <= i < |tasks| => ResultAsWritten(tasks[i]))
    requires exists i :: 0 <= i < |tasks| && tasks[i].figureId == figureId && tasks[i].outcome == ImageAnalysis.Returned(None)
                         && forall j :: i < j < |tasks| ==> tasks[j].figureId != figureId
    ensures LastResultFor(results, figureId).Some? && LastResultFor(results, figureId).value.description.None?
  {
    var i :| 0 <= i < |tasks| && tasks[i].figureId == figureId && tasks[i].outcome == ImageAnalysis.Returned(None)
             && forall j :: i < j < |tasks| ==> tasks[j].figureId != figureId;
    assert results[i].figureId == figureId;
    var last := LastResultFor(results, figureId);
    LastResultForIsLast(results, figureId);
    var i' :| 0 <= i' < |results| && results[i'] == last.value && last.value.figureId == figureId
              && forall j :: i' < j < |results| ==> results[j].figureId != figureId;
    assert i' == i;
  }

  lemma UndescribedAfterSort(xs: seq<Replacement>, k: nat)
    requires k < |xs| && xs[k].description.None?
    ensures !Described(SortByStartDesc(xs))
  {
    var reps := SortByStartDesc(xs);
    assert xs[k] in multiset(reps);
    var p := IndexOf(reps, xs[k]);
  }

  /* ---------------------------------------------------------------------
     The document title
     --------------------------------------------------------------------- */

  /** What marks a level-one heading that is not on the first line. */
  const HeadingMarker: string := "\n# "

  /** The index of the first paragraph whose role is `"title"`, or
      `|paragraphs|`. */
  function FirstTitleParagraph(paragraphs: seq<DocIntel.Paragraph>): (k: nat)
    ensures k <= |paragraphs|
    ensures k < |paragraphs| ==> paragraphs[k].role == JStr("title")
    ensures forall j :: 0 <= j < k ==> paragraphs[j].role != JStr("title")
  {
    if |paragraphs| == 0 then 0
    else if paragraphs[0].role == JStr("title") then 0
    else 1 + FirstTitleParagraph(paragraphs[1..])
  }

  /** The content of the first title paragraph, or None without one. */
  function ParagraphTitle(paragraphs: seq<DocIntel.Paragraph>): Json {
    var k := FirstTitleParagraph(paragraphs);
    if k < |paragraphs| then paragraphs[k].content else JNull
  }

  lemma NoNewlineBefore(markdown: string, lo: nat, hi: nat)
    requires lo <= hi <= |markdown|
    requires forall j :: lo <= j < hi ==> !OccursAt(markdown, "\n", j)
    ensures '\n' !in markdown[lo..hi]
  {
    forall j | lo <= j < hi ensures markdown[j] != '\n' {
      assert !OccursAt(markdown, "\n", j);
      assert markdown[j..j + 1] == [markdown[j]];
    }
  }

  /** The text of the first heading after a newline, from just after the
      newline to the end of that line, stripped; None when there is no
      such heading. A heading on the very first line has no newline before
      it and is never found. */
  function HeadingTitle(markdown: string): (t: Option<string>)
    ensures t.None? <==> !Contains(markdown, HeadingMarker)
    ensures t.Some? ==> '\n' !in t.value
  {
    var first := Find(markdown, HeadingMarker);
    if first == -1 then None
    else
      var found := FindFrom(markdown, "\n", first + 2);
      var end := if found == -1 then |markdown| else found;
      NoNewlineBefore(markdown, first + 2, end);
      var line := Slice(markdown, first + 2, end);
      assert line == markdown[first + 2..end];
      var t := Strip(line);
      assert forall c :: c in t ==> c in line;
      Some(t)
  }

  /** The title: the content of the first title paragraph unless that is
      None, else the first heading found, else the file's stem. */
  function Title(paragraphs: seq<DocIntel.Paragraph>, markdown: string, stem: string): (t: Json)
    ensures t != JNull
  {
    var fromParagraph := ParagraphTitle(paragraphs);
    if fromParagraph != JNull then fromParagraph
    else
      match HeadingTitle(markdown)
      case Some(h) => JStr(h)
      case None => JStr(stem)
  }

  /** The first title paragraph wins, whatever follows it, as long as its
      content is not None; its content is taken as it is, even when it is
      not a string. */
  lemma TitleFromFirstTitleParagraph(paragraphs: seq<DocIntel.Paragraph>, markdown: string, stem: string, k: nat)
    requires k < |paragraphs| && paragraphs[k].role == JStr("title")
    requires forall j :: 0 <= j < k ==> paragraphs[j].role != JStr("title")
    requires paragraphs[k].content != JNull
    ensures Title(paragraphs, markdown, stem) == paragraphs[k].content
  {
  }

  /** Without a usable title paragraph, the first heading after a newline
      gives the title: the rest of its line after `#`, stripped. */
  lemma TitleFromHeading(paragraphs: seq<DocIntel.Paragraph>, markdown: string, stem: string, f: nat, e: nat)
    requires ParagraphTitle(paragraphs) == JNull
    requires FirstAt(markdown, HeadingMarker, f)
    requires f + 2 <= e <= |markdown|
    requires e < |markdown| ==> markdown[e] == '\n'
    requires forall j :: f + 2 <= j < e ==> markdown[j] != '\n'
    ensures Title(paragraphs, markdown, stem) == JStr(Strip(markdown[f + 2..e]))
  {
    FindFirst(markdown, HeadingMarker, f);
    LineEnd(markdown, f + 2, e);
    var line := Slice(markdown, f + 2, e);
    assert line == markdown[f + 2..e];
    assert HeadingTitle(markdown) == Some(Strip(line));
  }

  /** Where the line starting at `lo` ends, as the title search finds it:
      the next newline, or the end of the text. */
  lemma LineEnd(markdown: string, lo: nat, e: nat)
    requires lo <= e <= |markdown|
    requires e < |markdown| ==> markdown[e] == '\n'
    requires forall j :: lo <= j < e ==> markdown[j] != '\n'
    ensures var found := FindFrom(markdown, "\n", lo); (if found == -1 then |markdown| else found) == e
  {
    var found := FindFrom(markdown, "\n", lo);
    if e < |markdown| {
      assert markdown[e..e + 1] == "\n";
      assert OccursAt(markdown, "\n", e);
      assert found != -1 && found <= e;
      assert markdown[found..found + 1] == "\n";
      assert markdown[found] == '\n';
    } else {
      forall j | lo <= j ensures !OccursAt(markdown, "\n", j) {
        if j < |markdown| {
          assert markdown[j] != '\n';
          assert j + 1 <= |markdown| ==> markdown[j..j + 1][0] == markdown[j];
        }
      }
    }
  }

  /** A document whose only heading is on its first line, and which has
      no usable title paragraph, is titled after its file. */
  lemma LeadingHeadingIsMissed(paragraphs: seq<DocIntel.Paragraph>, heading: string, stem: string)
    requires ParagraphTitle(paragraphs) == JNull
    requires '\n' !in heading
    ensures Title(paragraphs, "# " + heading, stem) == JStr(stem)
  {
    var markdown := "# " + heading;
    forall i ensures !OccursAt(markdown, HeadingMarker, i) {
      if 0 <= i && i + 3 <= |markdown| {
        assert markdown[i..i + 3][0] == markdown[i];
        if i >= 2 {
          assert markdown[i] == heading[i - 2];
        }
        assert markdown[i] != '\n';
      }
    }
    assert !Occurs(markdown, HeadingMarker);
  }

  /** A first title paragraph whose content is None does not count, and
      neither does any later title paragraph, even one with content: the
      title is what the markdown alone gives, and the file's stem when the
      markdown has no heading after a newline. */
  lemma NullTitleParagraphFallsThrough(paragraphs: seq<DocIntel.Paragraph>, markdown: string, stem: string, k: nat)
    requires k < |paragraphs| && paragraphs[k].role == JStr("title")
    requires forall j :: 0 <= j < k ==> paragraphs[j].role != JStr("title")
    requires paragraphs[k].content == JNull
    ensures Title(paragraphs, markdown, stem) == Title([], markdown, stem)
    ensures !Occurs(markdown, HeadingMarker) ==> Title(paragraphs, markdown, stem) == JStr(stem)
  {
  }

  /* ---------------------------------------------------------------------
     The whole parse: reconciliation, then the title of its result
     --------------------------------------------------------------------- */

  /** The reconciled markdown and the document's title. The title's heading
      is looked for in the markdown after the figure spans were replaced, so
      a heading inside a description block can give the title and one inside
      a replaced span cannot. A failed reconciliation ends the parse. */
  function Parse(markdown: string, figures: seq<DocIntel.Figure>, tasks: seq<ImageTask>,
                 paragraphs: seq<DocIntel.Paragraph>, stem: string): (r: Result<(string, Json), ParseError>)
    ensures r.Success? <==> Reconcile(markdown, figures, tasks).Success?
    ensures r.Failure? ==> r.error == Reconcile(markdown, figures, tasks).error
    ensures r.Success? ==> r.value.0 == Reconcile(markdown, figures, tasks).value
    ensures r.Success? ==> r.value.1 == Title(paragraphs, r.value.0, stem)
  {
    var text :- Reconcile(markdown, figures, tasks);
    Success((text, Title(paragraphs, text, stem)))
  }

  /** A parse fails exactly when some figure span is not a pair of
      integers, and then with that error. */
  lemma ParseFailsOnlyOnSpans(markdown: string, figures: seq<DocIntel.Figure>, tasks: seq<ImageTask>,
                              paragraphs: seq<DocIntel.Paragraph>, stem: string)
    ensures Parse(markdown, figures, tasks, paragraphs, stem).Success? <==> AllIntegral(FlatSpans(figures))
    ensures Parse(markdown, figures, tasks, paragraphs, stem).Failure?
            ==> Parse(markdown, figures, tasks, paragraphs, stem).error == SpanNotInteger
  {
    ReconcileFailsOnlyOnSpans(markdown, figures, tasks);
  }

  /** Text without any `#` cannot hold a heading, so the first heading after
      it gives the title: its line after `#`, stripped. */
  lemma TitleAfterHashFreeText(paragraphs: seq<DocIntel.Paragraph>, stem: string,
                               before: string, heading: string, after: string)
    requires ParagraphTitle(paragraphs) == JNull
    requires '#' !in before && '\n' !in heading
    requires |after| == 0 || after[0] == '\n'
    ensures Title(paragraphs, before + HeadingMarker + heading + after, stem) == JStr(Strip(" " + heading))
  {
    var markdown := before + HeadingMarker + heading + after;
    var f := |before|;
    var e := f + 3 + |heading|;
    assert markdown[f..f + 3] == HeadingMarker;
    forall k | 0 <= k < f ensures !OccursAt(markdown, HeadingMarker, k) {
      assert markdown[k..k + 3][1] == markdown[k + 1];
      if k + 1 < f {
        assert markdown[k + 1] == before[k + 1];
      }
    }
    forall j | f + 2 <= j < e ensures markdown[j] != '\n' {
      if j > f + 2 {
        assert markdown[j] == heading[j - f - 3];
      }
    }
    assert e < |markdown| ==> markdown[e] == after[0];
    assert markdown[f + 2..e] == " " + heading;
    TitleFromHeading(paragraphs, markdown, stem, f, e);
  }

  /** A description that is itself markdown with a heading gives the
      document its title when no paragraph does. Here the one figure has an
      empty span at the start of an empty text, and its image was described
      as a heading line. */
  lemma DescriptionHeadingGivesTitle(heading: string, stem: string)
    requires '\n' !in heading
    ensures var figure := DocIntel.Figure([], [DocIntel.Span(JInt(0), JInt(0))], JNull, JNull, [], JNull);
            var task := ImageTask(0, ImageAnalysis.Returned(Some(HeadingMarker + heading)), "");
            Parse("", [figure], [task], [], stem)
              == Success((BlockText("", "", HeadingMarker + heading), JStr(Strip(" " + heading))))
  {
    var figure := DocIntel.Figure([], [DocIntel.Span(JInt(0), JInt(0))], JNull, JNull, [], JNull);
    var description := HeadingMarker + heading;
    var task := ImageTask(0, ImageAnalysis.Returned(Some(description)), "");
    var text := ReconcileOneEmptySpan(figure, task, description);
    assert text == BlockText("", "", description);
    var before := BlockOpening + BlockCaption + BlockDescription;
    BlockAroundHeading(heading);
    BlockHeadHashFree();
    TitleAfterHashFreeText([], stem, before, heading, BlockClosing);
  }

  /** Reconciling an empty text with one figure whose one span is empty and
      at the start, and one task that described it. */
  lemma ReconcileOneEmptySpan(figure: DocIntel.Figure, task: ImageTask, description: string) returns (text: string)
    requires figure.spans == [DocIntel.Span(JInt(0), JInt(0))]
    requires task == ImageTask(0, ImageAnalysis.Returned(Some(description)), "")
    ensures text == BlockText("", "", description)
    ensures Reconcile("", [figure], [task]) == Success(text)
  {
    var rec := SingleEmptySpanRecord(figure);
    var described := rec.(description := Some(description));
    var results := seq(1, i requires 0 <= i < 1 => ResultIntended([task][i]));
    assert results == [TaskResult(0, Some(description), "")];
    assert Correlate([rec], results) == [described] by {
      assert results[..0] == [];
    }
    SortSingleton(described);
    text := SpliceOneAtStart(described);
  }

  /** The one record of a figure with an empty span at the start of an
      empty text. */
  lemma SingleEmptySpanRecord(figure: DocIntel.Figure) returns (rec: Replacement)
    requires figure.spans == [DocIntel.Span(JInt(0), JInt(0))]
    ensures rec == Replacement("", 0, 0, 0, Some(NoDescription), "")
    ensures MakeRecords("", [figure]) == Success([rec])
  {
    var p := Placed(0, DocIntel.Span(JInt(0), JInt(0)));
    OneFigureSpans(figure);
    RecordsOfOnePlaced("", [figure], p);
    EmptyCaption();
    rec := SpanRecord("", p);
  }

  lemma RecordsOfOnePlaced(markdown: string, figures: seq<DocIntel.Figure>, p: Placed)
    requires FlatSpans(figures) == [p] && IntegralSpan(p.span)
    ensures MakeRecords(markdown, figures) == Success([SpanRecord(markdown, p)])
  {
    var placed := FlatSpans(figures);
    assert placed[0] == p;
    assert AllIntegral(placed);
    var records := seq(|placed|, k requires 0 <= k < |placed| => SpanRecord(markdown, placed[k]));
    assert |records| == 1 && records[0] == SpanRecord(markdown, p);
    assert records == [SpanRecord(markdown, p)];
  }

  lemma OneFigureSpans(figure: DocIntel.Figure)
    ensures FlatSpans([figure]) == PlaceAll(figure.spans, 0)
    ensures SpanTotal([figure]) == |figure.spans|
  {
    assert [figure][..0] == [];
  }

  lemma EmptyCaption()
    ensures Caption(Slice("", 0, 0)) == ""
  {
    assert Slice("", 0, 0) == "";
    PlainTextCaption("");
  }

  lemma SortSingleton(x: Replacement)
    ensures SortByStartDesc([x]) == [x]
  {
    var r := SortByStartDesc([x]);
    assert r[0] in multiset(r);
  }

  /** Splicing one described, empty record at the start of an empty text
      leaves just its block. */
  lemma SpliceOneAtStart(rep: Replacement) returns (text: string)
    requires rep.start == 0 && rep.end == 0 && rep.description.Some?
    ensures text == BlockOf(rep)
    ensures SpliceAll("", [rep]) == Success(text)
  {
    text := BlockOf(rep);
    NothingAround(text);
    assert ApplyReplacement("", rep) == Success(text);
    assert [rep][1..] == [];
  }

  lemma NothingAround(x: string)
    ensures Slice("", 0, 0) + x + Slice("", 0, 0) == x
  {
    assert Slice("", 0, 0) == [];
  }

  /** A block with no image name and no caption whose description is a
      heading line, regrouped around the heading. */
  lemma BlockAroundHeading(heading: string)
    ensures BlockText("", "", HeadingMarker + heading)
            == (BlockOpening + BlockCaption + BlockDescription) + HeadingMarker + heading + BlockClosing
  {
    Regroup(BlockOpening, BlockCaption, BlockDescription, HeadingMarker, heading, BlockClosing);
  }

  lemma Regroup(opening: string, caption: string, middle: string, marker: string, heading: string, closing: string)
    ensures opening + "" + caption + "" + middle + (marker + heading) + closing
            == (opening + caption + middle) + marker + heading + closing
  {
    assert opening + "" == opening;
    assert caption + "" == caption;
  }

  /** The fixed text of a block up to its description has no `#`. */
  lemma BlockHeadHashFree()
    ensures '#' !in BlockOpening + BlockCaption + BlockDescription
  {
    OpeningHashFree();
    CaptionHashFree();
    DescriptionHashFree();
  }

  lemma OpeningHashFree()
    ensures '#' !in BlockOpening
  {
    OpeningStartHashFree();
    OpeningMiddleHashFree();
    OpeningEndHashFree();
  }

  lemma OpeningStartHashFree()
    ensures '#' !in "<!-- Start of description of image"
  {
  }

  lemma OpeningMiddleHashFree()
    ensures '#' !in " at this position in the source"
  {
  }

  lemma OpeningEndHashFree()
    ensures '#' !in " document -->\n\n<!-- Image Path: "
  {
  }

  lemma CaptionHashFree()
    ensures '#' !in BlockCaption
  {
  }

  lemma DescriptionHashFree()
    ensures '#' !in BlockDescription
  {
  }
}
