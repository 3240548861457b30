/** Figure description by a vision model: the bounded retry around one model
    call, the choice of system message, and the two-step mode that first asks
    for a category and then for a description with a prompt specialised to
    it. The model is an oracle; prompt texts are identifiers. */
module ImageAnalysis {
  import opened Wrappers
  import opened JsonValue

  /** The fixed instruction texts, one identifier each. There is no separate
      identifier for "other" tables: that template is the standard one.
      `PictureOther` and `GenericRules` name two templates whose texts are
      identical (image_analysis.py:573 and :625), so the choice between
      them changes nothing that is sent; they are kept apart only to follow
      the selector's branches. */
  datatype Prompt =
    | ClassifierStep
    | TableStandard | TableMatrix | TablePivot | TableCrossTab | TableNested
    | ChartBar | ChartLine | ChartPie | ChartScatter | ChartHistogram | ChartBox | ChartTimeSeries
    | ChartHeatMap | ChartNetwork | ChartVenn | ChartSankey | ChartTree | ChartRadar | ChartBubble
    | ChartWaterfall | ChartGantt | ChartOther
    | FormulaRules
    | TextRules
    | PictureDiagram | PicturePhoto | PictureDrawing | PictureOther
    | RadiographXRay | RadiographMri | RadiographCt | RadiographOther
    | GenericRules

  // ---------------------------------------------------------------- prompt selection

  /** The specialised prompt for a classification, as the selector's chain of
      comparisons picks it. Comparisons are exact, so case matters. */
  function SelectPrompt(category: Json, sub: Json): (p: Prompt)
    ensures p != ClassifierStep
    ensures !category.JStr? ==> p == GenericRules
  {
    if category == JStr("table") then TablePrompt(sub)
    else if category == JStr("chart") then ChartPrompt(sub)
    else if category == JStr("formula") then FormulaRules
    else if category == JStr("text") then TextRules
    else if category == JStr("picture") then PicturePrompt(sub)
    else if category == JStr("radiograph") then RadiographPrompt(sub)
    else GenericRules
  }

  function TablePrompt(sub: Json): Prompt {
    if sub == JStr("standard") then TableStandard
    else if sub == JStr("matrix") then TableMatrix
    else if sub == JStr("pivot") then TablePivot
    else if sub == JStr("cross-tab") then TableCrossTab
    else if sub == JStr("nested") then TableNested
    else TableStandard
  }

  function ChartPrompt(sub: Json): Prompt {
    if sub == JStr("bar") then ChartBar
    else if sub == JStr("line") then ChartLine
    else if sub == JStr("pie") then ChartPie
    else if sub == JStr("scatter") then ChartScatter
    else if sub == JStr("histogram") then ChartHistogram
    else if sub == JStr("box") then ChartBox
    else if sub == JStr("time-series") then ChartTimeSeries
    else if sub == JStr("heat-map") then ChartHeatMap
    else if sub == JStr("network") then ChartNetwork
    else if sub == JStr("venn") then ChartVenn
    else if sub == JStr("sankey") then ChartSankey
    else if sub == JStr("tree") then ChartTree
    else if sub == JStr("radar") then ChartRadar
    else if sub == JStr("bubble") then ChartBubble
    else if sub == JStr("waterfall") then ChartWaterfall
    else if sub == JStr("gantt") then ChartGantt
    else ChartOther
  }

  function PicturePrompt(sub: Json): Prompt {
    if sub == JStr("diagram") then PictureDiagram
    else if sub == JStr("photo") then PicturePhoto
    else if sub == JStr("drawing") then PictureDrawing
    else PictureOther
  }

  function RadiographPrompt(sub: Json): Prompt {
    if sub == JStr("x-ray") then RadiographXRay
    else if sub == JStr("mri") then RadiographMri
    else if sub == JStr("ct") then RadiographCt
    else RadiographOther
  }

  /** The sub-categories with a template of their own, per category. */
  const TableTemplates: map<string, Prompt> :=
    map["standard" := TableStandard, "matrix" := TableMatrix, "pivot" := TablePivot,
        "cross-tab" := TableCrossTab, "nested" := TableNested]

  const ChartTemplates: map<string, Prompt> :=
    map["bar" := ChartBar, "line" := ChartLine, "pie" := ChartPie, "scatter" := ChartScatter,
        "histogram" := ChartHistogram, "box" := ChartBox, "time-series" := ChartTimeSeries,
        "heat-map" := ChartHeatMap, "network" := ChartNetwork, "venn" := ChartVenn,
        "sankey" := ChartSankey, "tree" := ChartTree, "radar" := ChartRadar,
        "bubble" := ChartBubble, "waterfall" := ChartWaterfall, "gantt" := ChartGantt]

  const PictureTemplates: map<string, Prompt> :=
    map["diagram" := PictureDiagram, "photo" := PicturePhoto, "drawing" := PictureDrawing]

  const RadiographTemplates: map<string, Prompt> :=
    map["x-ray" := RadiographXRay, "mri" := RadiographMri, "ct" := RadiographCt]

  const Dedicated: map<string, map<string, Prompt>> :=
    map["table" := TableTemplates, "chart" := ChartTemplates, "picture" := PictureTemplates,
        "radiograph" := RadiographTemplates]

  /** The template each known category falls back to. */
  const Fallback: map<string, Prompt> :=
    map["table" := TableStandard, "chart" := ChartOther, "formula" := FormulaRules, "text" := TextRules,
        "picture" := PictureOther, "radiograph" := RadiographOther]

  /** Looks a sub-category up in one category's templates. */
  function LookupIn(templates: map<string, Prompt>, sub: Json, otherwise: Prompt): Prompt {
    if sub.JStr? && sub.s in templates then templates[sub.s] else otherwise
  }

  /** The selection as a table lookup: a dedicated template if the pair has
      one, else the category's fallback, else the generic template. */
  function LookupPrompt(category: Json, sub: Json): Prompt {
    if category.JStr? && category.s in Fallback then
      var c := category.s;
      if c in Dedicated then LookupIn(Dedicated[c], sub, Fallback[c]) else Fallback[c]
    else GenericRules
  }

  lemma TablePromptIsLookup(sub: Json)
    ensures TablePrompt(sub) == LookupIn(TableTemplates, sub, TableStandard)
  {
  }

  lemma ChartLookupFirstFour(sub: Json)
    requires sub in {JStr("bar"), JStr("line"), JStr("pie"), JStr("scatter")}
    ensures ChartPrompt(sub) == LookupIn(ChartTemplates, sub, ChartOther)
  {
  }

  lemma ChartLookupSecondFour(sub: Json)
    requires sub in {JStr("histogram"), JStr("box"), JStr("time-series"), JStr("heat-map")}
    ensures ChartPrompt(sub) == LookupIn(ChartTemplates, sub, ChartOther)
  {
  }

  lemma ChartLookupThirdFour(sub: Json)
    requires sub in {JStr("network"), JStr("venn"), JStr("sankey"), JStr("tree")}
    ensures ChartPrompt(sub) == LookupIn(ChartTemplates, sub, ChartOther)
  {
  }

  lemma ChartLookupLastFour(sub: Json)
    requires sub in {JStr("radar"), JStr("bubble"), JStr("waterfall"), JStr("gantt")}
    ensures ChartPrompt(sub) == LookupIn(ChartTemplates, sub, ChartOther)
  {
  }

  lemma ChartLookupUnknown(sub: Json)
    requires !(sub.JStr? && sub.s in ChartTemplates)
    ensures ChartPrompt(sub) == LookupIn(ChartTemplates, sub, ChartOther)
  {
    assert sub !in {JStr("bar"), JStr("line"), JStr("pie"), JStr("scatter")};
    assert sub !in {JStr("histogram"), JStr("box"), JStr("time-series"), JStr("heat-map")};
    assert sub !in {JStr("network"), JStr("venn"), JStr("sankey"), JStr("tree")};
    assert sub !in {JStr("radar"), JStr("bubble"), JStr("waterfall"), JStr("gantt")};
  }

  /** The chart comparisons and the chart templates agree, checked four
      sub-categories at a time. */
  lemma ChartPromptIsLookup(sub: Json)
    ensures ChartPrompt(sub) == LookupIn(ChartTemplates, sub, ChartOther)
  {
    if !(sub.JStr? && sub.s in ChartTemplates) {
      ChartLookupUnknown(sub);
    } else if sub in {JStr("bar"), JStr("line"), JStr("pie"), JStr("scatter")} {
      ChartLookupFirstFour(sub);
    } else if sub in {JStr("histogram"), JStr("box"), JStr("time-series"), JStr("heat-map")} {
      ChartLookupSecondFour(sub);
    } else if sub in {JStr("network"), JStr("venn"), JStr("sankey"), JStr("tree")} {
      ChartLookupThirdFour(sub);
    } else {
      assert sub in {JStr("radar"), JStr("bubble"), JStr("waterfall"), JStr("gantt")};
      ChartLookupLastFour(sub);
    }
  }

  lemma PicturePromptIsLookup(sub: Json)
    ensures PicturePrompt(sub) == LookupIn(PictureTemplates, sub, PictureOther)
  {
  }

  lemma RadiographPromptIsLookup(sub: Json)
    ensures RadiographPrompt(sub) == LookupIn(RadiographTemplates, sub, RadiographOther)
  {
  }

  lemma TablePromptSelectedByCategory(sub: Json)
    ensures SelectPrompt(JStr("table"), sub) == LookupPrompt(JStr("table"), sub)
  {
    TablePromptIsLookup(sub);
    assert SelectPrompt(JStr("table"), sub) == TablePrompt(sub);
    assert LookupPrompt(JStr("table"), sub) == LookupIn(TableTemplates, sub, TableStandard);
  }

  lemma ChartPromptSelectedByCategory(sub: Json)
    ensures SelectPrompt(JStr("chart"), sub) == LookupPrompt(JStr("chart"), sub)
  {
    ChartPromptIsLookup(sub);
    assert SelectPrompt(JStr("chart"), sub) == ChartPrompt(sub);
    assert LookupPrompt(JStr("chart"), sub) == LookupIn(ChartTemplates, sub, ChartOther);
  }

  lemma PicturePromptSelectedByCategory(sub: Json)
    ensures SelectPrompt(JStr("picture"), sub) == LookupPrompt(JStr("picture"), sub)
  {
    PicturePromptIsLookup(sub);
    assert SelectPrompt(JStr("picture"), sub) == PicturePrompt(sub);
    assert LookupPrompt(JStr("picture"), sub) == LookupIn(PictureTemplates, sub, PictureOther);
  }

  lemma RadiographPromptSelectedByCategory(sub: Json)
    ensures SelectPrompt(JStr("radiograph"), sub) == LookupPrompt(JStr("radiograph"), sub)
  {
    RadiographPromptIsLookup(sub);
    assert SelectPrompt(JStr("radiograph"), sub) == RadiographPrompt(sub);
    assert LookupPrompt(JStr("radiograph"), sub) == LookupIn(RadiographTemplates, sub, RadiographOther);
  }

  lemma CategoryWithTemplatesIsLookup(c: string, sub: Json)
    requires c in Dedicated
    ensures SelectPrompt(JStr(c), sub) == LookupPrompt(JStr(c), sub)
  {
    if c == "table" {
      TablePromptSelectedByCategory(sub);
    } else if c == "chart" {
      ChartPromptSelectedByCategory(sub);
    } else if c == "picture" {
      PicturePromptSelectedByCategory(sub);
    } else {
      assert c == "radiograph";
      RadiographPromptSelectedByCategory(sub);
    }
  }

  lemma CategoryWithoutTemplatesIsLookup(c: string, sub: Json)
    requires c !in Dedicated
    ensures SelectPrompt(JStr(c), sub) == LookupPrompt(JStr(c), sub)
  {
    if c == "formula" {
      assert LookupPrompt(JStr(c), sub) == FormulaRules;
    } else if c == "text" {
      assert LookupPrompt(JStr(c), sub) == TextRules;
    } else {
      assert c !in Fallback;
    }
  }

  /** The chain of comparisons and the table lookup agree on every input. */
  lemma SelectPromptIsLookup(category: Json, sub: Json)
    ensures SelectPrompt(category, sub) == LookupPrompt(category, sub)
  {
    if category.JStr? {
      if category.s in Dedicated {
        CategoryWithTemplatesIsLookup(category.s, sub);
      } else {
        CategoryWithoutTemplatesIsLookup(category.s, sub);
      }
    }
  }

  /** The sub-categories the classifier prompt offers, per category. */
  const TableOffers: seq<string> := ["standard", "matrix", "pivot", "cross-tab", "nested", "other"]
  const ChartOffers: seq<string> :=
    ["bar", "line", "pie", "scatter", "histogram", "box", "time-series", "heat-map", "network", "venn",
     "sankey", "tree", "radar", "bubble", "waterfall", "gantt", "other"]
  const PictureOffers: seq<string> := ["diagram", "photo", "drawing", "other"]
  const RadiographOffers: seq<string> := ["x-ray", "MRI", "CT", "other"]

  /** Every table, chart and picture sub-category the classifier offers,
      bar the final "other", has a template of its own. */
  lemma OfferedSubcategoriesHaveTemplates()
    ensures forall i :: 0 <= i < |TableOffers| - 1 ==> TableOffers[i] in TableTemplates
    ensures forall i :: 0 <= i < |ChartOffers| - 1 ==> ChartOffers[i] in ChartTemplates
    ensures forall i :: 0 <= i < |PictureOffers| - 1 ==> PictureOffers[i] in PictureTemplates
  {
  }

  /** Of the radiograph sub-categories the classifier offers, only "x-ray"
      has a template: the selector spells the other two in lower case. */
  lemma OfferedScansMissTemplates()
    ensures RadiographOffers[0] in RadiographTemplates
    ensures RadiographOffers[1] !in RadiographTemplates && RadiographOffers[2] !in RadiographTemplates
  {
  }

  /** The upper-case radiograph answers the classifier is told to give reach
      the generic radiograph template; the lower-case spellings reach the
      dedicated ones. */
  lemma UpperCaseScansFallBack()
    ensures SelectPrompt(JStr("radiograph"), JStr("MRI")) == RadiographOther
    ensures SelectPrompt(JStr("radiograph"), JStr("CT")) == RadiographOther
    ensures SelectPrompt(JStr("radiograph"), JStr("mri")) == RadiographMri
    ensures SelectPrompt(JStr("radiograph"), JStr("ct")) == RadiographCt
  {
  }

  /** Table answers outside the five named kinds get the standard table
      template, which is also the template for "other" tables. */
  lemma TableFallsBackToStandard(sub: Json)
    requires sub !in {JStr("standard"), JStr("matrix"), JStr("pivot"), JStr("cross-tab"), JStr("nested")}
    ensures SelectPrompt(JStr("table"), sub) == TableStandard
    ensures SelectPrompt(JStr("table"), JStr("other")) == SelectPrompt(JStr("table"), JStr("standard"))
  {
  }

  /** Formula and text answers ignore the sub-category. */
  lemma FormulaAndTextIgnoreSubcategory(sub: Json)
    ensures SelectPrompt(JStr("formula"), sub) == FormulaRules
    ensures SelectPrompt(JStr("text"), sub) == TextRules
  {
  }

  /** A category the selector does not know gets the generic template,
      whatever the sub-category. */
  lemma UnknownCategoryIsGeneric(c: string, sub: Json)
    requires c !in Fallback
    ensures SelectPrompt(JStr(c), sub) == GenericRules
  {
    assert c != "table" && c != "chart" && c != "formula" && c != "text" && c != "picture" && c != "radiograph";
  }

  // ---------------------------------------------------------------- system message

  /** The system message sent with the image: a given instruction verbatim,
      or the default instructions filled in with the figure's context. */
  datatype Message =
    | Instruction(prompt: Prompt)
    | DefaultInstruction(sectionName: string, priorContext: string, postContext: string)

  /** Chooses the system message. Missing context values are replaced by
      fixed phrases; present ones, even empty, are used as given. */
  function SystemMessage(analysisMsg: Option<Prompt>, sectionName: Option<string>,
                         priorContext: Option<string>, postContext: Option<string>): (m: Message)
    ensures analysisMsg.Some? <==> m.Instruction?
    ensures analysisMsg.None? && sectionName.Some? ==> m.sectionName == sectionName.value
    ensures analysisMsg.None? && priorContext.Some? ==> m.priorContext == priorContext.value
    ensures analysisMsg.None? && postContext.Some? ==> m.postContext == postContext.value
  {
    match analysisMsg
    case Some(p) => Instruction(p)
    case None =>
      DefaultInstruction(sectionName.GetOr("Unknown"), priorContext.GetOr("No prior context"),
                         postContext.GetOr("No post context"))
  }

  /** With an explicit instruction the context arguments do not matter; with
      none, each missing value has its own default phrase. */
  lemma SystemMessageContext(p: Prompt, s: Option<string>, a: Option<string>, b: Option<string>,
                             s': Option<string>, a': Option<string>, b': Option<string>)
    ensures SystemMessage(Some(p), s, a, b) == SystemMessage(Some(p), s', a', b') == Instruction(p)
    ensures SystemMessage(None, None, None, None)
              == DefaultInstruction("Unknown", "No prior context", "No post context")
  {
  }

  // ---------------------------------------------------------------- retry

  /** One model call: the text it returned (possibly `None`), or the message
      of the exception it raised. */
  datatype Reply = Replied(content: Option<string>) | Raised(error: string)

  /** Why an analysis raised. */
  datatype AnalysisError =
    | ModelError(message: string)       // the last attempt's exception, re-raised
    | MalformedClassification           // the classifier's answer is not JSON
    | ClassificationNotAnObject         // the classifier's JSON has no `.get`

  /** What an analysis call ends with: a value returned (possibly `None`) or
      an exception raised. */
  datatype Outcome = Returned(content: Option<string>) | Raises(error: AnalysisError)

  /** The model: the reply to a message at a given attempt number. */
  type Oracle = (Message, nat) -> Reply

  /** The retry loop from `attempt` on, as a recursive definition. */
  function RetryFrom(msg: Message, retries: int, oracle: Oracle, attempt: nat): Outcome
    decreases retries - attempt
  {
    if attempt >= retries then Returned(None)
    else
      match oracle(msg, attempt)
      case Replied(c) => Returned(c)
      case Raised(e) =>
        if attempt < retries - 1 then RetryFrom(msg, retries, oracle, attempt + 1)
        else Raises(ModelError(e))
  }

  /** Calls the model up to `maxRetries` times, returning the first reply.
      After a failed attempt `k` other than the last it sleeps `1 + k`
      half-seconds (recorded in `sleeps`); the last failure is re-raised.
      With no attempts allowed it returns `None` without calling. */
  method AnalyseImageData(msg: Message, maxRetries: int, oracle: Oracle)
    returns (outcome: Outcome, calls: nat, sleeps: seq<nat>)
    ensures outcome == RetryFrom(msg, maxRetries, oracle, 0)
    ensures maxRetries <= 0 ==> outcome == Returned(None) && calls == 0 && sleeps == []
    ensures maxRetries > 0 ==> 1 <= calls <= maxRetries && |sleeps| == calls - 1
    ensures forall k :: 0 <= k < |sleeps| ==> sleeps[k] == k + 1
    ensures forall k :: 0 <= k < calls - 1 ==> oracle(msg, k).Raised?
    ensures outcome.Returned? && calls > 0 ==> oracle(msg, calls - 1) == Replied(outcome.content)
    ensures outcome.Raises? ==> outcome.error.ModelError? && calls == maxRetries
                                && oracle(msg, calls - 1) == Raised(outcome.error.message)
  {
    calls := 0;
    sleeps := [];
    var attempt: nat := 0;
    while attempt < maxRetries
      invariant maxRetries > 0 ==> attempt < maxRetries
      invariant maxRetries <= 0 ==> attempt == 0
      invariant calls == attempt && |sleeps| == attempt
      invariant forall k :: 0 <= k < attempt ==> oracle(msg, k).Raised?
      invariant forall k :: 0 <= k < |sleeps| ==> sleeps[k] == k + 1
      invariant RetryFrom(msg, maxRetries, oracle, attempt) == RetryFrom(msg, maxRetries, oracle, 0)
    {
      calls := calls + 1;
      var reply := oracle(msg, attempt);
      if reply.Replied? {
        return Returned(reply.content), calls, sleeps;
      }
      if attempt < maxRetries - 1 {
        sleeps := sleeps + [attempt + 1];
      } else {
        return Raises(ModelError(reply.error)), calls, sleeps;
      }
      attempt := attempt + 1;
    }
    outcome := Returned(None);
  }

  /** The loop's two readings agree: an oracle that always raises makes the
      call raise its last exception after exactly `maxRetries` attempts. */
  lemma {:induction false} AlwaysFailingRaisesLast(msg: Message, maxRetries: int, oracle: Oracle, attempt: nat)
    requires attempt < maxRetries
    requires forall k :: attempt <= k < maxRetries ==> oracle(msg, k).Raised?
    ensures RetryFrom(msg, maxRetries, oracle, attempt) == Raises(ModelError(oracle(msg, maxRetries - 1).error))
    decreases maxRetries - attempt
  {
    if attempt < maxRetries - 1 {
      AlwaysFailingRaisesLast(msg, maxRetries, oracle, attempt + 1);
    }
  }

  // ---------------------------------------------------------------- two-step mode

  /** What the two-step mode does after the classifier call: stop with an
      outcome, or ask again with a specialised prompt. */
  datatype Plan = Finish(result: Outcome) | Specialise(prompt: Prompt)

  /** The classifier answer's category and sub-category, the latter
      defaulting to "other". */
  function Classification(fields: map<string, Json>): (c: (Json, Json))
    ensures c.0 == Get(fields, "category")
    ensures Get(fields, "sub_category") == JNull ==> c.1 == JStr("other")
    ensures Get(fields, "sub_category") != JNull ==> c.1 == fields["sub_category"]
  {
    var sub := Get(fields, "sub_category");
    (Get(fields, "category"), if sub == JNull then JStr("other") else sub)
  }

  /** Decides the second step from the classifier call's outcome; `parse`
      stands for `json.loads`, `None` meaning it raised. */
  function NextStep(first: Outcome, parse: string -> Option<Json>): (plan: Plan)
    ensures first.Raises? ==> plan == Finish(first)
    ensures first == Returned(None) ==> plan == Finish(Returned(None))
    ensures plan.Specialise? ==> first.Returned? && first.content.Some?
    ensures plan.Specialise? ==> plan.prompt != ClassifierStep
    ensures first.Returned? && first.content.Some? && parse(first.content.value).None? ==>
              plan == Finish(Raises(MalformedClassification))
    ensures first.Returned? && first.content.Some? && parse(first.content.value).Some?
            && !parse(first.content.value).value.JObj? ==>
              plan == Finish(Raises(ClassificationNotAnObject))
    ensures first.Returned? && first.content.Some? && parse(first.content.value).Some?
            && parse(first.content.value).value.JObj? ==>
              var fields := parse(first.content.value).value.fields;
              && (Get(fields, "category") == JNull ==> plan == Finish(Returned(None)))
              && (Get(fields, "category") != JNull ==>
                    plan == Specialise(SelectPrompt(fields["category"], Classification(fields).1)))
  {
    match first
    case Raises(_) => Finish(first)
    case Returned(None) => Finish(Returned(None))
    case Returned(Some(text)) =>
      match parse(text)
      case None => Finish(Raises(MalformedClassification))
      case Some(JObj(fields)) =>
        var (category, sub) := Classification(fields);
        if category == JNull then Finish(Returned(None))
        else Specialise(SelectPrompt(category, sub))
      case Some(_) => Finish(Raises(ClassificationNotAnObject))
  }

  /** A classifier answer without a category ends the analysis with `None`;
      one without a sub-category is treated as sub-category "other". */
  lemma MissingClassificationKeys(text: string, parse: string -> Option<Json>, fields: map<string, Json>)
    requires parse(text) == Some(JObj(fields))
    ensures Get(fields, "category") == JNull ==> NextStep(Returned(Some(text)), parse) == Finish(Returned(None))
    ensures (Get(fields, "category") != JNull && Get(fields, "sub_category") == JNull)
            ==> NextStep(Returned(Some(text)), parse) == Specialise(SelectPrompt(fields["category"], JStr("other")))
  {
  }

  /** The two-step mode: a classifier call, then (if the classification has
      a category) a call with the specialised prompt. Both calls carry an
      explicit instruction, so the figure's context is never sent. */
  method AnalyseIteratively(maxRetries: int, oracle: Oracle, parse: string -> Option<Json>,
                            sectionName: Option<string>, priorContext: Option<string>, postContext: Option<string>)
    returns (outcome: Outcome, calls: nat)
    ensures NextStep(RetryFrom(Instruction(ClassifierStep), maxRetries, oracle, 0), parse).Finish? ==>
              outcome == NextStep(RetryFrom(Instruction(ClassifierStep), maxRetries, oracle, 0), parse).result
              && calls <= (if maxRetries > 0 then maxRetries else 0)
    ensures NextStep(RetryFrom(Instruction(ClassifierStep), maxRetries, oracle, 0), parse).Specialise? ==>
              outcome == RetryFrom(Instruction(NextStep(RetryFrom(Instruction(ClassifierStep), maxRetries, oracle, 0), parse).prompt),
                                   maxRetries, oracle, 0)
              && 2 <= calls <= 2 * maxRetries
    ensures maxRetries <= 0 ==> outcome == Returned(None) && calls == 0
  {
    var classifierMsg := SystemMessage(Some(ClassifierStep), sectionName, priorContext, postContext);
    var first, firstCalls, firstSleeps := AnalyseImageData(classifierMsg, maxRetries, oracle);
    match NextStep(first, parse)
    case Finish(r) =>
      outcome, calls := r, firstCalls;
    case Specialise(p) =>
      var msg := SystemMessage(Some(p), sectionName, priorContext, postContext);
      var secondCalls, secondSleeps;
      outcome, secondCalls, secondSleeps := AnalyseImageData(msg, maxRetries, oracle);
      calls := firstCalls + secondCalls;
  }
}
