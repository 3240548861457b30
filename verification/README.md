# pdf-parser figure reconciliation, modelled in Dafny

This project models the part of pdf-parser that turns a Document Intelligence
analysis into the final markdown of a PDF. Four steps are covered:

- **Placeholder records.** Every span of every figure becomes a replacement
  record. Each record holds the caption cut out of the span's text and the
  placeholder description.
- **Image descriptions.** These come from a vision model, in two forms: a
  bounded retry around one model call, and the two-step
  "classify, then describe with a specialised prompt" mode.
- **Correlation and splicing.**
  - Each description is merged into the first record of its figure.
  - The records are sorted by descending start.
  - Each span of the markdown is then replaced by a fixed block that holds
    the image name, the caption and the description.
- **Title.** The title comes from the first title paragraph. Failing that,
  it comes from the first level-one heading after a newline in the spliced
  markdown, so a heading inside an image description can supply it.
  Failing that, it is the file's stem. `Parser.Parse` composes the
  reconciliation with the title.

Around this core sit the pieces it relies on:

- the section-name and prior/post-context helpers of the markdown utilities;
- the `to_json`/`from_json` codecs of every analysis entity;
- the command-line tokenizer `parse_args`.

Modules (one per file):

| file | module | models |
|---|---|---|
| `wrappers.dfy` | `Wrappers` | `Option` and `Result` |
| `pystr.dfy` | `PyStr` | the Python `str` operations the source uses |
| `jsonvalue.dfy` | `JsonValue` | decoded JSON values; `d.get(key, [])` list comprehensions |
| `docintel.dfy` | `DocIntel` | the analysis entities and their JSON codecs |
| `image_analysis.dfy` | `ImageAnalysis` | prompt selection; system message; retry loop; two-step mode |
| `markdown.dfy` | `Markdown` | section name at an offset; prior and post context |
| `args.dfy` | `Args` | `parse_args` |
| `parser.dfy` | `Parser` | the items below |

`Parser` covers captions, replacement records, correlation, the stable
descending sort, the splice, the whole reconciliation and the title.

Several parts of the system are modelled rather than reproduced:

- **The vision model** is an oracle `(message, attempt) -> reply`.
- **The thread pool** is a sequential fold over the task outcomes in
  submission order. The source consumes its futures in exactly that order.
- **`json.loads`** is a parameter `parse` of the two-step mode.
- **`time.sleep`** is a recorded list of delays, in half-second units.
- **Prompt texts** are identifiers: one enum constructor per template.
- **Python semantics** are written out where they matter:
  - `str.find`/`rfind` return `-1` when nothing is found.
  - Slice bounds are clamped, and negative bounds count from the end.
  - `strip` removes whitespace from both ends.
  - `split` and `str(n)` behave as in Python.
  - `dict.get` returns a default for a missing key.

## Model

| member | source | states |
|---|---|---|
| `Parser.OpeningEnd` | src/pdfparser/parse/parser.py:106-110 | The caption starts just after the first `<figure>` if there is one, else just after the first `<figcaption>`, else at 0; never past the end of the span text |
| `Parser.ClosingStart` | src/pdfparser/parse/parser.py:112-116 | The caption ends at the first `</figure>` if there is one, else at the first `</figcaption>`, else -1; always within the span text |
| `Parser.CaptionBounds` | src/pdfparser/parse/parser.py:106-127 | The caption is a slice `[s, e)` of the span text with `0 <= s <= e <= len`; without any closing tag it is the whole text |
| `Parser.FigureTagsTakePrecedence` | src/pdfparser/parse/parser.py:106-116 | When `<figure>` and `</figure>` both occur, the caption runs from the end of the first `<figure>` to the first `</figure>`, whatever `<figcaption>` tags there are |
| `Parser.FigcaptionTagsDelimit` | src/pdfparser/parse/parser.py:106-116 | Without `<figure>`/`</figure>`, the caption runs from the end of the first `<figcaption>` to the first `</figcaption>` |
| `Parser.FigureOpenPairsWithFigcaptionClose` | src/pdfparser/parse/parser.py:106-116 | The start and end markers are chosen independently: `<figure>` may pair with `</figcaption>` |
| `Parser.NoOpeningTagStartsAtZero` | src/pdfparser/parse/parser.py:111-116 | With a closing tag but no opening tag, the caption starts at 0 and ends at the closing tag |
| `Parser.InvertedTagsTakeWholeText` | src/pdfparser/parse/parser.py:120-122 | When the end of the opening tag lies after the closing tag, the caption is the whole span text |
| `Parser.Caption` | src/pdfparser/parse/parser.py:127-129 | The stored caption is the text between the caption bounds, stripped, split at every two-character `\n` escape and joined back with spaces; no escape remains in it |
| `Parser.CaptionBetweenFigureTags` | src/pdfparser/parse/parser.py:105-129 | Between the first `<figure>` and the first `</figure>`, the caption is that text stripped, with each escape turned into a space |
| `Parser.PlainTextCaption` | src/pdfparser/parse/parser.py:118-129 | Text without closing tags and without escapes is its own caption, stripped |
| `Parser.CaptionStripsBeforeReplacing` | src/pdfparser/parse/parser.py:129 | Stripping comes before replacing: whenever the stripped caption text starts with an escaped newline, the caption starts with a space |
| `Parser.FlatSpans` | src/pdfparser/parse/parser.py:100-103 | The figures' spans in loop order, one entry per span, each tagged with its figure's index; indices are in range and non-decreasing |
| `Parser.MakeRecords` | src/pdfparser/parse/parser.py:100-135 | It succeeds exactly when every span's offset and length are integers, and then makes one record per span in loop order. Each record has start = offset, end = offset+length, the figure's index, the no-description placeholder and an empty image name. Each record's content is the caption of `markdown[start:end]` |
| `Parser.FlatSpansOfFigure` | src/pdfparser/parse/parser.py:100-103 | The records of figure `i` are exactly that figure's spans, in order; an index past the figures has none |
| `Parser.SpanRecord` | src/pdfparser/parse/parser.py:105-135 | The record of one span: its content is the caption of the markdown between its start and end |
| `Parser.Describe` | src/pdfparser/parse/parser.py:178-198 | A task's description is the analysis result, `None` included; any exception becomes the error placeholder |
| `Parser.ApplyResult` | src/pdfparser/parse/parser.py:208-213 | Applying a result changes nothing but descriptions and image names: figure ids, starts, ends and captions stay |
| `Parser.Correlate` | src/pdfparser/parse/parser.py:207-213 | Folding the results in submission order changes only descriptions and image names |
| `Parser.FirstWithFigure` | src/pdfparser/parse/parser.py:209-213 | A result goes to the first record in list order with its figure id; no earlier record has that id |
| `Parser.LastResultFor` | src/pdfparser/parse/parser.py:207-213 | No result for a figure exactly when no task was submitted for it |
| `Parser.LastResultForIsLast` | src/pdfparser/parse/parser.py:207-213 | The result found is a task for that figure with no later task for it: the last one submitted |
| `Parser.CorrelateLastWins` | src/pdfparser/parse/parser.py:207-213 | After correlation, a figure's first record holds the last submitted result for that figure (description and image name). Every other record is unchanged, so a figure's later spans keep the placeholder |
| `Parser.Expected` | src/pdfparser/parse/parser.py:207-213 | The reference for one record after correlation: the last result for its figure if it is that figure's first record, the record itself otherwise. It has no contract; `Parser.CorrelateLastWins` proves `Parser.Correlate` equal to it |
| `Parser.InsertByStart` | src/pdfparser/parse/parser.py:216 | Inserting into a list sorted by descending start keeps it sorted and adds exactly that element |
| `Parser.SortByStartDesc` | src/pdfparser/parse/parser.py:216 | The sort yields a permutation of the records ordered by non-increasing start |
| `Parser.SortIsStable` | src/pdfparser/parse/parser.py:216 | Records with equal start keep their relative order, as Python's stable sort with `reverse=True` does |
| `Parser.BlockText` | src/pdfparser/parse/parser.py:221 | The description block opens with the fixed header and is exactly as long as the fixed texts plus the image name, caption and description |
| `Parser.ApplyReplacement` | src/pdfparser/parse/parser.py:221 | One splice succeeds exactly when the record has a description. A missing one is the concatenation error |
| `Parser.SpliceAll` | src/pdfparser/parse/parser.py:220-221 | The splice loop succeeds exactly when every record has a description, and fails otherwise |
| `Parser.SpliceAllIsAssemble` | src/pdfparser/parse/parser.py:216-221 | For described records in descending, non-overlapping, in-bounds order, the splice loop equals the reference assembly. That assembly keeps the text between and around the spans in order and puts each record's block in its span's place |
| `Parser.Assemble` | src/pdfparser/parse/parser.py:216-221 | The reference assembly: the text below the highest range (with the lower ranges replaced), its block, and the untouched text above. It has no contract; `Parser.SpliceAllIsAssemble` and `Parser.AssembleLength` relate it to the splice loop |
| `Parser.AssembleLength` | src/pdfparser/parse/parser.py:216-221 | The result is the original length plus, for each record, its block length less `end - start` |
| `Parser.PermutationKeepsWellPlaced` | src/pdfparser/parse/parser.py:216 | Reordering records (as the sort does) keeps spans in bounds, pairwise non-overlapping and with distinct starts |
| `Parser.SortedWellPlacedDescend` | src/pdfparser/parse/parser.py:216-221 | In-bounds spans that do not overlap and have distinct starts, sorted by descending start, form the chain the splice loop needs: each span ends at or before the start of the previous one |
| `Parser.CorrelateKeepsRanges` | src/pdfparser/parse/parser.py:207-213 | Correlation leaves the record's spans as they were, so their placement is kept |
| `Parser.CorrelateKeepsDescribed` | src/pdfparser/parse/parser.py:207-213 | When records and results all carry descriptions, so do the correlated records |
| `Parser.SortKeepsDescribed` | src/pdfparser/parse/parser.py:216 | Sorting keeps every record described |
| `Parser.ReconcileWith` | src/pdfparser/parse/parser.py:100-221 | Records built, described by the results in submission order, sorted and spliced. A span that is not an integer fails with that error; with integer spans the only failure is a missing description |
| `Parser.ReconcileAsWritten` | src/pdfparser/parse/parser.py:100-221 | The reconciliation with `None` analyses stored as they are. It has no contract; `Parser.EmptyAnalysisAbortsParse` states how it fails |
| `Parser.AsWrittenAgreesWithoutEmptyAnalyses` | src/pdfparser/parse/parser.py:184-221 | When no image analysis returned `None`, the reconciliation as written equals the intended one, so it succeeds exactly when all spans are integers and splices as `Parser.ReconcileReplacesSpans` states |
| `Parser.Reconcile` | src/pdfparser/parse/parser.py:100-221 | The reconciliation with the intended placeholder for a `None` analysis. It has no contract; `Parser.ReconcileFailsOnlyOnSpans` and `Parser.ReconcileReplacesSpans` state its result |
| `Parser.Spliced` | src/pdfparser/parse/parser.py:207-216 | The records the reconciliation splices: one per record, sorted by descending start |
| `Parser.DescribeIntended` | src/pdfparser/parse/parser.py:183-198 | An analysis that returned nothing leaves the no-description placeholder; any other outcome is described as before |
| `Parser.ResultAsWritten` | src/pdfparser/parse/parser.py:184-198 | A task's result keeps its figure index and image name, and lacks a description exactly when the analysis returned `None` |
| `Parser.ResultIntended` | src/pdfparser/parse/parser.py:184-198 | The intended result always carries a description and equals the source's result for every outcome other than `None` |
| `Parser.ReconcileFailsOnlyOnSpans` | src/pdfparser/parse/parser.py:100-221 | With the intended description, reconciliation succeeds exactly when all spans are integers, and fails only for that reason |
| `Parser.ReconcileReplacesSpans` | src/pdfparser/parse/parser.py:100-221 | For in-bounds, pairwise non-overlapping spans with distinct starts (empty spans included), the result is the original with each span replaced by its block, in descending order. The length grows by each block less its span |
| `Parser.EmptyAnalysisAbortsParse` | src/pdfparser/parse/parser.py:207-221 | As written, when the last task of a figure that has a span returns `None`, the reconciliation fails at the concatenation |
| `Parser.FirstTitleParagraph` | src/pdfparser/parse/parser.py:229-232 | The first paragraph whose role is `"title"`; no earlier paragraph has that role |
| `Parser.ParagraphTitle` | src/pdfparser/parse/parser.py:226-232 | The content of the first title paragraph, `None` without one. It has no contract; `Parser.TitleFromFirstTitleParagraph` and `Parser.NullTitleParagraphFallsThrough` state its use |
| `Parser.HeadingTitle` | src/pdfparser/parse/parser.py:235-241 | A heading title exists exactly when the markdown contains `"\n# "`; it is one line |
| `Parser.Title` | src/pdfparser/parse/parser.py:227-247 | The title is never `None` |
| `Parser.TitleFromFirstTitleParagraph` | src/pdfparser/parse/parser.py:229-232 | The first title paragraph wins when its content is not `None`, whatever the markdown holds |
| `Parser.TitleFromHeading` | src/pdfparser/parse/parser.py:235-241 | Without a title paragraph, the title is the rest of the line of the first `"\n# "` after its `#`, up to the next newline (or the end), stripped |
| `Parser.LeadingHeadingIsMissed` | src/pdfparser/parse/parser.py:236-245 | A heading on the first line is never found: such a document without a title paragraph is titled by its file stem |
| `Parser.NullTitleParagraphFallsThrough` | src/pdfparser/parse/parser.py:226-245 | When the first title paragraph has `None` content, no paragraph counts, not even a later title paragraph with content. The title is the one the markdown alone gives, and the file stem when there is no `"\n# "` |
| `Parser.TitleAfterHashFreeText` | src/pdfparser/parse/parser.py:235-241 | Without a title paragraph, a heading line that follows text without any `#` gives the title, whatever comes after its line |
| `Parser.Parse` | src/pdfparser/parse/parser.py:100-247 | The parse, with the intended placeholder for a `None` analysis, succeeds exactly when that reconciliation does, with the same error otherwise. Its title is the one found in the reconciled markdown, not in the markdown before splicing |
| `Parser.ParseFailsOnlyOnSpans` | src/pdfparser/parse/parser.py:100-247 | A parse fails exactly when some figure span is not a pair of integers, and then with that error |
| `Parser.ReconcileOneEmptySpan` | src/pdfparser/parse/parser.py:100-221 | An empty text with one figure whose one span is empty and at the start, described by one task, reconciles to exactly that figure's block |
| `Parser.DescriptionHeadingGivesTitle` | src/pdfparser/parse/parser.py:219-241 | A description that holds a heading line gives the document its title when no paragraph does: the title comes from the spliced text |
| `Markdown.HeadingLevel` | src/pdfparser/util/markdown.py:14-21 | A line sets level k exactly when it starts with k `#` followed by a space, for k in 1..4; other lines set none |
| `Markdown.ApplyHeadingLine` | src/pdfparser/util/markdown.py:14-21 | A heading line sets its own level to the stripped rest of the line and leaves the other three levels as they were |
| `Markdown.ScanHeadings` | src/pdfparser/util/markdown.py:11-23 | The heading scan over the lines. It has no contract; `Markdown.ScanIsPrefixFold` and `Markdown.FoldKeepsLastHeading` state which lines it reads and what it keeps |
| `Markdown.NonHeadingLineIgnored` | src/pdfparser/util/markdown.py:14-21 | A line that is no heading of levels 1-4 (e.g. `"##### x"` or `"#x"`) changes nothing |
| `Markdown.FoldKeepsLastHeading` | src/pdfparser/util/markdown.py:13-21 | After a run of lines, each level holds the last heading of that level, or its earlier value if none. Levels are never reset by a higher-level heading |
| `Markdown.ScanIsPrefixFold` | src/pdfparser/util/markdown.py:12-23 | The scan reads exactly the lines up to and including the first one at which the running length reaches the offset; the first line is always read |
| `Markdown.JoinSectionName` | src/pdfparser/util/markdown.py:25-36 | The join of the four levels. It has no contract; `Markdown.SectionNameJoinsPresentNames` states its result |
| `Markdown.SectionNameJoinsPresentNames` | src/pdfparser/util/markdown.py:25-36 | The section name joins the present names h1..h4 with `" / "`. A name starts the string whenever the string is still empty, and no headings give `""` |
| `Markdown.SectionNameAt` | src/pdfparser/util/markdown.py:3-36 | `get_section_name` itself. It has no contract; `Markdown.SectionNameFromScannedLines` states its result |
| `Markdown.SectionNameFromScannedLines` | src/pdfparser/util/markdown.py:3-36 | The section name is that join over the last heading of each level among the scanned lines |
| `Markdown.PriorContext` | src/pdfparser/util/markdown.py:38-54 | The prior context is no longer than the markdown and has no whitespace at either end; the four case lemmas below state which piece it is |
| `Markdown.PriorContextNoSpace` | src/pdfparser/util/markdown.py:42-43 | No space before the offset gives `""` |
| `Markdown.PriorContextNoNewline` | src/pdfparser/util/markdown.py:46-47 | No newline before the last space before the offset gives `""` |
| `Markdown.PriorContextOneNewline` | src/pdfparser/util/markdown.py:50-52 | With exactly one newline before that space, the context runs from it up to the offset, stripped |
| `Markdown.PriorContextTwoNewlines` | src/pdfparser/util/markdown.py:50-54 | With two or more, it runs from the second-to-last of them up to the offset, stripped |
| `Markdown.PostContext` | src/pdfparser/util/markdown.py:57-72 | The post context is no longer than the markdown and has no whitespace at either end; the case lemmas below state which piece it is |
| `Markdown.PostContextTo` | src/pdfparser/util/markdown.py:67-72 | Once the first newline after the space is known, the same bounds hold for the piece up to the second newline, or to the first |
| `Markdown.PostContextNoNewline` | src/pdfparser/util/markdown.py:61-65 | No newline after the first space from the offset gives `""` |
| `Markdown.PostContextOneNewline` | src/pdfparser/util/markdown.py:68-70 | With exactly one newline after that space, the context runs from the offset to it, stripped |
| `Markdown.PostContextTwoNewlines` | src/pdfparser/util/markdown.py:68-72 | With two or more, it runs from the offset to the second, stripped |
| `Markdown.PostContextWithoutSpace` | src/pdfparser/util/markdown.py:61-65 | With no space from the offset on, the newline search starts at -1 and inspects only the final character |
| `ImageAnalysis.SelectPrompt` | src/pdfparser/parse/image_analysis.py:730-801 | Selection never picks the classifier prompt, and a category that is not a string gets the generic template |
| `ImageAnalysis.SelectPromptIsLookup` | src/pdfparser/parse/image_analysis.py:730-801 | The selection chain equals a table lookup. A known pair gets its own template, an unknown sub-category its category's fallback, formula/text ignore the sub-category, and any other category gets the generic template |
| `ImageAnalysis.CategoryWithTemplatesIsLookup` | src/pdfparser/parse/image_analysis.py:730-799 | For table, chart, picture and radiograph the chain equals the lookup in that category's templates |
| `ImageAnalysis.CategoryWithoutTemplatesIsLookup` | src/pdfparser/parse/image_analysis.py:778-801 | For every other category the chain equals the category fallback or the generic template |
| `ImageAnalysis.TablePromptIsLookup` | src/pdfparser/parse/image_analysis.py:730-742 | The table branch is the table template lookup with the standard template as fallback |
| `ImageAnalysis.ChartPromptIsLookup` | src/pdfparser/parse/image_analysis.py:743-777 | The chart branch is the chart template lookup with the chart-other fallback |
| `ImageAnalysis.PicturePromptIsLookup` | src/pdfparser/parse/image_analysis.py:782-790 | The picture branch is the picture template lookup with the picture-other fallback |
| `ImageAnalysis.RadiographPromptIsLookup` | src/pdfparser/parse/image_analysis.py:791-799 | The radiograph branch is the radiograph template lookup with the radiograph-other fallback |
| `ImageAnalysis.TablePromptSelectedByCategory` | src/pdfparser/parse/image_analysis.py:730-742 | Category `"table"` reaches the table branch |
| `ImageAnalysis.ChartPromptSelectedByCategory` | src/pdfparser/parse/image_analysis.py:743-777 | Category `"chart"` reaches the chart branch |
| `ImageAnalysis.PicturePromptSelectedByCategory` | src/pdfparser/parse/image_analysis.py:782-790 | Category `"picture"` reaches the picture branch |
| `ImageAnalysis.RadiographPromptSelectedByCategory` | src/pdfparser/parse/image_analysis.py:791-799 | Category `"radiograph"` reaches the radiograph branch |
| `ImageAnalysis.OfferedSubcategoriesHaveTemplates` | src/pdfparser/parse/image_analysis.py:7-68 | Every table, chart and picture sub-category the classifier is offered (besides "other") has a template |
| `ImageAnalysis.OfferedScansMissTemplates` | src/pdfparser/parse/image_analysis.py:52-53 | Of the offered radiograph sub-categories, the upper-case `"MRI"` and `"CT"` have no template |
| `ImageAnalysis.UpperCaseScansFallBack` | src/pdfparser/parse/image_analysis.py:791-799 | Comparison is case-sensitive: `"MRI"`/`"CT"` reach the radiograph-other template, `"mri"`/`"ct"` their own |
| `ImageAnalysis.TableFallsBackToStandard` | src/pdfparser/parse/image_analysis.py:730-742 | A table sub-category without its own template gets the standard table template, and table-other is the same as table-standard |
| `ImageAnalysis.FormulaAndTextIgnoreSubcategory` | src/pdfparser/parse/image_analysis.py:778-781 | Formula and text images get their fixed template whatever the sub-category |
| `ImageAnalysis.UnknownCategoryIsGeneric` | src/pdfparser/parse/image_analysis.py:800-801 | A category outside the six the selector knows gets the generic template |
| `ImageAnalysis.SystemMessage` | src/pdfparser/parse/image_analysis.py:678-683 | A given instruction is used verbatim. Otherwise the default template is filled with the given section name and contexts |
| `ImageAnalysis.SystemMessageContext` | src/pdfparser/parse/image_analysis.py:678-683 | With an instruction the context arguments do not matter; without one the missing values become "Unknown", "No prior context" and "No post context" |
| `ImageAnalysis.AnalyseImageData` | src/pdfparser/parse/image_analysis.py:703-711 | At most `max_retries` calls, the first reply returned; after failed attempt k (not the last) a sleep of 1+k half-seconds and none after the last; the last attempt's exception re-raised; with `max_retries <= 0` no call and `None`; the loop agrees with the recursive definition |
| `ImageAnalysis.AlwaysFailingRaisesLast` | src/pdfparser/parse/image_analysis.py:703-711 | When every remaining attempt raises, the loop re-raises the last attempt's exception |
| `ImageAnalysis.Classification` | src/pdfparser/parse/image_analysis.py:722-726 | The category is read as it is; a missing or null sub-category becomes `"other"` |
| `ImageAnalysis.NextStep` | src/pdfparser/parse/image_analysis.py:716-728 | A classifier exception propagates and a `None` answer gives `None`. An answer that is not JSON raises the malformed-classification error, and JSON that is not an object raises the not-an-object error. An object without a category gives `None`. Otherwise the second call uses the prompt selected for its category and sub-category (`"other"` when missing), never the classifier's |
| `ImageAnalysis.MissingClassificationKeys` | src/pdfparser/parse/image_analysis.py:720-726 | A classification without a category ends with `None` and no second call; one without a sub-category is treated as `"other"` |
| `ImageAnalysis.AnalyseIteratively` | src/pdfparser/parse/image_analysis.py:714-804 | Either the classifier's outcome or a second retried call with the selected prompt; at most `2 * max_retries` calls, none when `max_retries <= 0` |
| `JsonValue.DecodeAll` | src/pdfparser/parse/docintel.py:654-663 | A list comprehension of decoders succeeds exactly when every element decodes, keeps the length, and fails with an element's error |
| `JsonValue.ListField` | src/pdfparser/parse/docintel.py:654-663 | `json.get(key, [])`: a missing key gives no elements, an array decodes element-wise, and null, booleans and numbers cannot be iterated |
| `JsonValue.DecodeEncodeAll` | src/pdfparser/parse/docintel.py:640-663 | Encoding a list and decoding it gives each element back as its codec round-trips it |
| `JsonValue.EmptyIterablesGiveNoElements` | src/pdfparser/parse/docintel.py:654-663 | An empty string, object or array under a list key decodes to no elements |
| `DocIntel.SpanToJson` | src/pdfparser/parse/docintel.py:17-20 | Emits exactly the keys `offset`, `length` |
| `DocIntel.SpanFromJson` | src/pdfparser/parse/docintel.py:22-26 | Decodes exactly the objects |
| `DocIntel.SpanRoundTrip` | src/pdfparser/parse/docintel.py:17-26 | Decoding an encoded span gives it back |
| `DocIntel.SpanDefaults` | src/pdfparser/parse/docintel.py:22-26 | Missing keys default to `None` |
| `DocIntel.WordToJson` | src/pdfparser/parse/docintel.py:42-47 | Emits exactly its four keys |
| `DocIntel.WordFromJson` | src/pdfparser/parse/docintel.py:49-55 | Succeeds exactly on objects whose `span` is an object |
| `DocIntel.WordRoundTrip` | src/pdfparser/parse/docintel.py:42-55 | Lossless round trip |
| `DocIntel.LineToJson` | src/pdfparser/parse/docintel.py:68-72 | Emits exactly its three keys |
| `DocIntel.LineFromJson` | src/pdfparser/parse/docintel.py:74-79 | A non-object fails |
| `DocIntel.LineRoundTrip` | src/pdfparser/parse/docintel.py:68-79 | Lossless round trip, spans included |
| `DocIntel.LineDefaults` | src/pdfparser/parse/docintel.py:74-79 | An empty object decodes to `None` content and polygon and no spans |
| `DocIntel.BarcodeToJson` | src/pdfparser/parse/docintel.py:97-103 | Emits exactly its five keys |
| `DocIntel.BarcodeFromJson` | src/pdfparser/parse/docintel.py:105-112 | Succeeds exactly on objects whose `span` is an object |
| `DocIntel.BarcodeRoundTrip` | src/pdfparser/parse/docintel.py:97-112 | Lossless round trip |
| `DocIntel.FormulaToJson` | src/pdfparser/parse/docintel.py:129-135 | Emits exactly its five keys |
| `DocIntel.FormulaFromJson` | src/pdfparser/parse/docintel.py:137-144 | Succeeds exactly on objects whose `span` is an object |
| `DocIntel.FormulaRoundTrip` | src/pdfparser/parse/docintel.py:129-144 | Lossless round trip |
| `DocIntel.PageToJson` | src/pdfparser/parse/docintel.py:169-179 | Emits exactly the page's keys |
| `DocIntel.PageFromJson` | src/pdfparser/parse/docintel.py:181-192 | A non-object fails |
| `DocIntel.PageRoundTrip` | src/pdfparser/parse/docintel.py:169-192 | Lossless round trip, with words, lines, spans, barcodes and formulas |
| `DocIntel.PageDefaults` | src/pdfparser/parse/docintel.py:181-192 | An empty object decodes to `None` scalars and empty word, line, barcode and formula lists |
| `DocIntel.RegionToJson` | src/pdfparser/parse/docintel.py:203-206 | Emits exactly `page_number`, `polygon` |
| `DocIntel.RegionFromJson` | src/pdfparser/parse/docintel.py:208-212 | Decodes exactly the objects |
| `DocIntel.RegionRoundTrip` | src/pdfparser/parse/docintel.py:203-212 | Lossless round trip |
| `DocIntel.ParagraphToJson` | src/pdfparser/parse/docintel.py:228-233 | Emits exactly its four keys |
| `DocIntel.ParagraphFromJson` | src/pdfparser/parse/docintel.py:235-241 | A non-object fails |
| `DocIntel.ParagraphRoundTrip` | src/pdfparser/parse/docintel.py:228-241 | Lossless round trip |
| `DocIntel.CellToJson` | src/pdfparser/parse/docintel.py:265-274 | Emits exactly its keys, without `elements` |
| `DocIntel.CellFromJson` | src/pdfparser/parse/docintel.py:276-286 | A decoded cell has `elements` = `None` |
| `DocIntel.CellRoundTrip` | src/pdfparser/parse/docintel.py:265-286 | The round trip loses only `elements` |
| `DocIntel.FootnoteToJson` | src/pdfparser/parse/docintel.py:300-304 | Emits exactly its three keys, without `elements` |
| `DocIntel.FootnoteFromJson` | src/pdfparser/parse/docintel.py:306-311 | A decoded footnote has `elements` = `None` |
| `DocIntel.FootnoteRoundTrip` | src/pdfparser/parse/docintel.py:300-311 | The round trip loses only `elements` |
| `DocIntel.TableToJson` | src/pdfparser/parse/docintel.py:332-339 | Emits exactly its six keys, without `footnotes` |
| `DocIntel.TableFromJson` | src/pdfparser/parse/docintel.py:341-349 | A decoded table has `footnotes` = `None` |
| `DocIntel.TableRoundTrip` | src/pdfparser/parse/docintel.py:332-349 | The round trip loses the table's footnotes and its cells' elements |
| `DocIntel.FigureToJson` | src/pdfparser/parse/docintel.py:367-372 | Emits exactly `bounding_regions`, `spans`, `caption`, `footnotes`, without `id` and `elements` |
| `DocIntel.FigureFromJson` | src/pdfparser/parse/docintel.py:374-380 | A decoded figure has `id` and `elements` = `None` |
| `DocIntel.FigureRoundTrip` | src/pdfparser/parse/docintel.py:367-380 | The round trip keeps regions, spans, caption and footnotes (less their elements) and loses `id` and `elements` |
| `DocIntel.FigureNullFootnotesIsEmpty` | src/pdfparser/parse/docintel.py:341-380 | An explicit null footnote list on a figure becomes `[]`; an explicit null for another list key (table cells) fails to iterate |
| `DocIntel.SectionToJson` | src/pdfparser/parse/docintel.py:391-394 | Emits exactly `spans`, `elements` |
| `DocIntel.SectionFromJson` | src/pdfparser/parse/docintel.py:396-400 | A non-object fails |
| `DocIntel.SectionRoundTrip` | src/pdfparser/parse/docintel.py:391-400 | Lossless round trip |
| `DocIntel.ElementToJson` | src/pdfparser/parse/docintel.py:413-417 | Emits exactly its three keys |
| `DocIntel.ElementFromJson` | src/pdfparser/parse/docintel.py:419-424 | A non-object fails |
| `DocIntel.ElementRoundTrip` | src/pdfparser/parse/docintel.py:413-424 | Lossless round trip |
| `DocIntel.PairToJson` | src/pdfparser/parse/docintel.py:437-441 | Emits exactly `key`, `value`, `confidence` |
| `DocIntel.PairFromJson` | src/pdfparser/parse/docintel.py:443-448 | Fails when the pair or its key is not an object; success needs key and value objects |
| `DocIntel.PairRoundTrip` | src/pdfparser/parse/docintel.py:437-448 | Lossless round trip |
| `DocIntel.LanguageToJson` | src/pdfparser/parse/docintel.py:462-466 | Emits exactly its three keys |
| `DocIntel.LanguageFromJson` | src/pdfparser/parse/docintel.py:468-473 | A non-object fails |
| `DocIntel.LanguageRoundTrip` | src/pdfparser/parse/docintel.py:462-473 | Lossless round trip |
| `DocIntel.StyleToJson` | src/pdfparser/parse/docintel.py:496-505 | Emits exactly the style's keys |
| `DocIntel.StyleFromJson` | src/pdfparser/parse/docintel.py:507-517 | A non-object fails |
| `DocIntel.StyleRoundTrip` | src/pdfparser/parse/docintel.py:496-517 | Lossless round trip |
| `DocIntel.FieldToJson` | src/pdfparser/parse/docintel.py:534-540 | Emits exactly its five keys |
| `DocIntel.FieldFromJson` | src/pdfparser/parse/docintel.py:542-549 | A non-object fails |
| `DocIntel.FieldRoundTrip` | src/pdfparser/parse/docintel.py:534-549 | Lossless round trip |
| `DocIntel.DocumentToJson` | src/pdfparser/parse/docintel.py:566-572 | Emits exactly its five keys |
| `DocIntel.DocumentFromJson` | src/pdfparser/parse/docintel.py:574-581 | A non-object fails |
| `DocIntel.DocumentRoundTrip` | src/pdfparser/parse/docintel.py:566-581 | Lossless round trip, fields included |
| `DocIntel.WarningToJson` | src/pdfparser/parse/docintel.py:595-599 | Emits exactly `code`, `message`, `target` |
| `DocIntel.WarningFromJson` | src/pdfparser/parse/docintel.py:601-606 | Decodes exactly the objects |
| `DocIntel.WarningRoundTrip` | src/pdfparser/parse/docintel.py:595-606 | Lossless round trip |
| `DocIntel.AnalysisToJson` | src/pdfparser/parse/docintel.py:637-650 | Emits exactly the eleven top-level keys |
| `DocIntel.AnalysisFromJson` | src/pdfparser/parse/docintel.py:651-664 | A non-object fails |
| `DocIntel.AnalysisFromDecodedKeys` | src/pdfparser/parse/docintel.py:651-664 | The analysis is decoded key by key from the same eleven keys |
| `DocIntel.AnalysisRoundTrip` | src/pdfparser/parse/docintel.py:637-664 | The whole-analysis round trip equals the componentwise round trips: lossless except the table, figure, cell and footnote losses |
| `DocIntel.AnalysisDefaults` | src/pdfparser/parse/docintel.py:651-664 | An empty object gives markdown `None` and empty lists |
| `DocIntel.SpanIsRequired` | src/pdfparser/parse/docintel.py:49-55 | Word, Barcode and Formula fail without a `span` object, as `None` has no `.get` |
| `Args.ParseArgs` | src/pdfparser/util/__init__.py:4-24 | An empty list gives an empty map. Otherwise the keys are exactly those the arguments name, and each holds the value of the last argument naming it |
| `Args.OptionEntry` | src/pdfparser/util/__init__.py:12-19 | The key and value of one option argument. It has no contract; `Args.DoubleDashWithValue`, `Args.DoubleDashFlag`, `Args.SingleDashKey` and `Args.DoubleDashDropsBothDashes` state its cases |
| `Args.DoubleDashWithValue` | src/pdfparser/util/__init__.py:12-16 | `--k=v=rest` gives key `k` and value `v` |
| `Args.DoubleDashFlag` | src/pdfparser/util/__init__.py:12-16 | `--k` with no `=` gives key `k` with `True` |
| `Args.SingleDashKey` | src/pdfparser/util/__init__.py:17-19 | `-rest` gives the whole remainder, `=` included, as key, with `True` |
| `Args.DoubleDashDropsBothDashes` | src/pdfparser/util/__init__.py:12-19 | The `--` test comes first, so `--x` never yields key `-x` |
| `Args.PositionalKeysDistinct` | src/pdfparser/util/__init__.py:20-22 | Bare arguments get distinct numbers; options in between do not advance the count |
| `PyStr.Find` | src/pdfparser/parse/parser.py:236 | `str.find`: -1 exactly when the pattern does not occur, else its first occurrence |
| `PyStr.FindFrom` | src/pdfparser/util/markdown.py:61-68 | `str.find` with a start: the first occurrence at or after the normalised start, -1 when none |
| `PyStr.RFind` | src/pdfparser/util/markdown.py:42-50 | `str.rfind(p, 0, end)`: the last occurrence ending by the clamped end, -1 when none |
| `PyStr.Slice` | src/pdfparser/parse/parser.py:105 | Python slicing: the clamped range, empty when inverted |
| `PyStr.Strip` | src/pdfparser/parse/parser.py:129 | `strip()`: no longer than the input, and no whitespace at either end of the result |
| `PyStr.StripPiece` | src/pdfparser/parse/parser.py:129 | The result is a contiguous piece of the input with only whitespace before and after it |
| `PyStr.StripIdempotent` | src/pdfparser/parse/parser.py:241 | Stripping twice equals stripping once |
| `PyStr.Split` | src/pdfparser/util/markdown.py:11 | `split(sep)`: at least one part, none containing the separator |
| `PyStr.SplitJoin` | src/pdfparser/util/markdown.py:11 | Joining the parts with the separator gives the input back |
| `PyStr.ReplaceEscapesRemovesAll` | src/pdfparser/parse/parser.py:129 | After replacing every `\n` escape by a space none is left |
| `PyStr.ReplaceAbsent` | src/pdfparser/parse/parser.py:129 | `replace` leaves text in which the pattern does not occur unchanged |
| `PyStr.ReplaceAll` | src/pdfparser/parse/parser.py:129 | Python's `str.replace` with a non-empty pattern. It has no contract; `PyStr.ReplaceAbsent`, `PyStr.ReplaceFirst` and `PyStr.ReplaceIsJoinOfSplit` characterise it |
| `PyStr.ReplaceFirst` | src/pdfparser/parse/parser.py:129 | `replace` copies the text before the first occurrence, puts the replacement there, and carries on after the occurrence |
| `PyStr.SplitOn` | src/pdfparser/parse/parser.py:129 | `str.split` with a string separator, built from `find`: always at least one piece |
| `PyStr.SplitOnJoin` | src/pdfparser/parse/parser.py:129 | Joining the pieces with the separator gives the input back |
| `PyStr.SplitOnPiecesFree` | src/pdfparser/parse/parser.py:129 | The separator occurs in none of the pieces |
| `PyStr.ReplaceIsJoinOfSplit` | src/pdfparser/parse/parser.py:129 | `s.replace(p, r)` equals `r.join(s.split(p))` |
| `PyStr.NatToDecimal` | src/pdfparser/util/__init__.py:21 | `str(n)`: decimal digits without a leading zero |
| `PyStr.DecimalRoundTrip` | src/pdfparser/util/__init__.py:21 | Reading the decimal text back gives the number |

## Left out

- **External services:**
  - The Azure Document Intelligence client (`DocIntelAnalyser`) and every `from_result_*` converter, because they wrap a foreign SDK over the network.
  - The LLM client, which is only the oracle parameter of the retry loop.
- **File I/O:**
  - Loading and saving the analysis cache and the image-analysis cache files, saving images and creating folders.
  - The model reads no cache file. A cache hit (parser.py:165-175, 192) is one of the task outcomes taken as a parameter. It is a string or `None`, or a raise when the cached JSON is not an object, because `.get` then fails and parser.py:193-195 catches it.
- **Rasterisation:**
  - Loading PDF pages and rendering figure regions.
  - The floating-point crop rectangle from `xRatio`/`yRatio`, and the file-name encoding.
  - The per-region exception that skips a region.
  - The section name and contexts of parser.py:158-160 read `span`, the variable left over from the span loop. Each figure's values come from its last span, and a figure without spans uses the previous figure's. When no span precedes it, the `UnboundLocalError` is caught as a per-region exception at :201. These values only reach the image tasks, which are a parameter here.
  - The model takes the image tasks (figure index, outcome, image name) as a parameter. These are only built when images are analysed and a model is configured.
- **Concurrency:** the thread pool. Tasks are consumed in submission order, which the sequential fold reproduces.
- **Library calls:**
  - base64 encoding of the image.
  - `json.loads` of the classifier answer: a `parse` parameter stands for it, with `None` meaning it raised.
  - `time.sleep`: recorded as a list of delays.
- **Prompt texts** are identifiers. Their wording, and the literal formatting of the default analysis message, are not modelled.
- **Scripts:** the command-line scripts under `bin`. `parse_args` reads `sys.argv[1:]`, which is its parameter here.
- **Floating-point payloads** (polygons, confidences, angles) are kept as opaque JSON values.
- **JSON output details:** the key order of dictionaries, and the exact exception types, collapse into `NotAnObject` (no `.get`) and `NotIterable`.
- **Python values outside the model:**
  - A non-string markdown.
  - A boolean used as a span offset: a Python `bool` is an `int`, while the model requires `JInt`.
  - A non-string caption, description or image name: these are strings in the model.
- **Caption dead code:** the `caption_start == -1` checks. The start is never -1, which `OpeningEnd`'s result type shows.
- `Parser.ReconcileReplacesSpans`: proved only for in-bounds spans that do not overlap and have distinct starts. Empty spans are included: such a span is replaced by its block, which amounts to inserting the block at its offset. Two spans that start at the same offset are left out; without overlap, at least one of them is empty. The stable sort keeps their original order, so an empty span listed before a non-empty one at the same offset breaks the descending chain the splice relies on. Overlapping spans are left out too: the source still splices them, but the result is not "each span replaced by its block". `Parser.SpliceAllIsAssemble` covers every descending chain.
- `Parser.Title`: the title paragraph's content is returned as the JSON value it holds, not necessarily a string, as in the source.

## Findings

| source | as written | input that shows it | evidently intended | confidence | as-written member | corrected member |
|---|---|---|---|---|---|---|
| src/pdfparser/parse/parser.py:184-221 | A `None` analysis result is stored as the figure's description (lines 184-198, 210-211), and concatenating it into the block raises `TypeError` at line 221. The whole parse aborts | A figure with one span whose image task returns `None`. The two-step analyser does this when the classifier's answer has no `"category"` (src/pdfparser/parse/image_analysis.py:723-724), and either analyser does it when the model replies with no content | The figure keeps the `<!-- No description available -->` placeholder, and the rest of the document is reconciled | medium; not executed | `Parser.EmptyAnalysisAbortsParse` | `Parser.DescribeIntended`, with `Parser.ReconcileFailsOnlyOnSpans` proved for `Parser.Reconcile` |
