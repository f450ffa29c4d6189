# trivia-schema: rendering core of `make-html`

This project models, in Dafny, how the trivia-schema tool `tools/make-html.js`
turns a validated trivia document into an HTML page. The model covers three parts:

- **Answer formatter** (`formatAnswer`). An answer is a bare string, or a
  record whose fields are tested in the fixed order `regex`, `choice`, `and`,
  `or`, `n`. The first field that is set decides the text.
- **Multimedia resolver** (`formatMM`). An indirect `mmref` is looked up in the
  document's `multimedia` table. An `image` shows its first source only. An
  `audio` object lists every source. Any other type shows nothing. A source's
  address is its `uri`, or a `data:` URI built from `mimetype` and `data`.
- **Item assembler and template splice** (the `if (valid)` block). Missing
  titles and descriptions get defaults. Each item gets one block, in order, and
  one running index ties together the item's "Show Answer" control, its
  `showAnswer(i)` handler call and its hidden answer `ans<i>`. The three
  placeholders are replaced at every occurrence.

JavaScript semantics the model spells out:

- **Falsy fields.** An empty `title`, `description`, `question`, `regex`, `choice`
  or `uri` acts as absent, and so does `n == 0`. An `and`, `or` or `of` array
  counts as present even when it is empty.
- **`undefined` in templates.** A template literal prints `undefined` as the
  text `undefined`. So an answer that matches no variant shows `undefined` in
  its cell. An audio source without a `mimetype` gets `type="undefined"`.
- **Errors.** The program throws a TypeError and writes nothing when:
  - an `mmref` key is not in the table;
  - an image has no sources;
  - `n` is set without an `of` list.

  The model returns these as `Err` values (`Trivia.RenderError`). When several
  apply, the first one reached in program order is returned.
- **Replacement.** `String.prototype.replace` with a global literal pattern
  becomes `Text.ReplaceAll`, a left-to-right scan. `Split` and `Join` describe
  what it does. The three replacements run in the program's order: title,
  then description, then content.

A dangling `mmref` makes the program throw a TypeError; the model returns
`Err(UnresolvedReference)`.

The loops are methods, each proved equal to a pure specification function, and
the lemmas are stated about those functions:

- `MakeHtml.Render` is the main block. Its item loop is `MakeHtml.RenderItems`,
  and the loop body is `MakeHtml.RenderItem`. They compute `Page`, `ItemsFrom`
  and `ItemBlock`.
- `Multimedia.FormatMM` wraps its loop `Multimedia.RefsMarkup` in the container.
  The type dispatch in the loop body is `Multimedia.ObjectMarkup`, and the inner
  loop over audio sources is `Multimedia.AudioSources`. They compute
  `Container`, `RefsHtml`, `ObjectHtml` and `SourceTags`.

Rendering is a function of the template and the document, so rendering the same
document twice gives the same output.

## Model

| member | source | states |
|---|---|---|
| `Answers.FormatAnswer` | tools/make-html.js:49-68 | a bare string comes back unchanged; the result is an error exactly when `n` is the first set field and `of` is missing; it is `undefined` exactly when none of regex, choice, and, or, n is set |
| `Answers.PriorityOrder` | tools/make-html.js:53-67 | two answer records that agree on every field up to the first set one of the first record format identically: later fields never matter (regex > choice > and > or > n) |
| `Answers.VariantTexts` | tools/make-html.js:53-67 | the text of each single-field answer whose field is set: "Matches regular expression p", "Answer choice l", "(all of) ", "(any of) ", "(n of) " followed by the items joined with ", " |
| `Answers.AllOfRecoverable` | tools/make-html.js:59-61 | for a non-empty `and` list whose items contain no ", ", the "(all of) " text gives back exactly that list |
| `Answers.AnyOfRecoverable` | tools/make-html.js:62-64 | for a non-empty `or` list whose items contain no ", ", the "(any of) " text gives back exactly that list |
| `Answers.ThresholdRecoverable` | tools/make-html.js:65-67 | for `n >= 1` and a non-empty `of` list whose items contain no ", ", the "(n of) " text gives back both the number and the list |
| `Answers.Examples` | tools/make-html.js:49-58 | sample answers and their texts: "4", "Matches regular expression ^cat.*", "Answer choice B" |
| `Answers.ListExamples` | tools/make-html.js:59-64 | sample list answers: "(all of) x, y" and "(any of) x, y" |
| `Answers.ThresholdExample` | tools/make-html.js:65-67 | a sample threshold answer: "(2 of) x, y, z" |
| `Multimedia.Resolve` | tools/make-html.js:73-75 | resolving fails exactly when the reference is indirect and its key is not in the table |
| `Multimedia.DisplayUri` | tools/make-html.js:77-78 | a non-empty `uri` is used as is; otherwise the address is a `data:` URI |
| `Multimedia.DataUriRecoverable` | tools/make-html.js:78 | when neither the mimetype nor the data contains ";base64,", the synthesised URI is "data:" followed by text that splits back into exactly the mimetype and the data |
| `Multimedia.ObjectHtml` | tools/make-html.js:76-90 | one object fails exactly when it is an image without sources; it adds nothing exactly when its type is neither image nor audio |
| `Multimedia.Container` | tools/make-html.js:70-93 | the block succeeds exactly when every reference resolves and no image lacks sources; it then starts with the `mmcontainer` opening tag and ends with `</div>` |
| `Multimedia.FormatMM` | tools/make-html.js:70-93 | formatMM computes exactly `Container` |
| `Multimedia.RefsMarkup` | tools/make-html.js:71-91 | the loop over references, with resolution, type dispatch and early failure, computes exactly `RefsHtml` |
| `Multimedia.ObjectMarkup` | tools/make-html.js:76-90 | the type dispatch of the loop body computes exactly `ObjectHtml` |
| `Multimedia.AudioSources` | tools/make-html.js:83-88 | the inner loop builds one `<source>` element per source, in order |
| `Multimedia.RefsHtmlOkIff` | tools/make-html.js:72-91 | the references render exactly when each one is renderable |
| `Multimedia.RefsHtmlAppend` | tools/make-html.js:72-91 | rendering a list of references equals rendering its first part followed by its second part, so the output follows input order |
| `Multimedia.RefsHtmlPieces` | tools/make-html.js:72-91 | a rendered block is the concatenation of one piece per reference, piece k coming from reference k |
| `Multimedia.RefContribution` | tools/make-html.js:76-90 | a reference adds nothing exactly when its type is neither image nor audio; an image adds one `mmcontent` image division for its first source, and audio adds one `mmcontent` audio division listing all its sources |
| `Multimedia.ContainerDivisions` | tools/make-html.js:70-93 | a rendered block is the container around one piece per reference, in input order: an image division for an image, an audio division for audio, nothing for any other type |
| `Multimedia.SkipNonMedia` | tools/make-html.js:76-90 | inserting a reference of any other type anywhere leaves the block unchanged |
| `Multimedia.IndirectAsInline` | tools/make-html.js:73-75 | an `{mmref: k}` whose key is in the table renders identically to the object `multimedia[k]` placed inline |
| `Multimedia.ImageUsesFirstSource` | tools/make-html.js:76-81 | an image renders from `sources[0]` alone; further sources change nothing |
| `Multimedia.SourceTagsAppend` | tools/make-html.js:84-88 | the source list of a concatenation is the concatenation of the source lists, so the order is kept |
| `Text.SplitPieces` | tools/make-html.js:59-67 | joining the pieces of a split with the separator gives the text back, and no piece contains the separator |
| `Text.SplitOfJoin` | tools/make-html.js:59-67 | a join of separator-free pieces, with a separator that cannot overlap itself, splits back into exactly those pieces |
| `Text.ReplaceAllIsJoinOfSplit` | tools/make-html.js:24 | a global literal replace puts the replacement into every gap between the placeholder-free pieces of the text, and leaves the pieces untouched |
| `Text.ReplaceAllOfFree` | tools/make-html.js:24 | a text without the placeholder is left unchanged |
| `Text.ReplaceAllOfJoin` | tools/make-html.js:24 | replacing every occurrence of a placeholder that cannot overlap itself puts the replacement in each occurrence's place and nowhere else |
| `Decimal.NatToString` | tools/make-html.js:38 | the printed index is nonempty, all digits, and starts with 0 only for 0 |
| `Decimal.ParseNatToString` | tools/make-html.js:38 | the printed index reads back as the index |
| `Decimal.NatToStringInjective` | tools/make-html.js:38 | distinct indices print differently |
| `MakeHtml.TitleOf` | tools/make-html.js:22 | the title is never empty; it is the document's own title when that is set, and "Trivia" otherwise |
| `MakeHtml.DescriptionOf` | tools/make-html.js:23 | the description is never empty; it is the document's own description when that is set, and "A round of trivia" otherwise |
| `MakeHtml.Render` | tools/make-html.js:21-42 | the main block computes exactly `Page` |
| `MakeHtml.RenderItems` | tools/make-html.js:25-41 | the item loop, with its counter `i` and its `content +=`, computes exactly `ItemsFrom`: the chain of the items' blocks, stopped by the first failure |
| `MakeHtml.RenderItem` | tools/make-html.js:28-39 | the loop body computes exactly `ItemBlock` |
| `MakeHtml.BlockAt` | tools/make-html.js:27-40 | the outcome at position k of the item blocks is item k's block built with index k |
| `MakeHtml.ItemBlockOutcome` | tools/make-html.js:28-39 | an item's block is produced exactly when its answer formats and each of its references is renderable; a failing answer is the error reported |
| `MakeHtml.ItemsFromOkIff` | tools/make-html.js:27-41 | the items render exactly when each item's block does |
| `MakeHtml.ItemsFromBlocks` | tools/make-html.js:25-41 | the content is exactly one block per item, in document order, and the block at position k is built with index k |
| `MakeHtml.PageOkIff` | tools/make-html.js:27-41 | a page is produced exactly when every answer formats and every multimedia reference of every item is renderable |
| `MakeHtml.IdsDistinct` | tools/make-html.js:38 | distinct items get distinct `label` ids, `showAnswer` arguments and `ans` ids |
| `MakeHtml.ToggleRevealsOwnAnswer` | tools/make-html.js:38 | the number passed to `showAnswer` and the number in the answer's `ans` id both read back as the item's index |
| `MakeHtml.NoMultimediaNoLookup` | tools/make-html.js:30-33 | an item without multimedia has an empty slot, and its block does not depend on the multimedia table |
| `MakeHtml.LiteralAnswerCell` | tools/make-html.js:28-38 | a bare-string answer appears in the hidden cell unchanged |
| `MakeHtml.NoPlaceholderUnchanged` | tools/make-html.js:24-42 | a text without `$` is left unchanged by any placeholder replacement |
| `MakeHtml.SpliceKeepsPlainTemplate` | tools/make-html.js:24-42 | a template without `$` comes out unchanged, whatever the title, description and content |
| `MakeHtml.TitleFillsEveryPlaceholder` | tools/make-html.js:24 | every `$title` of the template, not only the first, becomes the title |
| `MakeHtml.DescriptionFillsEveryPlaceholder` | tools/make-html.js:24 | every `$description` becomes the description |
| `MakeHtml.ContentFillsEveryPlaceholder` | tools/make-html.js:42 | every `$content` becomes the whole item content |
| `MakeHtml.SpliceFillsTemplate` | tools/make-html.js:24-42 | in a template made of `$`-free text and any mix of the three placeholders, each placeholder becomes its field's value and the text between them is kept |
| `MakeHtml.DefaultsFillTemplate` | tools/make-html.js:21-42 | for a document without title and description, such a template shows "Trivia", "A round of trivia" and the content at the matching placeholders |
| `MakeHtml.DefaultsFillPlaceholders` | tools/make-html.js:22-24 | a document without title and description shows "Trivia" at every `$title`, or "A round of trivia" at every `$description`, of a template whose other text has no `$` |
| `Trivia.ChainOkIff` | tools/make-html.js:27-41 | a run of steps that stops at the first thrown error succeeds exactly when every step does |
| `Trivia.ChainPieces` | tools/make-html.js:27-41 | a successful run is the concatenation of its steps' texts, in order |

## Left out

- Schema validation with `ajv` (tools/make-html.js:7,13,19) is an external library call. Its verdict is not modelled. The renderer is modelled as it runs after a successful validation. tools/validate-trivia.js and tools/meta-validate.js are not part of this model.
- The following I/O is left out: reading the template and schema (lines 11-12), `process.argv` (15-16), parsing the input file (18), the unchecked `fs.writeFile` (43) and the error printing (45-46). The template arrives as a parameter, and the page is returned as a value.
- Special patterns in replacement strings (`$&`, `$1`, `` $` ``) are not interpreted. A title or description that contains one is spliced literally in the model.
- Each property lookup is modelled as a plain table lookup. In the program, a key such as `toString` reaches `Object.prototype` and yields a value without a `type`, which renders nothing.
- An object that carries both `mmref` and inline fields cannot be expressed by `Trivia.MMRef`. The program lets `mmref` win.
- `n` is modelled as an integer and printed in decimal. Non-integral numbers and non-string list items are not modelled. These are shapes that validation is meant to exclude.
- The placeholder lemmas are stated for templates whose own text has no `$`. Without that, text next to a placeholder can form another placeholder's name. The general behaviour of one pass is stated by `Text.ReplaceAllIsJoinOfSplit`.
- The title and the description must have no `$` where a later pass runs after them. Otherwise the description pass or the content pass could match text inside them. The content is spliced last, so it may contain anything.
- MakeHtml.TitleFillsEveryPlaceholder: stated for a single placeholder kind, with a `$`-free template text and a `$`-free title.
- MakeHtml.DescriptionFillsEveryPlaceholder: stated for a single placeholder kind, with a `$`-free template text and a `$`-free description.
- MakeHtml.ContentFillsEveryPlaceholder: stated for a single placeholder kind, with a `$`-free template text.
- MakeHtml.SpliceFillsTemplate: stated for a `$`-free template text, a `$`-free title and a `$`-free description.
- MakeHtml.DefaultsFillTemplate: stated for a `$`-free template text. The defaults themselves have no `$`.
- MakeHtml.DefaultsFillPlaceholders: stated for one placeholder kind at a time, with a `$`-free template text. `MakeHtml.DefaultsFillTemplate` covers templates that mix the three.
