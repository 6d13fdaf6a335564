# Form2HTML: parser and generator model

This project models the two core classes of Form2HTML, a browser tool that
turns a Google Form into a stand-alone custom form.

- `FormParser` (js/parser.js) reads a form in one of two ways and produces a
  form schema: a form id, the submission endpoint, the fields and, in HTML
  mode, a title.
  - URL mode reads a prefilled link: `parseUrl`, `isValidFormUrl`,
    `extractFormTitle` and `formatTitle`.
  - HTML mode reads a page's HTML source: `parseHtml`.
  - Both modes use the value classifier `guessFieldType`.
- `FormGenerator` (js/generator.js) turns a schema into three artifacts:
  - a document (`generateHTML`, with `generateFieldLabel` and `formatLabel`);
  - a stylesheet (`generateCSS`, with its `hexToRgb` helper);
  - a submission script (`generateJS`).

  `generateFormPackage` bundles the three.

Modules, one per file:

| file | module | contents |
|---|---|---|
| outcomes.dfy | `Outcomes` | `Option`, `Result`, and a generic collector of the present values of a mapped sequence |
| text.dfy | `Text` | `includes`, `split`/`join`, `trim` with the ECMAScript white-space set, ASCII upper-casing, decimal rendering |
| forms.dfy | `Forms` | the schema datatypes, the submission endpoint, the shared path scan for the form id, the first-match-wins cascade |
| field_types.dfy | `FieldTypes` | `guessFieldType`, with each of its four regular expressions written as a predicate |
| url_parser.dfy | `UrlParser` | URL mode |
| html_parser.dfy | `HtmlParser` | HTML mode, over an abstract document |
| colors.dfy | `Colors` | `hexToRgb` and a hex renderer as its inverse |
| templates.dfy | `Templates` | the fixed text of the generated document, stylesheet and script, copied byte for byte from the template literals |
| generator.dfy | `Generator` | `FormGenerator` |

What the browser does becomes an input:

- The result of `new URL(...)` is an `Option<UrlParts>`, `None` when the
  constructor throws. It holds the host name, the path name and the decoded
  query pairs in order.
- Each `querySelector` call is represented by what it finds. Each
  `querySelectorAll` call is represented by a sequence in document order.
- `split('/')` on the path and the page's regular expressions are modelled,
  not taken as inputs.

### Behaviour of the code worth knowing

Some of what the code does is easy to miss on a first reading; the model
follows the code in each case.

- **Form id on standard paths.** The path scan tests `e` and `d` at each
  segment from left to right. On the usual `/forms/d/e/<id>/viewform` path
  the `d` segment comes first, so the form id is the literal `e`. The
  endpoint then becomes `.../d/e/e/formResponse`, whatever `<id>` is.
  `DMarkerShadowsE`, `PrefillLinkYieldsE`, `TwoEntryLink` and
  `StandardActionYieldsE` state this.
- **No viewform check in `parseUrl`.** `parseUrl` only checks that the text
  contains `docs.google.com/forms`. The `viewform`/`formResponse` check is
  `isValidFormUrl`, which the page script calls first. Passing that check
  does not guarantee that `parseUrl` succeeds (`ValidUrlWithoutMarker`),
  and `parseUrl` can succeed on a link that fails it (`ForeignHostParses`).
  On standard links the two agree (`StandardLinkValid`).
- **HTML mode without a form URL.** When the page has no form URL it throws
  before any fallback is tried (`FallbackNeedsUrl`). The `fbzx` input is
  tried before the scripts.
- **Options are not de-duplicated by value** (`EqualValuesKept`).
- **Fields without controls are not merged by name.** A `data-params`
  field is appended without the name check (`ParamsFieldsRepeat`). Fields
  recovered from scripts are numbered from zero in every script, so their
  names can repeat (`GeneratedNamesRepeat`).
- **What the generator renders.** There are five input fragments:
  `email`, `url`, `date`, `number`, and text for anything else. Every input
  is marked `required`, whatever the field's own flag. The options of a
  field, a required marker and hidden fields are not rendered. The script
  submits in one way only, with a `fetch` of the form's action URL.

## Model

| member | source | states |
|---|---|---|
| Forms.ActionUrl | js/parser.js:39 | the endpoint is the fixed prefix, the form id and the fixed suffix, and the id can be read back at its place |
| Forms.ActionUrlInjective | js/parser.js:131 | two form ids with the same endpoint are equal |
| Forms.MarkerIndex | js/parser.js:24-32 | the scan stops at the leftmost `e` or `d` segment that has a segment after it; no earlier segment qualifies; none is found exactly when no segment qualifies |
| Forms.ScanFormId | js/parser.js:23-32 | the form id is the segment after the leftmost marker; it is non-empty only when a marker exists |
| Forms.DMarkerShadowsE | js/parser.js:97-105 | a `d` directly followed by `e`, with no earlier marker, makes the id the literal `e` |
| Forms.StandardPathFormId | js/parser.js:20-32 | every `/forms/d/e/<id>/<last>` path yields the form id `e`, whatever `<id>` is |
| UrlParser.EntryFields | js/parser.js:45-55 | at most one field per query pair; every field is given by a pair of the query, and every pair with an `entry.` key gives its field |
| UrlParser.EntryOf | js/parser.js:46-53 | a query pair gives a field exactly when its key starts with `entry.`; the field keeps the key as name and the value |
| UrlParser.EntryFieldsMembers | js/parser.js:45-55 | every field comes from an entry pair of the query, with the suffix as id and the classified value as type; every entry pair gives a field |
| UrlParser.EntryFieldsAppend | js/parser.js:45-55 | the fields of two query parts are the fields of each, in query order, repeated keys kept |
| UrlParser.EntryFieldsSingle | js/parser.js:46-54 | one pair gives its field when its key is an entry key and nothing otherwise |
| UrlParser.ParseUrl | js/parser.js:12-66 | the text without `docs.google.com/forms` is rejected first, then a URL the parser rejects; success gives the id after the leftmost marker, its endpoint, the entry fields and no title; it fails exactly in those cases or when no id is found |
| UrlParser.PrefillLinkYieldsE | js/parser.js:19-39 | a standard prefill link parses to form id `e` with the endpoint `.../d/e/e/formResponse` |
| UrlParser.TwoEntryLink | js/parser.js:12-62 | a link with an email entry and a number entry gives exactly those two fields, in order, typed `email` and `number` |
| UrlParser.ParseWithoutMarker | js/parser.js:34-36 | a path with no marker gives the missing-id error |
| UrlParser.ValidUrlWithoutMarker | js/parser.js:369-379 | `/forms/viewform` passes the validity check yet `parseUrl` rejects it for a missing id |
| UrlParser.IsValidFormUrl | js/parser.js:369-379 | a link passes when the URL parser accepts it, its host mentions `docs.google.com`, and its path mentions `/forms/` and either `/viewform` or `/formResponse`; a link the parser rejects fails |
| UrlParser.StandardLinkValid | js/parser.js:369-379 | every standard `/forms/d/e/<id>/viewform` or `/forms/d/e/<id>/formResponse` link passes the validity check and parses, with form id `e` |
| UrlParser.ForeignHostParses | js/parser.js:14-36 | a link on another host that mentions the forms host only in its query passes the substring guard and parses, yet fails the validity check |
| UrlParser.ReplaceSeparators | js/parser.js:418 | every `-` and `_` becomes a space and every other character stays |
| UrlParser.CapitalizeWords | js/parser.js:419 | a word character with no word character before it is upper-cased, every other character stays, and the length is kept |
| UrlParser.FormatTitle | js/parser.js:416-420 | the title keeps its length, holds no `-` or `_`, and each position is a space, an upper-cased word start or the original character |
| UrlParser.FormatTitleIdempotent | js/parser.js:416-420 | formatting a formatted title changes nothing |
| UrlParser.TitleSlot | js/parser.js:392-400 | the first `forms` segment whose second successor is non-empty and neither `viewform` nor `formResponse` |
| UrlParser.ExtractFormTitle | js/parser.js:386-408 | a URL the parser rejects gives `Custom Form`; a title slot gives its formatted segment; otherwise `Google Form ` and the first eight id characters, or `Custom Form` when `parseUrl` fails |
| UrlParser.ExtractFormTitleShape | js/parser.js:386-408 | the title is never empty, a slot title has no separators, and the fallback title is the prefix and at most eight characters |
| UrlParser.PrefillLinkTitle | js/parser.js:392-398 | on a standard prefill link the slot after `forms` is `e`, so the title is `E` |
| FieldTypes.GuessFieldType | js/parser.js:335-362 | the type is the first of email, url, date, number whose pattern matches, and text when none does |
| FieldTypes.BlankGuessIsText | js/parser.js:336-338 | a value that trims to empty is text |
| FieldTypes.BlankMatchesNothing | js/parser.js:336-358 | no pattern matches a blank value, so the blank test never changes the outcome |
| FieldTypes.PatternsExclusive | js/parser.js:341-358 | no value matches two of the four patterns |
| FieldTypes.ClassificationIsTheMatchingPattern | js/parser.js:340-358 | for each of the four types, the value is classified so exactly when its pattern matches |
| FieldTypes.NumberShape | js/parser.js:356 | a number holds only digits, a leading minus, and dots followed by a digit |
| FieldTypes.UrlShape | js/parser.js:346 | a url holds no `@` and has a dot followed by a suffix character |
| FieldTypes.NoAtNoEmail | js/parser.js:341 | a value without `@` is not an email |
| FieldTypes.NoDotNoUrl | js/parser.js:346 | a value without `.` and `:` is not a url |
| FieldTypes.EmailExample | js/parser.js:341-343 | `a@b.com` is an email |
| FieldTypes.UrlExample | js/parser.js:346-348 | `example.com` is a url |
| FieldTypes.DateExample | js/parser.js:351-353 | `2024-01-05` is a date |
| FieldTypes.IntegerExample | js/parser.js:356-358 | `42` is a number |
| FieldTypes.DigitExample | js/parser.js:356-358 | `5` is a number |
| FieldTypes.NegativeDecimalExample | js/parser.js:356-358 | `-3.5` is a number |
| FieldTypes.TextExamples | js/parser.js:336-361 | `hello` and the empty value are text |
| HtmlParser.ChosenUrl | js/parser.js:84-90 | the first candidate with a non-empty address, among form action, `og:url` and canonical link; none exactly when every address is empty |
| HtmlParser.FallbackNeedsUrl | js/parser.js:88-90 | without a form URL the parse fails whatever the `fbzx` value and the scripts hold |
| HtmlParser.ScriptFormId | js/parser.js:116-121 | the id pattern captures twenty-five id characters found in the script; there is none exactly when the pattern matches nowhere |
| HtmlParser.ScriptFormIdIsFirstWindow | js/parser.js:117 | the capture is the leftmost run of twenty-five id characters, since the optional quote cannot move the match |
| HtmlParser.ScriptsFormId | js/parser.js:114-122 | the id of the first script whose pattern matches; empty exactly when none matches |
| HtmlParser.PageFormId | js/parser.js:107-128 | a path id is used as is; otherwise a non-empty `fbzx` value; otherwise the script id |
| HtmlParser.PathIdWins | js/parser.js:96-107 | when the path names an id, changing `fbzx` or the scripts does not change the form id |
| HtmlParser.FormTitle | js/parser.js:134-138 | the first non-empty title candidate, else `Google Form`; never empty |
| HtmlParser.Containers | js/parser.js:153-160 | the containers of the first selector that finds any; none when no selector does |
| HtmlParser.LaterSelectorsIgnored | js/parser.js:154-160 | once a selector finds containers, later selectors do not matter |
| HtmlParser.FirstLine | js/parser.js:184 | the first line of the trimmed text: a prefix of it with no newline that runs up to the first newline or the end, empty exactly when the text is blank |
| HtmlParser.FirstUsableLabel | js/parser.js:173-180 | the trimmed text of the first candidate that trims to non-empty text; none exactly when no candidate does |
| HtmlParser.QuestionLabel | js/parser.js:173-185 | the first usable label, else the first line of the container's text; empty exactly when both are missing |
| HtmlParser.OptionLabel | js/parser.js:251-263 | the first usable option label, else the trimmed parent text, or empty text without a parent |
| HtmlParser.OptionOf | js/parser.js:265-268 | a control gives an option exactly when its label and value are both non-empty |
| HtmlParser.OptionsOf | js/parser.js:241-269 | at most one option per input; every option is given by an input of the group, and every input with a label and a value gives its option |
| HtmlParser.OptionsOfMembers | js/parser.js:241-269 | every option comes from a control of the group, and every control that gives one is represented |
| HtmlParser.OptionsOfAppend | js/parser.js:242-269 | options are collected in document order across the group |
| HtmlParser.EqualValuesKept | js/parser.js:265-268 | two controls with the same value give two options: there is no de-duplication |
| HtmlParser.Group | js/parser.js:241 | the input controls of the container with the given name, all of them |
| HtmlParser.GroupAppend | js/parser.js:241 | the group of two stretches of controls is the group of each, in order, so document order and repeats are kept |
| HtmlParser.GroupSingle | js/parser.js:241 | one control is its own group when it is an input of that name, and adds nothing otherwise |
| HtmlParser.ControlType | js/parser.js:224-227 | a declared type other than text is kept; a text control with a value is classified; otherwise text |
| HtmlParser.IsRequired | js/parser.js:230-233 | a field is required when its control has the `required` attribute, its container holds a `.vnumgf` or required-asterisk element, or the container's text holds `*` |
| HtmlParser.ControlField | js/parser.js:217-283 | the field has the control's name, id suffix and value, the question label, the required disjunction, and options only for radio or checkbox controls that have some |
| HtmlParser.Merge | js/parser.js:272-287 | a new name is appended; an existing name changes only the first field of that name, and only by taking options it lacked |
| HtmlParser.MergeKeepsUniqueNames | js/parser.js:272-287 | merging keeps field names distinct |
| HtmlParser.AddControl | js/parser.js:217-289 | a control named `entry.` is merged and any other control is skipped; earlier fields are kept |
| HtmlParser.AddControls | js/parser.js:217-289 | every entry control's name ends up in the fields, earlier fields are kept, and distinct names stay distinct |
| HtmlParser.ParamsGroups | js/parser.js:196-198 | the id capture is a non-empty run of digits and the label capture is non-empty and quote-free |
| HtmlParser.ParamsGroupsMatched | js/parser.js:196 | the matched text is the two captures quoted and separated by `","` |
| HtmlParser.ParamsMatch | js/parser.js:196-197 | the leftmost match of the `data-params` pattern; none exactly when it matches nowhere |
| HtmlParser.ParamsField | js/parser.js:192-209 | a non-empty attribute that matches gives a text field named `entry.<id>`, labelled by the capture, with an empty value and the asterisk test as required |
| HtmlParser.AddContainer | js/parser.js:187-215 | a container without controls appends its `data-params` field or nothing; otherwise its controls are merged |
| HtmlParser.AddContainers | js/parser.js:163-290 | containers are processed in order, and every field and name found earlier is kept |
| HtmlParser.ControlsOnlyUniqueNames | js/parser.js:163-290 | when every container has controls, the fields have distinct names |
| HtmlParser.ParamsFieldsRepeat | js/parser.js:201-208 | two containers with the same `data-params` give two equal fields |
| HtmlParser.TupleMatches | js/parser.js:299 | every match of the global tuple pattern is a whole tuple found in the script |
| HtmlParser.FirstQuotedOfTuple | js/parser.js:302 | the first quoted text of a tuple is its label |
| HtmlParser.NumberedFields | js/parser.js:301-313 | the `i`-th match gives the field `generated_<i>` labelled by its label |
| HtmlParser.ScriptFields | js/parser.js:296-315 | the fields of one script are empty-valued, not required, text, and labelled by a tuple found in the script; the first is `generated_0` |
| HtmlParser.GeneratedFields | js/parser.js:295-316 | every field is an empty-valued, not required text field with a non-empty label, and every field of every script is included |
| HtmlParser.GeneratedFieldsAppend | js/parser.js:295-316 | the scripts are read in order and their fields concatenated |
| HtmlParser.GeneratedNamesRepeat | js/parser.js:301-306 | two scripts with tuples both yield a field named `entry.generated_0` |
| HtmlParser.SingleTuple | js/parser.js:299-313 | a script that is a single tuple gives exactly one field, labelled by the tuple's label |
| HtmlParser.CollectFields | js/parser.js:292-316 | the container fields when there are any, otherwise the script fields |
| HtmlParser.ScriptsIgnoredWhenFieldsFound | js/parser.js:293 | once containers give fields, the scripts do not matter |
| HtmlParser.ParseHtml | js/parser.js:73-328 | the guard, the missing URL, the rejected URL and the missing id are the failures, in that order; success gives the page's id, its endpoint, the title and the collected fields |
| HtmlParser.StandardActionYieldsE | js/parser.js:92-105 | a form posting to `/forms/d/e/<id>/formResponse` gets the id `e` |
| Colors.ExpandShorthand | js/generator.js:138-139 | a three-digit colour becomes six digits, each input digit doubled in place; anything else is unchanged |
| Colors.HexToRgb | js/generator.js:137-146 | every channel is below 256, and a string that is not a three- or six-digit colour gives black |
| Colors.RgbRoundTrip | js/generator.js:140-145 | rendering a colour as hex and parsing it back gives the colour, with or without `#` |
| Colors.HexRoundTrip | js/generator.js:140-145 | parsing six lower-case hex digits and rendering them back gives the same digits |
| Colors.ShorthandDoubles | js/generator.js:138-139 | `xyz` is the colour `xxyyzz`, with or without `#`, and each channel is seventeen times its digit |
| Colors.CaseInsensitive | js/generator.js:138-140 | strings equal up to letter case give the same colour |
| Colors.ShorthandRedExample | js/generator.js:138-145 | `#f00` is 255, 0, 0 |
| Colors.FullExample | js/generator.js:140-145 | `#1a2b3c` is 26, 43, 60 |
| Colors.NamedColourIsBlack | js/generator.js:145 | a colour name gives black |
| Generator.SpaceCapitals | js/generator.js:373 | a space is put before each capital; the contract states only that the text does not shrink |
| Generator.SpaceCapitalsFacts | js/generator.js:373 | every capital is preceded by a space, and blankness is kept |
| Generator.UnspaceSpaceCapitals | js/generator.js:373 | removing the space before each capital restores the original |
| Generator.UpperFirst | js/generator.js:374 | only the first character changes: it is upper-cased unless it is a line terminator |
| Generator.FormatLabel | js/generator.js:371-376 | the label is empty exactly when the input is blank, has no space at either end, and has a space before every inner capital |
| Generator.FormatLabelContent | js/generator.js:371-376 | for a value without white space at either end, removing the space before each capital gives back the value with its first character upper-cased |
| Generator.FormatLabelFirst | js/generator.js:371-376 | a label starting with a non-space starts with that character upper-cased |
| Generator.CamelCase | js/generator.js:371-376 | `helloWorld` becomes `Hello World` |
| Generator.Acronym | js/generator.js:371-376 | `ABC` becomes `A B C` |
| Generator.GenerateFieldLabel | js/generator.js:350-364 | a value of 1 to 19 characters is formatted; otherwise `Field <id>` |
| Generator.FieldLabel | js/generator.js:21 | a non-empty label is used, otherwise the generated label; the result is empty only for a short blank value |
| Generator.FieldDomId | js/generator.js:20 | the element id is `field-` and the field id |
| Generator.RenderedType | js/generator.js:23-86 | `email`, `url`, `date` and `number` render as themselves and every other type as text |
| Generator.FieldFragment | js/generator.js:23-86 | a form group opening with the label, holding an input with the rendered type, the element id, the name, the value, the placeholder where the type has one, and `required` |
| Generator.FragmentIgnoresRequiredAndOptions | js/generator.js:19-87 | the fragment does not depend on the required flag or the options |
| Generator.OtherTypesRenderAsText | js/generator.js:74-85 | any other type renders as a text field would |
| Generator.Fragments | js/generator.js:19-86 | one fragment per field, in field order |
| Generator.FragmentsAppend | js/generator.js:19 | the fragments of two field lists are those of each, in order |
| Generator.FieldsHtml | js/generator.js:87 | the field block is empty exactly when there are no fields, and opens with the first field's fragment |
| Generator.FieldsHtmlFacts | js/generator.js:87 | no fields give no markup, one field gives its fragment, and two lists are joined by one newline |
| Generator.FieldsHtmlContains | js/generator.js:19-87 | every field's fragment appears in the field markup |
| Generator.GenerateHtml | js/generator.js:90-127 | the document opens with the head and the title, and holds the action URL, the heading with the title, and the field block |
| Generator.HtmlIgnoresTheme | js/generator.js:15-128 | the document does not depend on the theme colour |
| Generator.GenerateCss | js/generator.js:151-304 | the stylesheet opens with the theme colour line and the rgb line, followed by the fixed rules |
| Generator.ThemeColorReadsBack | js/generator.js:151-152 | the theme colour can be read back from the stylesheet, ended by `;` |
| Generator.ThemeColorInjective | js/generator.js:151-153 | two theme colours without `;` give the same stylesheet only when they are equal |
| Generator.RedThemeExample | js/generator.js:148-153 | `#f00` gives the rgb string `255, 0, 0` |
| Generator.GenerateJs | js/generator.js:311-343 | the script holds the `fetch` submission of the form's action URL |
| Generator.GenerateFormPackage | js/generator.js:385-391 | the package holds the document, the stylesheet and the script generated from the same schema, title and theme colour |
| Generator.PackageDependencies | js/generator.js:385-391 | the document does not depend on the theme colour, the stylesheet depends on nothing else, and the script depends on nothing |

## Left out

- js/app.js (the page script: events, clipboard, downloads, previews) is not part of this model.
- Browser services are inputs, not models: the `URL` parser and its percent-decoding of the query, `DOMParser`, `querySelector`/`querySelectorAll`, the resolution of `form.action` against the page, and `textContent`. Because the browser resolves a form's `action` against the page's address, a page with a form never falls through to the `og:url` or canonical candidates; the model takes any candidate text, so it covers that case and also ones the browser does not produce.
- Exceptions are values of `ParseError`, one per throw. The wording of the messages and the re-wrapping in the `catch` blocks are not modelled.
- HtmlParser.Group: the option group selector `input[name="<name>"]` is built from the control's name, and the model compares names directly. A quote or a newline in a name makes the selector invalid, and the source then throws. A backslash starts a CSS escape, so the selector looks for a different name (`a\62` selects the inputs named `ab`), or, at the end of the name, escapes the closing quote. For such names the source's group differs from the model's, or the source throws.
- The `originalUrl` and `originalHtml` properties of the schema are not modelled, because they copy the input.
- Strings are sequences of code points, while JavaScript counts UTF-16 units. This affects the `< 20` label threshold and `substring(0, 8)` for characters outside the Basic Multilingual Plane.
- `toUpperCase` is modelled on ASCII letters only. The only characters it reaches are `\w` characters and the first character of a label, so non-ASCII first characters are left as they are.
- The `try`/`catch` around the `data-params` match cannot throw with a fixed pattern, so it is not modelled.
- Generator.GenerateCss: the rules after the two colour lines are a fixed constant copied from the template, and nothing is proved about their content.
- Generator.GenerateJs: the script is a fixed constant copied from the template, and only its submission request is stated.
- Generator.FormatLabelContent: stated only for values without white space at either end. With a leading space the upper-casing reaches only the space, which trimming then drops, so the first letter keeps its case; white space dropped by the trim is not restored.
- Generator.SpaceCapitals: its own contract states only that the text does not shrink; what it does is stated by `SpaceCapitalsFacts` and `UnspaceSpaceCapitals`.
- Generator.GenerateFormPackage: its contract only names the three generators; what the package depends on is stated by `PackageDependencies`.
