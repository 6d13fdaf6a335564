/** HTML mode of js/parser.js (`parseHtml`), over an abstract document
    instead of a parsed DOM. Each query the source makes of the page is an
    input: what `querySelector` finds is given per selector, in the order
    the source tries the selectors, and what `querySelectorAll` finds is
    given as a sequence in document order. */
module HtmlParser {
  import opened Outcomes
  import opened Text
  import opened FieldTypes
  import opened Forms

  /** A form-URL candidate and what the browser's `URL` parser makes of it
      (`None` when it throws). `href` is the property the source reads,
      empty when the element is missing: the form's `action`, the `og:url`
      meta's `content`, the canonical link's `href`. The browser resolves a
      form's `action` against the document's address, so when there is a
      form its candidate is never empty; `href` is any text here, which
      covers that case and the ones the browser does not produce. */
  datatype Link = Link(href: string, pathname: Option<string>)

  /** An `input`, `textarea` or `select` element of a question container.
      `optionLabels` holds the text found by each option-label selector in
      the element's parent (`None` when nothing matched) and `parentText`
      the parent's text (`None` when there is no parent). */
  datatype Control = Control(
    isInput: bool,
    name: Option<string>,
    inputType: string,
    value: string,
    hasRequired: bool,
    optionLabels: seq<Option<string>>,
    parentText: Option<string>)

  /** A question container: its text, the text found by each label
      selector, its controls in document order, its `data-params`
      attribute, and whether it holds a `.vnumgf` element and a
      required-asterisk element. */
  datatype Container = Container(
    text: string,
    labels: seq<Option<string>>,
    controls: seq<Control>,
    dataParams: Option<string>,
    hasVnumgf: bool,
    hasAsterisk: bool)

  /** The page: the form-URL candidates (form action, `og:url`, canonical
      link), the value of the `fbzx` input (empty when missing), the script
      bodies, the title candidates (`<title>`, `og:title`, heading, header
      title; empty when missing) and the containers each question selector
      finds. */
  datatype Document = Document(
    formUrls: seq<Link>,
    fbzx: string,
    scripts: seq<string>,
    titles: seq<string>,
    containersBySelector: seq<seq<Container>>)

  const DefaultTitle: string := "Google Form"

  // ---------------------------------------------------------------------
  // First-match-wins cascades

  /** The first candidate with a non-empty address. */
  function ChosenUrl(doc: Document): (link: Option<Link>)
    ensures link.Some? ==> link.value in doc.formUrls && link.value.href != ""
    ensures link.None? <==> forall i :: 0 <= i < |doc.formUrls| ==> doc.formUrls[i].href == ""
    ensures link.Some? ==> exists k :: (0 <= k < |doc.formUrls| && doc.formUrls[k] == link.value &&
      forall j :: 0 <= j < k ==> doc.formUrls[j].href == "")
  {
    var k := First(doc.formUrls, (l: Link) => l.href != "");
    if k < |doc.formUrls| then Some(doc.formUrls[k]) else None
  }

  /** The first non-empty title candidate, else the generic title. */
  function FormTitle(doc: Document): (title: string)
    ensures title != ""
    ensures title == DefaultTitle || title in doc.titles
    ensures (forall i :: 0 <= i < |doc.titles| ==> doc.titles[i] == "") ==> title == DefaultTitle
    ensures forall k :: (0 <= k < |doc.titles| && doc.titles[k] != "" &&
      (forall j :: 0 <= j < k ==> doc.titles[j] == "")) ==> title == doc.titles[k]
  {
    var k := First(doc.titles, (t: string) => t != "");
    if k < |doc.titles| then doc.titles[k] else DefaultTitle
  }

  /** The containers of the first question selector that finds any. */
  function Containers(doc: Document): (cs: seq<Container>)
    ensures (forall i :: 0 <= i < |doc.containersBySelector| ==> |doc.containersBySelector[i]| == 0) ==> cs == []
    ensures forall k :: (0 <= k < |doc.containersBySelector| && |doc.containersBySelector[k]| > 0 &&
      (forall j :: 0 <= j < k ==> |doc.containersBySelector[j]| == 0)) ==> cs == doc.containersBySelector[k]
  {
    var lists := doc.containersBySelector;
    var k := First(lists, (l: seq<Container>) => |l| > 0);
    if k < |lists| then lists[k] else []
  }

  /** Later question selectors are never consulted once one has found
      containers: replacing them changes nothing. */
  lemma LaterSelectorsIgnored(doc: Document, k: nat, later: seq<seq<Container>>)
    requires k < |doc.containersBySelector| && |doc.containersBySelector[k]| > 0
    requires forall j :: 0 <= j < k ==> |doc.containersBySelector[j]| == 0
    ensures Containers(doc.(containersBySelector := doc.containersBySelector[..k + 1] + later)) == Containers(doc)
  {
    var lists := doc.containersBySelector[..k + 1] + later;
    assert lists[k] == doc.containersBySelector[k];
    assert forall j :: 0 <= j < k ==> lists[j] == doc.containersBySelector[j];
  }

  // ---------------------------------------------------------------------
  // Form id

  /** A character of the class `[0-9A-Za-z_-]`. */
  predicate IsIdChar(c: char) {
    IsDigit(c) || IsAsciiUpper(c) || IsAsciiLower(c) || c == '_' || c == '-'
  }

  predicate IsQuote(c: char) {
    c == '"' || c == '\''
  }

  /** The shortest run the lazy `{25,}?` accepts. */
  const IdWindow: nat := 25

  /** Twenty-five id characters start at `q`. */
  predicate IdWindowAt(s: string, q: nat) {
    q + IdWindow <= |s| && forall k :: q <= k < q + IdWindow ==> IsIdChar(s[k])
  }

  /** The form-id pattern matches at `p`: an optional quote is tried first,
      then at least twenty-five id characters. */
  predicate IdMatchAt(s: string, p: nat) {
    (p < |s| && IsQuote(s[p]) && IdWindowAt(s, p + 1)) || IdWindowAt(s, p)
  }

  /** The captured id of a match at `p`: the lazy quantifier stops after
      twenty-five characters. */
  function IdMatchGroup(s: string, p: nat): (id: string)
    requires IdMatchAt(s, p)
    ensures |id| == IdWindow
  {
    if p < |s| && IsQuote(s[p]) && IdWindowAt(s, p + 1) then s[p + 1..p + 1 + IdWindow]
    else s[p..p + IdWindow]
  }

  /** The form id a script body yields: the capture of the leftmost match. */
  function ScriptFormId(s: string): (id: Option<string>)
    ensures id.Some? ==> |id.value| == IdWindow && Contains(s, id.value)
    ensures id.None? <==> forall p :: 0 <= p <= |s| ==> !IdMatchAt(s, p)
  {
    var m := (p: nat) => IdMatchAt(s, p);
    var k := FirstFrom(|s| + 1, m, 0);
    assert forall p: nat :: p < k ==> !m(p) && m(p) == IdMatchAt(s, p);
    assert k <= |s| ==> m(k) && m(k) == IdMatchAt(s, k);
    if k <= |s| then
      var g := IdMatchGroup(s, k);
      assert OccursAt(s, g, if IdWindowAt(s, k) then k else k + 1);
      Some(g)
    else None
  }

  /** The first window of twenty-five id characters, as an independent
      reference for what the pattern captures. */
  function FirstIdWindow(s: string): (q: nat)
    ensures q <= |s|
    ensures forall j :: 0 <= j < q ==> !IdWindowAt(s, j)
    ensures q < |s| ==> IdWindowAt(s, q)
  {
    var w := (j: nat) => IdWindowAt(s, j);
    var q := FirstFrom(|s|, w, 0);
    assert forall j: nat :: j < q ==> !w(j) && w(j) == IdWindowAt(s, j);
    assert q < |s| ==> w(q) && w(q) == IdWindowAt(s, q);
    q
  }

  /** Because the quantifier is lazy the optional quotes never matter: the
      captured id is exactly the first window of twenty-five id characters,
      and there is a capture exactly when there is such a window. */
  lemma ScriptFormIdIsFirstWindow(s: string)
    ensures ScriptFormId(s).Some? <==> FirstIdWindow(s) < |s|
    ensures ScriptFormId(s).Some? ==> ScriptFormId(s).value == s[FirstIdWindow(s)..FirstIdWindow(s) + IdWindow]
  {
    var q := FirstIdWindow(s);
    forall p | 0 <= p <= |s| && IdMatchAt(s, p)
      ensures q <= (if IdWindowAt(s, p) then p else p + 1) < |s|
    {
    }
    if q < |s| {
      assert IdMatchAt(s, q);
      var m := (p: nat) => IdMatchAt(s, p);
      var k := FirstFrom(|s| + 1, m, 0);
      assert m(q) == IdMatchAt(s, q);
      assert k <= q;
      assert m(k) && m(k) == IdMatchAt(s, k);
      if IdWindowAt(s, k) {
        assert k == q;
      } else {
        assert k + 1 == q;
      }
    }
  }

  /** The form id of the first script body that yields one, else the empty
      string. */
  function ScriptsFormId(scripts: seq<string>): (id: string)
    ensures id == "" <==> forall i :: 0 <= i < |scripts| ==> ScriptFormId(scripts[i]).None?
    ensures id != "" ==> exists k :: (0 <= k < |scripts| && ScriptFormId(scripts[k]) == Some(id) &&
      forall j :: 0 <= j < k ==> ScriptFormId(scripts[j]).None?)
  {
    var k := First(scripts, (s: string) => ScriptFormId(s).Some?);
    if k < |scripts| then ScriptFormId(scripts[k]).value else ""
  }

  /** The form id: the one the path names, else the `fbzx` value, else the
      one the scripts yield; empty when all three fail. */
  function PageFormId(doc: Document, pathId: string): (id: string)
    ensures pathId != "" ==> id == pathId
    ensures pathId == "" && doc.fbzx != "" ==> id == doc.fbzx
    ensures pathId == "" && doc.fbzx == "" ==> id == ScriptsFormId(doc.scripts)
  {
    if pathId != "" then pathId
    else if doc.fbzx != "" then doc.fbzx
    else ScriptsFormId(doc.scripts)
  }

  // ---------------------------------------------------------------------
  // Question label

  /** The first line of the trimmed text: up to its first newline, or all
      of it when it has none. */
  function FirstLine(text: string): (line: string)
    ensures IsPrefix(line, Trim(text))
    ensures '\n' !in line
    ensures |line| == |Trim(text)| || Trim(text)[|line|] == '\n'
    ensures line == "" <==> IsBlank(text)
  {
    var t := Trim(text);
    SplitHead(t, '\n');
    Split(t, '\n')[0]
  }

  /** A candidate found by a selector whose trimmed text is not empty. */
  predicate IsUsableLabel(o: Option<string>) {
    o.Some? && Trim(o.value) != ""
  }

  /** The trimmed text of the first usable candidate, or `None`. */
  function FirstUsableLabel(candidates: seq<Option<string>>): (found: Option<string>)
    ensures found.None? <==> forall i :: 0 <= i < |candidates| ==> !IsUsableLabel(candidates[i])
    ensures found.Some? ==> found.value != "" && exists k :: (0 <= k < |candidates| &&
      IsUsableLabel(candidates[k]) && found.value == Trim(candidates[k].value) &&
      forall j :: 0 <= j < k ==> !IsUsableLabel(candidates[j]))
  {
    var k := First(candidates, IsUsableLabel);
    if k < |candidates| then Some(Trim(candidates[k].value)) else None
  }

  /** A container's question label: the first usable label-selector text,
      else the first line of the container's trimmed text; empty only when
      neither gives anything. */
  function QuestionLabel(c: Container): (heading: string)
    ensures FirstUsableLabel(c.labels).Some? ==> heading == FirstUsableLabel(c.labels).value
    ensures FirstUsableLabel(c.labels).None? ==> heading == FirstLine(c.text)
    ensures heading == "" <==> IsBlank(c.text) && forall i :: 0 <= i < |c.labels| ==> !IsUsableLabel(c.labels[i])
    ensures heading != "" ==> !IsSpace(heading[0])
  {
    match FirstUsableLabel(c.labels)
    case Some(l) => l
    case None =>
      var t := Trim(c.text);
      var line := FirstLine(c.text);
      assert line != "" ==> line[0] == t[0];
      line
  }

  // ---------------------------------------------------------------------
  // Options of a radio or checkbox question

  /** The label of one option: the first usable option-label text, else
      the parent's trimmed text, else empty. */
  function OptionLabel(ctl: Control): (text: string)
    ensures FirstUsableLabel(ctl.optionLabels).Some? ==> text == FirstUsableLabel(ctl.optionLabels).value
    ensures FirstUsableLabel(ctl.optionLabels).None? ==> text == Trim(ctl.parentText.GetOr(""))
  {
    match FirstUsableLabel(ctl.optionLabels)
    case Some(l) => l
    case None => Trim(ctl.parentText.GetOr(""))
  }

  /** The option an input contributes: only when both its label and its
      value are non-empty. */
  function OptionOf(ctl: Control): (o: Option<Choice>)
    ensures o.Some? <==> OptionLabel(ctl) != "" && ctl.value != ""
    ensures o.Some? ==> o.value == Choice(OptionLabel(ctl), ctl.value)
  {
    var text := OptionLabel(ctl);
    if text != "" && ctl.value != "" then Some(Choice(text, ctl.value)) else None
  }

  /** The options of a group of inputs, in group order, one per input that
      contributes one; equal values are all kept. */
  function OptionsOf(group: seq<Control>): (opts: seq<Choice>)
    ensures |opts| <= |group|
    ensures forall o :: o in opts ==> exists i :: 0 <= i < |group| && OptionOf(group[i]) == Some(o)
    ensures forall i :: 0 <= i < |group| && OptionOf(group[i]).Some? ==> OptionOf(group[i]).value in opts
  {
    SomesMembers(group, OptionOf);
    Somes(group, OptionOf)
  }

  /** Every option has a label and a value and comes from an input of the
      group, and every input that gives an option has it in the list. */
  lemma OptionsOfMembers(group: seq<Control>)
    ensures forall o :: o in OptionsOf(group) ==> o.labelText != "" && o.value != ""
    ensures forall o :: o in OptionsOf(group) ==> exists i :: 0 <= i < |group| && OptionOf(group[i]) == Some(o)
    ensures forall i :: 0 <= i < |group| && OptionOf(group[i]).Some? ==> OptionOf(group[i]).value in OptionsOf(group)
  {
    forall o | o in OptionsOf(group)
      ensures exists i :: 0 <= i < |group| && OptionOf(group[i]) == Some(o)
    {
      SomesSource(group, OptionOf, o);
    }
    forall i | 0 <= i < |group| && OptionOf(group[i]).Some?
      ensures OptionOf(group[i]).value in OptionsOf(group)
    {
      SomesKept(group, OptionOf, i);
    }
  }

  /** Options distribute over concatenation of groups, so their order is
      the document order of the inputs. */
  lemma OptionsOfAppend(a: seq<Control>, b: seq<Control>)
    ensures OptionsOf(a + b) == OptionsOf(a) + OptionsOf(b)
  {
    SomesAppend(a, b, OptionOf);
  }

  /** Two inputs with the same value both give an option: nothing is
      de-duplicated by value. */
  lemma EqualValuesKept(x: Control, y: Control)
    requires OptionOf(x).Some? && OptionOf(y).Some?
    ensures OptionsOf([x, y]) == [OptionOf(x).value, OptionOf(y).value]
    ensures x.value == y.value ==> OptionsOf([x, y])[0].value == OptionsOf([x, y])[1].value
  {
    SomesPair(x, y, OptionOf);
  }

  /** The inputs of a container that share a name, in document order. */
  function Group(controls: seq<Control>, name: string): (group: seq<Control>)
    ensures |group| <= |controls|
    ensures forall x :: x in group ==> x in controls && x.isInput && x.name == Some(name)
    ensures forall i :: 0 <= i < |controls| && controls[i].isInput && controls[i].name == Some(name) ==>
      controls[i] in group
  {
    if |controls| == 0 then []
    else
      var rest := Group(controls[1..], name);
      assert forall i :: 1 <= i < |controls| ==> controls[i] == controls[1..][i - 1];
      if controls[0].isInput && controls[0].name == Some(name) then [controls[0]] + rest else rest
  }

  /** The group of two stretches of controls is the group of each, in
      order: document order and repeats are kept. */
  lemma {:induction false} GroupAppend(a: seq<Control>, b: seq<Control>, name: string)
    ensures Group(a + b, name) == Group(a, name) + Group(b, name)
    decreases |a|
  {
    if |a| > 0 {
      assert (a + b)[0] == a[0];
      assert (a + b)[1..] == a[1..] + b;
      GroupAppend(a[1..], b, name);
    } else {
      assert a + b == b;
    }
  }

  /** One control is its own group when it is an input of that name, and
      contributes nothing otherwise. */
  lemma GroupSingle(x: Control, name: string)
    ensures Group([x], name) == (if x.isInput && x.name == Some(name) then [x] else [])
  {
    assert [x][1..] == [];
  }

  // ---------------------------------------------------------------------
  // Fields of entry controls

  /** The type of a control: its own type, `text` when it has none, and
      for a `text` control with a value the classifier's guess. */
  function ControlType(ctl: Control): (t: string)
    ensures ctl.inputType != "" && ctl.inputType != "text" ==> t == ctl.inputType
    ensures (ctl.inputType == "" || ctl.inputType == "text") && ctl.value == "" ==> t == "text"
    ensures (ctl.inputType == "" || ctl.inputType == "text") && ctl.value != "" ==>
      t == TypeName(GuessFieldType(ctl.value))
  {
    var t := if ctl.inputType == "" then "text" else ctl.inputType;
    if t == "text" && ctl.value != "" then TypeName(GuessFieldType(ctl.value)) else t
  }

  predicate IsMultipleChoice(t: string) {
    t == "radio" || t == "checkbox"
  }

  /** The required disjunction: the control's own attribute, a `.vnumgf`
      or asterisk element in the container, or a `*` in its text. */
  predicate IsRequired(c: Container, ctl: Control) {
    ctl.hasRequired || c.hasVnumgf || c.hasAsterisk || '*' in c.text
  }

  /** The field an entry control describes; options only for radio and
      checkbox controls that have at least one. */
  function ControlField(c: Container, heading: string, ctl: Control, name: string): (f: Field)
    requires IsPrefix(EntryPrefix, name)
    ensures f.name == name && EntryPrefix + f.id == name
    ensures f.value == ctl.value && f.labelText == Some(heading) && f.fieldType == ControlType(ctl)
    ensures f.required == Some(IsRequired(c, ctl))
    ensures f.options.Some? <==> IsMultipleChoice(ControlType(ctl)) && |OptionsOf(Group(c.controls, name))| > 0
    ensures f.options.Some? ==> f.options.value == OptionsOf(Group(c.controls, name))
  {
    var t := ControlType(ctl);
    var opts := if IsMultipleChoice(t) then OptionsOf(Group(c.controls, name)) else [];
    assert EntryPrefix + name[|EntryPrefix|..] == name;
    Field(name[|EntryPrefix|..], name, ctl.value, Some(heading), t, Some(IsRequired(c, ctl)),
          if |opts| > 0 then Some(opts) else None)
  }

  /** Two fields agree on everything but their options. */
  predicate SameButOptions(a: Field, b: Field) {
    a.(options := None) == b.(options := None)
  }

  /** `later` keeps every field of `earlier` at its place with the same
      attributes, except that options may be filled in where there were
      none; it may add fields after them. */
  predicate Extends(earlier: seq<Field>, later: seq<Field>) {
    && |earlier| <= |later|
    && forall i :: 0 <= i < |earlier| ==>
      SameButOptions(earlier[i], later[i]) && (earlier[i].options.Some? ==> later[i].options == earlier[i].options)
  }

  lemma ExtendsTransitive(a: seq<Field>, b: seq<Field>, c: seq<Field>)
    requires Extends(a, b) && Extends(b, c)
    ensures Extends(a, c)
  {
  }

  predicate HasName(fields: seq<Field>, name: string) {
    exists i :: 0 <= i < |fields| && fields[i].name == name
  }

  /** No two fields share a name. */
  predicate UniqueNames(fields: seq<Field>) {
    forall i, j :: 0 <= i < j < |fields| ==> fields[i].name != fields[j].name
  }

  /** Adding a field by name: appended when the name is new; otherwise the
      first field of that name only takes the new options, and only when it
      has none. */
  function Merge(fields: seq<Field>, f: Field): (r: seq<Field>)
    ensures !HasName(fields, f.name) ==> r == fields + [f]
    ensures HasName(fields, f.name) ==> |r| == |fields|
    ensures Extends(fields, r)
    ensures HasName(r, f.name)
    ensures forall n :: HasName(r, n) <==> HasName(fields, n) || n == f.name
    ensures forall i :: 0 <= i < |fields| && r[i] != fields[i] ==>
      && fields[i].name == f.name
      && (forall j :: 0 <= j < i ==> fields[j].name != f.name)
      && fields[i].options.None?
      && r[i] == fields[i].(options := f.options)
  {
    var k := First(fields, (g: Field) => g.name == f.name);
    if k == |fields| then
      assert forall j :: 0 <= j < |fields| ==> fields[j].name != f.name;
      assert (fields + [f])[|fields|] == f;
      fields + [f]
    else if f.options.Some? && fields[k].options.None? then
      var r := fields[k := fields[k].(options := f.options)];
      assert r[k].name == f.name;
      r
    else fields
  }

  /** Merging keeps names unique. */
  lemma MergeKeepsUniqueNames(fields: seq<Field>, f: Field)
    requires UniqueNames(fields)
    ensures UniqueNames(Merge(fields, f))
  {
    var r := Merge(fields, f);
    if HasName(fields, f.name) {
      forall i | 0 <= i < |fields|
        ensures r[i].name == fields[i].name
      {
      }
    }
  }

  /** One control: entry controls are merged in, all others are skipped. */
  function AddControl(fields: seq<Field>, c: Container, heading: string, ctl: Control): (r: seq<Field>)
    ensures Extends(fields, r)
    ensures |r| <= |fields| + 1
    ensures ctl.name.Some? && IsPrefix(EntryPrefix, ctl.name.value) ==> r == Merge(fields, ControlField(c, heading, ctl, ctl.name.value))
    ensures !(ctl.name.Some? && IsPrefix(EntryPrefix, ctl.name.value)) ==> r == fields
  {
    match ctl.name
    case Some(name) =>
      if IsPrefix(EntryPrefix, name) then Merge(fields, ControlField(c, heading, ctl, name)) else fields
    case None => fields
  }

  lemma AddControlKeepsUniqueNames(fields: seq<Field>, c: Container, heading: string, ctl: Control)
    ensures UniqueNames(fields) ==> UniqueNames(AddControl(fields, c, heading, ctl))
  {
    if UniqueNames(fields) && ctl.name.Some? && IsPrefix(EntryPrefix, ctl.name.value) {
      MergeKeepsUniqueNames(fields, ControlField(c, heading, ctl, ctl.name.value));
    }
  }

  /** Controls in document order. */
  function AddControls(fields: seq<Field>, c: Container, heading: string, ctls: seq<Control>): (r: seq<Field>)
    ensures Extends(fields, r)
    ensures UniqueNames(fields) ==> UniqueNames(r)
    ensures forall n :: HasName(fields, n) ==> HasName(r, n)
    ensures forall i :: 0 <= i < |ctls| && ctls[i].name.Some? && IsPrefix(EntryPrefix, ctls[i].name.value) ==>
      HasName(r, ctls[i].name.value)
    decreases |ctls|
  {
    if |ctls| == 0 then fields
    else
      var next := AddControl(fields, c, heading, ctls[0]);
      AddControlKeepsUniqueNames(fields, c, heading, ctls[0]);
      var r := AddControls(next, c, heading, ctls[1..]);
      ExtendsTransitive(fields, next, r);
      assert forall i :: 1 <= i < |ctls| ==> ctls[i] == ctls[1..][i - 1];
      r
  }

  // ---------------------------------------------------------------------
  // Containers without controls: the `data-params` attribute

  predicate IsNotQuote(c: char) {
    c != '"'
  }

  /** The text between the id and the label in `"<digits>","<label>"`. */
  const ParamsSeparator: string := "\",\""

  /** The pattern `"([0-9]+)","([^"]+)"` matches at `p`. Both runs are
      greedy and must be followed by a quote, so each is the longest run
      starting there. */
  predicate ParamsAt(s: string, p: nat) {
    && p < |s| && s[p] == '"'
    && var d := Span(s, p + 1, IsDigit);
    && d >= 1 && OccursAt(s, ParamsSeparator, p + 1 + d)
    && var n := Span(s, p + 1 + d + |ParamsSeparator|, IsNotQuote);
    && n >= 1 && p + 1 + d + |ParamsSeparator| + n < |s|
  }

  /** The two captures of a match at `p`. */
  function ParamsGroups(s: string, p: nat): (g: (string, string))
    requires ParamsAt(s, p)
    ensures |g.0| >= 1 && forall i :: 0 <= i < |g.0| ==> IsDigit(g.0[i])
    ensures |g.1| >= 1 && '"' !in g.1
  {
    var d := Span(s, p + 1, IsDigit);
    var b := p + 1 + d + |ParamsSeparator|;
    var n := Span(s, b, IsNotQuote);
    ParamsCaptures(s, p, d, ParamsSeparator, n);
    (s[p + 1..p + 1 + d], s[b..b + n])
  }

  /** The captures, put back between their quotes and separator, are the
      text matched at `p`. */
  lemma ParamsGroupsMatched(s: string, p: nat)
    requires ParamsAt(s, p)
    ensures var g := ParamsGroups(s, p);
      OccursAt(s, "\"" + g.0 + ParamsSeparator + g.1 + "\"", p)
  {
    var d := Span(s, p + 1, IsDigit);
    var n := Span(s, p + 1 + d + |ParamsSeparator|, IsNotQuote);
    ParamsCaptures(s, p, d, ParamsSeparator, n);
  }

  /** A quote, a run of `d` digits, `sep`, a run of `n` quote-free
      characters and a quote, from `p` on. */
  lemma ParamsCaptures(s: string, p: nat, d: nat, sep: string, n: nat)
    requires p + 1 + d + |sep| + n < |s|
    requires s[p] == '"' && OccursAt(s, sep, p + 1 + d) && s[p + 1 + d + |sep| + n] == '"'
    requires forall k :: p + 1 <= k < p + 1 + d ==> IsDigit(s[k])
    requires forall k :: p + 1 + d + |sep| <= k < p + 1 + d + |sep| + n ==> IsNotQuote(s[k])
    ensures var id := s[p + 1..p + 1 + d];
      forall i :: 0 <= i < |id| ==> IsDigit(id[i])
    ensures '"' !in s[p + 1 + d + |sep|..p + 1 + d + |sep| + n]
    ensures OccursAt(s, "\"" + s[p + 1..p + 1 + d] + sep + s[p + 1 + d + |sep|..p + 1 + d + |sep| + n] + "\"", p)
  {
    var b := p + 1 + d + |sep|;
    var id := s[p + 1..p + 1 + d];
    var text := s[b..b + n];
    SpanSlice(s, p + 1, d, IsDigit, id);
    SpanSlice(s, b, n, IsNotQuote, text);
    QuoteOccurs(s, p);
    QuoteOccurs(s, b + n);
    FiveOccurrences(s, p, "\"", id, sep, text, "\"");
  }

  lemma QuoteOccurs(s: string, i: nat)
    requires i < |s| && s[i] == '"'
    ensures OccursAt(s, "\"", i)
  {
  }

  /** The characters of a run all satisfy its predicate. */
  lemma SpanSlice(s: string, i: nat, n: nat, q: char -> bool, r: string)
    requires i + n <= |s| && r == s[i..i + n]
    requires forall k :: i <= k < i + n ==> q(s[k])
    ensures |r| == n && OccursAt(s, r, i)
    ensures forall k :: 0 <= k < |r| ==> q(r[k])
  {
    assert forall k :: 0 <= k < |r| ==> r[k] == s[i + k];
  }

  /** Five adjacent occurrences make one of their concatenation. */
  lemma FiveOccurrences(s: string, p: nat, a: string, b: string, c: string, d: string, e: string)
    requires OccursAt(s, a, p) && OccursAt(s, b, p + |a|) && OccursAt(s, c, p + |a| + |b|)
    requires OccursAt(s, d, p + |a| + |b| + |c|) && OccursAt(s, e, p + |a| + |b| + |c| + |d|)
    ensures OccursAt(s, a + b + c + d + e, p)
  {
    OccursAtConcat(s, p, a, b);
    OccursAtConcat(s, p, a + b, c);
    OccursAtConcat(s, p, a + b + c, d);
    OccursAtConcat(s, p, a + b + c + d, e);
  }

  /** The leftmost match of the `data-params` pattern. */
  function ParamsMatch(s: string): (m: Option<(string, string)>)
    ensures m.None? <==> forall p :: 0 <= p < |s| ==> !ParamsAt(s, p)
    ensures m.Some? ==> exists p :: (0 <= p < |s| && ParamsAt(s, p) && m.value == ParamsGroups(s, p) &&
      forall j :: 0 <= j < p ==> !ParamsAt(s, j))
  {
    var q := (p: nat) => ParamsAt(s, p);
    var k := FirstFrom(|s|, q, 0);
    assert forall p: nat :: p < k ==> !q(p) && q(p) == ParamsAt(s, p);
    assert k < |s| ==> q(k) && q(k) == ParamsAt(s, k);
    if k < |s| then Some(ParamsGroups(s, k)) else None
  }

  /** The field a control-less container describes through its
      `data-params` attribute: a text field with an empty value, labelled
      by the second capture, which is never empty, so the question label is
      never used. */
  function ParamsField(c: Container, heading: string): (f: Option<Field>)
    ensures f.Some? <==> c.dataParams.Some? && c.dataParams.value != "" && ParamsMatch(c.dataParams.value).Some?
    ensures f.Some? ==>
      && var g := ParamsMatch(c.dataParams.value).value;
      && f.value == Field(g.0, EntryPrefix + g.0, "", Some(g.1), "text", Some('*' in c.text || c.hasAsterisk), None)
  {
    match c.dataParams
    case None => None
    case Some(dp) =>
      if dp == "" then None
      else
        match ParamsMatch(dp)
        case None => None
        case Some(g) =>
          var text := if g.1 != "" then g.1 else heading;
          Some(Field(g.0, EntryPrefix + g.0, "", Some(text), "text", Some('*' in c.text || c.hasAsterisk), None))
  }

  // ---------------------------------------------------------------------
  // Containers

  /** One container: without controls, its `data-params` field is appended
      with no check of its name; otherwise its controls are merged in. */
  function AddContainer(fields: seq<Field>, c: Container): (r: seq<Field>)
    ensures Extends(fields, r)
    ensures |c.controls| == 0 && ParamsField(c, QuestionLabel(c)).Some? ==>
      r == fields + [ParamsField(c, QuestionLabel(c)).value]
    ensures |c.controls| == 0 && ParamsField(c, QuestionLabel(c)).None? ==> r == fields
    ensures |c.controls| > 0 ==> r == AddControls(fields, c, QuestionLabel(c), c.controls)
  {
    var heading := QuestionLabel(c);
    if |c.controls| == 0 then
      match ParamsField(c, heading)
      case Some(f) => fields + [f]
      case None => fields
    else AddControls(fields, c, heading, c.controls)
  }

  /** Containers in document order. */
  function AddContainers(fields: seq<Field>, cs: seq<Container>): (r: seq<Field>)
    ensures Extends(fields, r)
    ensures forall n :: HasName(fields, n) ==> HasName(r, n)
    decreases |cs|
  {
    if |cs| == 0 then fields
    else
      var next := AddContainer(fields, cs[0]);
      var r := AddContainers(next, cs[1..]);
      ExtendsTransitive(fields, next, r);
      r
  }

  /** When every container has entry controls and no `data-params` path is
      taken, the fields have distinct names. */
  lemma {:induction false} ControlsOnlyUniqueNames(fields: seq<Field>, cs: seq<Container>)
    requires UniqueNames(fields)
    requires forall i :: 0 <= i < |cs| ==> |cs[i].controls| > 0
    ensures UniqueNames(AddContainers(fields, cs))
    decreases |cs|
  {
    if |cs| > 0 {
      ContainerKeepsUniqueNames(fields, cs[0]);
      TailHasControls(cs);
      ControlsOnlyUniqueNames(AddContainer(fields, cs[0]), cs[1..]);
    }
  }

  lemma TailHasControls(cs: seq<Container>)
    requires |cs| > 0 && forall i :: 0 <= i < |cs| ==> |cs[i].controls| > 0
    ensures forall i :: 0 <= i < |cs[1..]| ==> |cs[1..][i].controls| > 0
  {
    assert forall i :: 0 <= i < |cs[1..]| ==> cs[1..][i] == cs[i + 1];
  }

  lemma ContainerKeepsUniqueNames(fields: seq<Field>, c: Container)
    requires UniqueNames(fields) && |c.controls| > 0
    ensures UniqueNames(AddContainer(fields, c))
  {
    assert AddContainer(fields, c) == AddControls(fields, c, QuestionLabel(c), c.controls);
  }

  /** Two control-less containers with the same `data-params` give two
      fields of the same name: that path does not merge by name. */
  lemma ParamsFieldsRepeat(c: Container)
    requires |c.controls| == 0 && ParamsField(c, QuestionLabel(c)).Some?
    ensures |AddContainers([], [c, c])| == 2
    ensures AddContainers([], [c, c])[0] == AddContainers([], [c, c])[1]
  {
    AddContainersTwo([], c, c);
    var one := AddContainer([], c);
    AppendedTwice(one, AddContainer(one, c), ParamsField(c, QuestionLabel(c)).value);
  }

  lemma AppendedTwice(one: seq<Field>, two: seq<Field>, f: Field)
    requires one == [] + [f] && two == one + [f]
    ensures |two| == 2 && two[0] == two[1]
  {
  }

  lemma AddContainersTwo(fields: seq<Field>, a: Container, b: Container)
    ensures AddContainers(fields, [a, b]) == AddContainer(AddContainer(fields, a), b)
  {
    var next := AddContainer(fields, a);
    var last := AddContainer(next, b);
    assert [a, b][0] == a && [a, b][1..] == [b];
    assert AddContainers(fields, [a, b]) == AddContainers(next, [b]);
    assert [b][0] == b && [b][1..] == [];
    assert AddContainers(next, [b]) == AddContainers(last, []);
  }

  // ---------------------------------------------------------------------
  // Script fallback for fields

  /** The parts of `[null,null,"<label>",null,null,null,null,null,null,[]]`
      around the label. */
  const TupleHead: string := "[null,null,\""
  const TupleTail: string := "\",null,null,null,null,null,null,[]]"

  /** The tuple pattern matches at `p`; the label run is greedy and must
      be followed by the tail. */
  predicate TupleAt(s: string, p: nat) {
    && OccursAt(s, TupleHead, p)
    && var n := Span(s, p + |TupleHead|, IsNotQuote);
    && n >= 1 && OccursAt(s, TupleTail, p + |TupleHead| + n)
  }

  /** Where a match at `p` ends. */
  function TupleEnd(s: string, p: nat): (e: nat)
    requires TupleAt(s, p)
    ensures p < e <= |s|
  {
    p + |TupleHead| + Span(s, p + |TupleHead|, IsNotQuote) + |TupleTail|
  }

  /** A whole tuple: head, a non-empty label without quotes, tail. */
  predicate IsTuple(m: string) {
    Framed(m, TupleHead, TupleTail)
  }

  /** `m` is `h`, a non-empty quote-free text, and `t`. */
  predicate Framed(m: string, h: string, t: string) {
    && |m| > |h| + |t|
    && m[..|h|] == h
    && m[|m| - |t|..] == t
    && '"' !in m[|h|..|m| - |t|]
  }

  function TupleMiddle(m: string): string
    requires IsTuple(m)
  {
    m[|TupleHead|..|m| - |TupleTail|]
  }

  /** The texts of all non-overlapping matches from `p` on, left to right,
      as a global `match` returns them. */
  function TupleMatches(s: string, p: nat): (ms: seq<string>)
    requires p <= |s|
    ensures forall i :: 0 <= i < |ms| ==> IsTuple(ms[i]) && Contains(s, ms[i])
    decreases |s| - p
  {
    if p == |s| then []
    else if TupleAt(s, p) then
      var e := TupleEnd(s, p);
      var m := s[p..e];
      TupleText(s, p);
      assert OccursAt(s, m, p);
      [m] + TupleMatches(s, e)
    else TupleMatches(s, p + 1)
  }

  lemma TupleText(s: string, p: nat)
    requires TupleAt(s, p)
    ensures IsTuple(s[p..TupleEnd(s, p)])
  {
    SpanFramed(s, p, TupleHead, TupleTail);
  }

  /** A quote-free run between `h` and `t` frames the slice they span. */
  lemma SpanFramed(s: string, p: nat, h: string, t: string)
    requires OccursAt(s, h, p)
    requires Span(s, p + |h|, IsNotQuote) >= 1 && OccursAt(s, t, p + |h| + Span(s, p + |h|, IsNotQuote))
    ensures var e := p + |h| + Span(s, p + |h|, IsNotQuote) + |t|;
      Framed(s[p..e], h, t)
  {
    Enclosed(s, p, h, Span(s, p + |h|, IsNotQuote), t);
  }

  /** The slice from an occurrence of `h` at `p` to the end of an
      occurrence of `t` after `n` quote-free characters is `h`, those
      characters and `t`. */
  lemma Enclosed(s: string, p: nat, h: string, n: nat, t: string)
    requires OccursAt(s, h, p) && OccursAt(s, t, p + |h| + n)
    requires forall k :: p + |h| <= k < p + |h| + n ==> IsNotQuote(s[k])
    requires n >= 1
    ensures var m := s[p..p + |h| + n + |t|];
      && Framed(m, h, t)
      && m[|h|..|m| - |t|] == s[p + |h|..p + |h| + n]
  {
    var m := s[p..p + |h| + n + |t|];
    var b := p + |h|;
    assert m[..|h|] == s[p..b];
    assert m[|m| - |t|..] == s[b + n..b + n + |t|];
    var mid := m[|h|..|m| - |t|];
    assert forall i :: 0 <= i < |mid| ==> mid[i] == s[b + i];
    assert mid == s[b..b + n];
  }

  /** The first quoted non-empty run of a text: the capture of
      `"([^"]+)"`. */
  predicate QuotedAt(m: string, p: nat) {
    && p < |m| && m[p] == '"'
    && var n := Span(m, p + 1, IsNotQuote);
    && n >= 1 && p + 1 + n < |m|
  }

  function FirstQuoted(m: string): (q: Option<string>)
    ensures q.Some? ==> q.value != "" && '"' !in q.value
  {
    var k := FirstFrom(|m|, (p: nat) => QuotedAt(m, p), 0);
    if k < |m| then
      var t := m[k + 1..k + 1 + Span(m, k + 1, IsNotQuote)];
      assert forall i :: 0 <= i < |t| ==> t[i] == m[k + 1 + i];
      Some(t)
    else None
  }

  /** In a matched tuple the only quote before the label ends the head, so
      the inner capture is the label. */
  lemma FirstQuotedOfTuple(m: string)
    requires IsTuple(m)
    ensures FirstQuoted(m) == Some(TupleMiddle(m))
  {
    var mid := TupleMiddle(m);
    assert m == m[..|TupleHead|] + mid + m[|m| - |TupleTail|..];
    TupleDelimiters();
    FirstQuotedEnclosed(m, TupleHead, mid, TupleTail);
  }

  /** The head ends with its only quote and the tail starts with one. */
  lemma TupleDelimiters()
    ensures TupleHead[|TupleHead| - 1] == '"' && '"' !in TupleHead[..|TupleHead| - 1]
    ensures TupleTail[0] == '"'
  {
    assert TupleHead[..|TupleHead| - 1] == "[null,null,";
  }

  /** The first quoted run of `h + mid + t` is `mid` when the last
      character of `h` is its only quote, `mid` is a non-empty run without
      quotes and `t` starts with a quote. */
  lemma FirstQuotedEnclosed(m: string, h: string, mid: string, t: string)
    requires m == h + mid + t && |h| > 0 && mid != "" && |t| > 0
    requires h[|h| - 1] == '"' && '"' !in h[..|h| - 1]
    requires '"' !in mid && t[0] == '"'
    ensures FirstQuoted(m) == Some(mid)
  {
    var k := |h| - 1;
    assert m[k] == '"';
    assert forall i :: |h| <= i < |h| + |mid| ==> m[i] == mid[i - |h|];
    assert m[|h| + |mid|] == t[0];
    var n := Span(m, k + 1, IsNotQuote);
    assert n == |mid|;
    var q := (p: nat) => QuotedAt(m, p);
    assert q(k) && q(k) == QuotedAt(m, k);
    forall p: nat | p < k
      ensures !q(p)
    {
      assert m[p] == h[..|h| - 1][p];
    }
    var first := FirstFrom(|m|, q, 0);
    assert first == k;
    assert m[k + 1..k + 1 + n] == mid;
  }

  /** The `i`-th script tuple's field. */
  function GeneratedField(i: nat, text: string): (f: Field)
    ensures f.name == EntryPrefix + f.id && f.value == "" && f.labelText == Some(text)
    ensures f.fieldType == "text" && f.required == Some(false) && f.options.None?
  {
    var id := "generated_" + NatToString(i);
    Field(id, EntryPrefix + id, "", Some(text), "text", Some(false), None)
  }

  /** Fields for the matches `ms`, numbered from `start` in match order. */
  function NumberedFields(ms: seq<string>, start: nat): (fs: seq<Field>)
    requires forall i :: 0 <= i < |ms| ==> IsTuple(ms[i])
    ensures |fs| == |ms|
    ensures forall i :: 0 <= i < |ms| ==> fs[i] == GeneratedField(start + i, TupleMiddle(ms[i]))
    decreases |ms|
  {
    if |ms| == 0 then []
    else
      FirstQuotedOfTuple(ms[0]);
      var rest := NumberedFields(ms[1..], start + 1);
      var f := match FirstQuoted(ms[0])
        case Some(text) => [GeneratedField(start, text)]
        case None => [];
      assert f == [GeneratedField(start, TupleMiddle(ms[0]))];
      NumberedShift(ms, start, f, rest);
      f + rest
  }

  lemma NumberedShift(ms: seq<string>, start: nat, f: seq<Field>, rest: seq<Field>)
    requires |ms| > 0 && forall i :: 0 <= i < |ms| ==> IsTuple(ms[i])
    requires f == [GeneratedField(start, TupleMiddle(ms[0]))]
    requires |rest| == |ms| - 1
    requires forall i :: 0 <= i < |ms| - 1 ==> rest[i] == GeneratedField(start + 1 + i, TupleMiddle(ms[1..][i]))
    ensures forall i :: 0 <= i < |ms| ==> (f + rest)[i] == GeneratedField(start + i, TupleMiddle(ms[i]))
  {
    forall i | 1 <= i < |ms|
      ensures (f + rest)[i] == GeneratedField(start + i, TupleMiddle(ms[i]))
    {
      assert (f + rest)[i] == rest[i - 1];
      assert ms[1..][i - 1] == ms[i];
    }
  }

  /** The fields one script body yields, numbered from zero. */
  function ScriptFields(s: string): (fs: seq<Field>)
    ensures forall f :: f in fs ==>
      && f.value == "" && f.fieldType == "text" && f.required == Some(false) && f.options.None?
      && f.labelText.Some? && f.labelText.value != "" && '"' !in f.labelText.value
      && Contains(s, TupleHead + f.labelText.value + TupleTail)
    ensures |fs| > 0 ==> fs[0].id == "generated_0" && fs[0].name == EntryPrefix + "generated_0"
  {
    var ms := TupleMatches(s, 0);
    var fs := NumberedFields(ms, 0);
    ScriptFieldsFacts(s, ms, fs);
    fs
  }

  lemma ScriptFieldsFacts(s: string, ms: seq<string>, fs: seq<Field>)
    requires forall i :: 0 <= i < |ms| ==> IsTuple(ms[i]) && Contains(s, ms[i])
    requires |fs| == |ms|
    requires forall i :: 0 <= i < |ms| ==> fs[i] == GeneratedField(i, TupleMiddle(ms[i]))
    ensures forall f :: f in fs ==>
      && f.labelText.Some? && f.labelText.value != "" && '"' !in f.labelText.value
      && Contains(s, TupleHead + f.labelText.value + TupleTail)
  {
    forall f | f in fs
      ensures f.labelText.Some? && f.labelText.value != "" && '"' !in f.labelText.value
      ensures Contains(s, TupleHead + f.labelText.value + TupleTail)
    {
      var i :| 0 <= i < |fs| && fs[i] == f;
      var m := ms[i];
      assert f.labelText == Some(TupleMiddle(m));
      assert m == m[..|TupleHead|] + TupleMiddle(m) + m[|m| - |TupleTail|..];
    }
  }

  /** The fields of all script bodies, each numbered from zero. */
  function GeneratedFields(scripts: seq<string>): (fs: seq<Field>)
    ensures forall f :: f in fs ==>
      && f.value == "" && f.fieldType == "text" && f.required == Some(false) && f.options.None?
      && f.labelText.Some? && f.labelText.value != ""
    ensures forall i :: 0 <= i < |scripts| ==> forall f :: f in ScriptFields(scripts[i]) ==> f in fs
  {
    if |scripts| == 0 then []
    else
      var rest := GeneratedFields(scripts[1..]);
      assert forall i :: 1 <= i < |scripts| ==> scripts[i] == scripts[1..][i - 1];
      ScriptFields(scripts[0]) + rest
  }

  lemma {:induction false} GeneratedFieldsAppend(a: seq<string>, b: seq<string>)
    ensures GeneratedFields(a + b) == GeneratedFields(a) + GeneratedFields(b)
    decreases |a|
  {
    if |a| > 0 {
      assert (a + b)[0] == a[0];
      assert (a + b)[1..] == a[1..] + b;
      GeneratedFieldsAppend(a[1..], b);
      assert GeneratedFields(a + b) == ScriptFields(a[0]) + (GeneratedFields(a[1..]) + GeneratedFields(b));
      assert GeneratedFields(a) == ScriptFields(a[0]) + GeneratedFields(a[1..]);
    } else {
      assert a + b == b;
    }
  }

  /** The numbering restarts with every script, so two scripts with a tuple
      each give two fields named `entry.generated_0`. */
  lemma GeneratedNamesRepeat(s1: string, s2: string)
    requires |ScriptFields(s1)| > 0 && |ScriptFields(s2)| > 0
    ensures GeneratedFields([s1, s2]) == ScriptFields(s1) + ScriptFields(s2)
    ensures var fs := GeneratedFields([s1, s2]);
      fs[0].name == fs[|ScriptFields(s1)|].name == EntryPrefix + "generated_0"
  {
    GeneratedFieldsAppend([s1], [s2]);
    assert [s1] + [s2] == [s1, s2];
    GeneratedSingle(s1);
    GeneratedSingle(s2);
    var f1 := ScriptFields(s1);
    var f2 := ScriptFields(s2);
    var fs := f1 + f2;
    assert fs[0] == f1[0] && fs[|f1|] == f2[0];
  }

  lemma GeneratedSingle(s: string)
    ensures GeneratedFields([s]) == ScriptFields(s)
  {
    assert [s][1..] == [];
  }

  /** A script holding exactly one tuple yields one field. */
  lemma SingleTuple(text: string)
    requires text != "" && '"' !in text
    ensures ScriptFields(TupleHead + text + TupleTail) == [GeneratedField(0, text)]
  {
    var s := TupleHead + text + TupleTail;
    TupleDelimiters();
    FramedParts(TupleHead, text, TupleTail);
    assert TupleAt(s, 0);
    assert TupleEnd(s, 0) == |s|;
    assert s[0..|s|] == s;
    assert TupleMatches(s, 0) == [s];
    assert TupleMiddle(s) == text;
  }

  /** In `h + text + t` with a quote-free `text` and `t` opening with a
      quote, the run after `h` is exactly `text`. */
  lemma FramedParts(h: string, text: string, t: string)
    requires '"' !in text && |t| > 0 && t[0] == '"'
    ensures var s := h + text + t;
      && OccursAt(s, h, 0)
      && Span(s, |h|, IsNotQuote) == |text|
      && OccursAt(s, t, |h| + |text|)
      && s[|h|..|s| - |t|] == text
  {
    var s := h + text + t;
    assert s[..|h|] == h;
    assert forall i :: |h| <= i < |h| + |text| ==> s[i] == text[i - |h|];
    assert s[|h| + |text|] == '"';
    assert s[|h| + |text|..] == t;
    assert s[|h|..|s| - |t|] == text;
  }

  // ---------------------------------------------------------------------
  // The whole page

  /** The fields of the page: those of the chosen containers, and only when
      there are none, those the scripts yield. */
  function CollectFields(doc: Document): (fs: seq<Field>)
    ensures AddContainers([], Containers(doc)) != [] ==> fs == AddContainers([], Containers(doc))
    ensures AddContainers([], Containers(doc)) == [] ==> fs == GeneratedFields(doc.scripts)
  {
    var fromContainers := AddContainers([], Containers(doc));
    if |fromContainers| == 0 then GeneratedFields(doc.scripts) else fromContainers
  }

  /** Once a container yields a field the scripts are not consulted for
      fields. */
  lemma ScriptsIgnoredWhenFieldsFound(doc: Document, scripts: seq<string>)
    requires AddContainers([], Containers(doc)) != []
    ensures CollectFields(doc.(scripts := scripts)) == CollectFields(doc)
  {
    assert Containers(doc.(scripts := scripts)) == Containers(doc);
  }

  /** `parseHtml`. The substring guard comes first, then the form URL, its
      parse and the form id with its fallbacks; the title and the fields
      cannot fail. */
  function ParseHtml(html: string, doc: Document): (r: Result<FormSchema, ParseError>)
    ensures !Contains(html, FormsHost) ==> r == Err(InvalidInput)
    ensures Contains(html, FormsHost) && ChosenUrl(doc).None? ==> r == Err(NoFormUrl)
    ensures r == Err(MalformedUrl) <==>
      Contains(html, FormsHost) && ChosenUrl(doc).Some? && ChosenUrl(doc).value.pathname.None?
    ensures (&& Contains(html, FormsHost)
             && ChosenUrl(doc).Some? && ChosenUrl(doc).value.pathname.Some?
             && PageFormId(doc, ScanFormId(Split(ChosenUrl(doc).value.pathname.value, '/'))) == "")
      ==> r == Err(MissingFormId)
    ensures r.Ok? ==>
      && ChosenUrl(doc).Some? && ChosenUrl(doc).value.pathname.Some?
      && r.value.formId == PageFormId(doc, ScanFormId(Split(ChosenUrl(doc).value.pathname.value, '/')))
      && r.value.formId != ""
      && r.value.formActionUrl == ActionUrl(r.value.formId)
      && r.value.title == Some(FormTitle(doc))
      && r.value.fields == CollectFields(doc)
    ensures r.Err? <==>
      || !Contains(html, FormsHost)
      || ChosenUrl(doc).None?
      || ChosenUrl(doc).value.pathname.None?
      || PageFormId(doc, ScanFormId(Split(ChosenUrl(doc).value.pathname.value, '/'))) == ""
  {
    if !Contains(html, FormsHost) then Err(InvalidInput)
    else match ChosenUrl(doc)
      case None => Err(NoFormUrl)
      case Some(link) =>
        match link.pathname
        case None => Err(MalformedUrl)
        case Some(path) =>
          var formId := PageFormId(doc, ScanFormId(Split(path, '/')));
          if formId == "" then Err(MissingFormId)
          else Ok(FormSchema(formId, ActionUrl(formId), CollectFields(doc), Some(FormTitle(doc))))
  }

  /** The `fbzx` and script fallbacks for the form id are only reached once
      a candidate URL has been found: without one, the page fails the same
      way whatever they hold. */
  lemma FallbackNeedsUrl(html: string, doc: Document, fbzx: string, scripts: seq<string>)
    requires ChosenUrl(doc).None?
    ensures ParseHtml(html, doc).Err?
    ensures ParseHtml(html, doc.(fbzx := fbzx, scripts := scripts)) == ParseHtml(html, doc)
  {
    assert ChosenUrl(doc.(fbzx := fbzx, scripts := scripts)) == ChosenUrl(doc);
  }

  /** A form id found in the path is used as is: the fallbacks are not
      consulted for it. */
  lemma PathIdWins(html: string, doc: Document, fbzx: string, scripts: seq<string>)
    requires ChosenUrl(doc).Some? && ChosenUrl(doc).value.pathname.Some?
    requires ScanFormId(Split(ChosenUrl(doc).value.pathname.value, '/')) != ""
    requires ParseHtml(html, doc).Ok?
    ensures var r := ParseHtml(html, doc.(fbzx := fbzx, scripts := scripts));
      r.Ok? && r.value.formId == ParseHtml(html, doc).value.formId
  {
    assert ChosenUrl(doc.(fbzx := fbzx, scripts := scripts)) == ChosenUrl(doc);
  }

  /** A page whose form posts to the standard `/forms/d/e/<id>/formResponse`
      path gets the form id `e`, as in URL mode, whatever its `fbzx` value
      and scripts hold. */
  lemma StandardActionYieldsE(html: string, doc: Document, id: string)
    requires Contains(html, FormsHost)
    requires '/' !in id
    requires |doc.formUrls| > 0 && doc.formUrls[0].href != ""
    requires doc.formUrls[0].pathname == Some("/forms/d/e/" + id + "/formResponse")
    ensures ParseHtml(html, doc).Ok?
    ensures ParseHtml(html, doc).value.formId == "e"
    ensures ParseHtml(html, doc).value.formActionUrl == "https://docs.google.com/forms/d/e/e/formResponse"
  {
    ResponsePathFormId(id);
    assert ChosenUrl(doc) == Some(doc.formUrls[0]);
    ActionUrlOfE();
  }

  lemma ResponsePathFormId(id: string)
    requires '/' !in id
    ensures ScanFormId(Split("/forms/d/e/" + id + "/formResponse", '/')) == "e"
  {
    assert "/" + "formResponse" == "/formResponse";
    SeqAssoc("/forms/d/e/" + id, "/", "formResponse");
    StandardPathFormId(id, "formResponse");
  }
}
