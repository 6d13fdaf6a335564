/** URL mode of js/parser.js: `parseUrl`, `isValidFormUrl`,
    `extractFormTitle` and `formatTitle`. The browser's `URL` parser is an
    input: `None` when it rejects the text, otherwise the host name, the path
    name and the decoded query pairs in query order. */
module UrlParser {
  import opened Outcomes
  import opened Text
  import opened FieldTypes
  import opened Forms

  datatype UrlParts = UrlParts(hostname: string, pathname: string, query: seq<(string, string)>)

  predicate IsEntryKey(key: string) {
    IsPrefix(EntryPrefix, key)
  }

  /** The field a prefilled `entry.<id>=<value>` pair describes: no label,
      no required flag, no options. */
  function EntryField(key: string, value: string): Field
    requires IsEntryKey(key)
  {
    Field(key[|EntryPrefix|..], key, value, None, TypeName(GuessFieldType(value)), None, None)
  }

  /** The field one query pair describes, when its key is an entry key. */
  function EntryOf(pair: (string, string)): (f: Option<Field>)
    ensures f.Some? <==> IsEntryKey(pair.0)
    ensures f.Some? ==> f.value.name == pair.0 && f.value.value == pair.1
  {
    if IsEntryKey(pair.0) then Some(EntryField(pair.0, pair.1)) else None
  }

  /** The fields of the entry pairs of a query, in query order, repeated
      keys included. */
  function EntryFields(query: seq<(string, string)>): (fields: seq<Field>)
    ensures |fields| <= |query|
    ensures forall f :: f in fields ==> exists i :: 0 <= i < |query| && EntryOf(query[i]) == Some(f)
    ensures forall i :: 0 <= i < |query| && IsEntryKey(query[i].0) ==> EntryOf(query[i]).value in fields
  {
    SomesMembers(query, EntryOf);
    Somes(query, EntryOf)
  }

  /** Every field comes from an entry pair of the query, and every entry
      pair gives a field. */
  lemma EntryFieldsMembers(query: seq<(string, string)>)
    ensures forall f :: f in EntryFields(query) ==>
      IsEntryKey(f.name) && f == EntryField(f.name, f.value) && (f.name, f.value) in query
    ensures forall i :: 0 <= i < |query| && IsEntryKey(query[i].0) ==>
      EntryField(query[i].0, query[i].1) in EntryFields(query)
  {
    forall f | f in EntryFields(query)
      ensures IsEntryKey(f.name) && f == EntryField(f.name, f.value) && (f.name, f.value) in query
    {
      SomesSource(query, EntryOf, f);
      var i :| 0 <= i < |query| && EntryOf(query[i]) == Some(f);
      assert query[i] == (f.name, f.value);
    }
    forall i | 0 <= i < |query| && IsEntryKey(query[i].0)
      ensures EntryField(query[i].0, query[i].1) in EntryFields(query)
    {
      SomesKept(query, EntryOf, i);
    }
  }

  /** Entry extraction distributes over concatenation of queries, which
      fixes both the order and the multiplicity of the fields. */
  lemma EntryFieldsAppend(q1: seq<(string, string)>, q2: seq<(string, string)>)
    ensures EntryFields(q1 + q2) == EntryFields(q1) + EntryFields(q2)
  {
    SomesAppend(q1, q2, EntryOf);
  }

  /** A single pair gives its field when it is an entry pair and nothing
      otherwise. */
  lemma EntryFieldsSingle(key: string, value: string)
    ensures EntryFields([(key, value)]) == if IsEntryKey(key) then [EntryField(key, value)] else []
  {
    assert [(key, value)][1..] == [];
    assert Somes([(key, value)], EntryOf) == SomeHead(EntryOf((key, value))) + Somes([], EntryOf);
  }

  /** `parseUrl`. The substring guard comes first, then the URL parse, then
      the form-id scan of the path segments. */
  function ParseUrl(url: string, parsed: Option<UrlParts>): (r: Result<FormSchema, ParseError>)
    ensures !Contains(url, FormsHost) ==> r == Err(InvalidInput)
    ensures Contains(url, FormsHost) && parsed.None? ==> r == Err(MalformedUrl)
    ensures r.Ok? ==>
      && parsed.Some?
      && var parts := Split(parsed.value.pathname, '/');
      && MarkerIndex(parts).Some?
      && r.value.formId == parts[MarkerIndex(parts).value + 1] != ""
      && r.value.formActionUrl == ActionUrl(r.value.formId)
      && r.value.fields == EntryFields(parsed.value.query)
      && r.value.title.None?
    ensures r.Err? <==>
      || !Contains(url, FormsHost)
      || parsed.None?
      || ScanFormId(Split(parsed.value.pathname, '/')) == ""
  {
    if !Contains(url, FormsHost) then Err(InvalidInput)
    else match parsed
      case None => Err(MalformedUrl)
      case Some(u) =>
        var formId := ScanFormId(Split(u.pathname, '/'));
        if formId == "" then Err(MissingFormId)
        else Ok(FormSchema(formId, ActionUrl(formId), EntryFields(u.query), None))
  }

  /** On the standard `/forms/d/e/<id>/viewform` path the `d` segment is the
      leftmost marker, so the form id is `e` whatever `<id>` is. */
  lemma PrefillLinkYieldsE(url: string, id: string, query: seq<(string, string)>)
    requires Contains(url, FormsHost)
    requires '/' !in id
    ensures var r := ParseUrl(url, Some(UrlParts("docs.google.com", "/forms/d/e/" + id + "/viewform", query)));
      && r.Ok?
      && r.value.formId == "e"
      && r.value.formActionUrl == "https://docs.google.com/forms/d/e/e/formResponse"
      && r == Ok(FormSchema("e", ActionUrl("e"), EntryFields(query), None))
  {
    var path := "/forms/d/e/" + id + "/viewform";
    PrefillFormId(id);
    var u := UrlParts("docs.google.com", path, query);
    assert ScanFormId(Split(u.pathname, '/')) == "e";
    var r := ParseUrl(url, Some(u));
    assert r.Ok? && r.value.formId == "e";
    ActionUrlOfE();
  }


  lemma PrefillFormId(id: string)
    requires '/' !in id
    ensures ScanFormId(Split("/forms/d/e/" + id + "/viewform", '/')) == "e"
  {
    ViewformSuffix();
    SeqAssoc("/forms/d/e/" + id, "/", "viewform");
    StandardPathFormId(id, "viewform");
  }

  lemma ViewformSuffix()
    ensures "/" + "viewform" == "/viewform"
  {
  }

  /** A prefill link with an email-like and a number-like entry, such as
      `entry.111=a@b.com&entry.222=5`: both fields come out in query order,
      typed by their values, and the form id is `e` whatever the link's
      id is. */
  lemma TwoEntryLink(url: string, id: string, id1: string, v1: string, id2: string, v2: string)
    requires Contains(url, FormsHost) && '/' !in id
    requires GuessFieldType(v1) == Email && GuessFieldType(v2) == Number
    ensures ParseUrl(url, Some(UrlParts("docs.google.com", "/forms/d/e/" + id + "/viewform",
        [(EntryPrefix + id1, v1), (EntryPrefix + id2, v2)])))
      == Ok(FormSchema("e", ActionUrl("e"), [
        Field(id1, EntryPrefix + id1, v1, None, "email", None, None),
        Field(id2, EntryPrefix + id2, v2, None, "number", None, None)], None))
  {
    var query := [(EntryPrefix + id1, v1), (EntryPrefix + id2, v2)];
    EntryFieldTyped(EntryPrefix + id1, id1, v1, Email);
    EntryFieldTyped(EntryPrefix + id2, id2, v2, Number);
    TwoEntryFields(EntryPrefix + id1, v1, EntryPrefix + id2, v2);
    PrefillLinkYieldsE(url, id, query);
  }

  /** Two entry pairs give their two fields, in order. */
  lemma TwoEntryFields(k1: string, v1: string, k2: string, v2: string)
    requires IsEntryKey(k1) && IsEntryKey(k2)
    ensures EntryFields([(k1, v1), (k2, v2)]) == [EntryField(k1, v1), EntryField(k2, v2)]
  {
    SomesPair((k1, v1), (k2, v2), EntryOf);
  }

  lemma EntryFieldTyped(key: string, id: string, value: string, t: FieldType)
    requires key == EntryPrefix + id && GuessFieldType(value) == t
    ensures IsEntryKey(key) && EntryField(key, value) == Field(id, key, value, None, TypeName(t), None, None)
  {
    assert key[..|EntryPrefix|] == EntryPrefix;
    assert key[|EntryPrefix|..] == id;
  }

  /** `isValidFormUrl`: the check app.js runs before `parseUrl`. */
  predicate IsValidFormUrl(parsed: Option<UrlParts>) {
    && parsed.Some?
    && Contains(parsed.value.hostname, "docs.google.com")
    && Contains(parsed.value.pathname, "/forms/")
    && (Contains(parsed.value.pathname, "/viewform") || Contains(parsed.value.pathname, "/formResponse"))
  }

  /** The pre-check does not imply that `parseUrl` succeeds: a forms path
      without an `e` or `d` segment passes it and is then rejected. */
  lemma ValidUrlWithoutMarker()
    ensures var parts := UrlParts("docs.google.com", "/forms/viewform", []);
      && IsValidFormUrl(Some(parts))
      && ParseUrl("https://docs.google.com/forms/viewform", Some(parts)) == Err(MissingFormId)
  {
    var parts := UrlParts("docs.google.com", "/forms/viewform", []);
    ViewformPathValid(parts);
    NoMarkerPath(parts.pathname);
    MentionsHost("https://docs.google.com/forms/viewform");
    ParseWithoutMarker("https://docs.google.com/forms/viewform", parts);
  }

  lemma ViewformPathValid(parts: UrlParts)
    requires parts == UrlParts("docs.google.com", "/forms/viewform", [])
    ensures IsValidFormUrl(Some(parts))
  {
    var path := parts.pathname;
    assert OccursAt(parts.hostname, "docs.google.com", 0);
    assert OccursAt(path, "/forms/", 0);
    assert path[6..] == "/viewform";
    assert OccursAt(path, "/viewform", 6);
  }

  /** On every standard link the pre-check and `parseUrl` agree: the link
      passes the pre-check and parses, with form id `e`. */
  lemma StandardLinkValid(url: string, id: string, last: string, query: seq<(string, string)>)
    requires Contains(url, FormsHost) && '/' !in id
    requires last == "viewform" || last == "formResponse"
    ensures var parts := UrlParts("docs.google.com", "/forms/d/e/" + id + "/" + last, query);
      && IsValidFormUrl(Some(parts))
      && ParseUrl(url, Some(parts)).Ok?
      && ParseUrl(url, Some(parts)).value.formId == "e"
  {
    StandardPathFormId(id, last);
    StandardHostValid();
    StandardPathValid(id, last);
  }

  lemma StandardHostValid()
    ensures Contains("docs.google.com", "docs.google.com")
  {
    assert OccursAt("docs.google.com", "docs.google.com", 0);
  }

  lemma StandardPathValid(id: string, last: string)
    requires last == "viewform" || last == "formResponse"
    ensures var path := "/forms/d/e/" + id + "/" + last;
      && Contains(path, "/forms/")
      && (Contains(path, "/viewform") || Contains(path, "/formResponse"))
  {
    var head := "/forms/d/e/" + id;
    var path := head + "/" + last;
    assert path == "/forms/" + ("d/e/" + id + "/" + last);
    ContainsFront("/forms/", "d/e/" + id + "/" + last);
    SeqAssoc(head, "/", last);
    assert path == head + ("/" + last) + "";
    ContainsMiddle(head, "/" + last, "");
    LastSegmentSuffix(last);
  }

  lemma LastSegmentSuffix(last: string)
    requires last == "viewform" || last == "formResponse"
    ensures last == "viewform" ==> "/" + last == "/viewform"
    ensures last == "formResponse" ==> "/" + last == "/formResponse"
  {
  }

  /** Nor does `parseUrl` imply the pre-check: a link on another host that
      mentions the forms host in its query parses, taking the segment after
      its `e` as the form id, and fails the pre-check. */
  lemma ForeignHostParses()
    ensures var parts := UrlParts("example.com", "/e/abc", [("next", FormsHost)]);
      && !IsValidFormUrl(Some(parts))
      && ParseUrl("https://example.com/e/abc?next=" + FormsHost, Some(parts)).Ok?
      && ParseUrl("https://example.com/e/abc?next=" + FormsHost, Some(parts)).value.formId == "abc"
  {
    var url := "https://example.com/e/abc?next=" + FormsHost;
    assert url == "https://example.com/e/abc?next=" + FormsHost + "";
    ContainsMiddle("https://example.com/e/abc?next=", FormsHost, "");
    ForeignPathId("/e/abc");
  }

  lemma ForeignPathId(path: string)
    requires path == "/e/abc"
    ensures ScanFormId(Split(path, '/')) == "abc"
  {
    var segments := ["", "e", "abc"];
    JoinCons("e", ["abc"], "/");
    JoinCons("", ["e", "abc"], "/");
    assert Join(segments, "/") == path;
    SplitUnique(path, '/', segments);
    assert !IsMarkerAt(segments, 0) && IsMarkerAt(segments, 1);
  }

  lemma MentionsHost(url: string)
    requires url == "https://docs.google.com/forms/viewform"
    ensures Contains(url, FormsHost)
  {
    assert url == "https://" + FormsHost + "/viewform";
    ContainsMiddle("https://", FormsHost, "/viewform");
  }

  /** A link that mentions the forms host but whose path has no marker is
      parsed and then rejected for its missing form id. */
  lemma ParseWithoutMarker(url: string, parts: UrlParts)
    requires Contains(url, FormsHost) && ScanFormId(Split(parts.pathname, '/')) == ""
    ensures ParseUrl(url, Some(parts)) == Err(MissingFormId)
  {
  }

  lemma NoMarkerPath(path: string)
    requires path == "/forms/viewform"
    ensures ScanFormId(Split(path, '/')) == ""
  {
    var segments := ["", "forms", "viewform"];
    JoinCons("forms", ["viewform"], "/");
    JoinCons("", ["forms", "viewform"], "/");
    assert Join(segments, "/") == path;
    SplitUnique(path, '/', segments);
    assert !IsMarkerAt(segments, 0) && !IsMarkerAt(segments, 1) && !IsMarkerAt(segments, 2);
  }

  predicate IsSeparator(c: char) {
    c == '-' || c == '_'
  }

  /** `replace(/[-_]/g, ' ')` */
  function ReplaceSeparators(t: string): (s: string)
    ensures |s| == |t|
    ensures forall i :: 0 <= i < |t| ==> s[i] == if IsSeparator(t[i]) then ' ' else t[i]
  {
    if |t| == 0 then ""
    else [if IsSeparator(t[0]) then ' ' else t[0]] + ReplaceSeparators(t[1..])
  }

  /** `replace(/\b\w/g, c => c.toUpperCase())` on `s`, where `prevIsWord`
      tells whether a word character stands just before `s`. A word
      character is at a boundary exactly when no word character precedes
      it. */
  function CapitalizeWords(s: string, prevIsWord: bool): (r: string)
    ensures |r| == |s|
    ensures forall i :: 0 <= i < |s| ==> r[i] == CapitalizedAt(s, prevIsWord, i)
  {
    if |s| == 0 then ""
    else
      var rest := CapitalizeWords(s[1..], IsWordChar(s[0]));
      var r := [CapitalizedAt(s, prevIsWord, 0)] + rest;
      CapitalizeStep(s, prevIsWord, rest, r);
      r
  }

  /** Character `i` of `s` after the boundary rule: upper-cased when it is a
      word character that no word character precedes. */
  function CapitalizedAt(s: string, prevIsWord: bool, i: nat): char
    requires i < |s|
  {
    var atBoundary := if i == 0 then !prevIsWord else !IsWordChar(s[i - 1]);
    if IsWordChar(s[i]) && atBoundary then ToUpper(s[i]) else s[i]
  }

  lemma CapitalizeStep(s: string, prevIsWord: bool, rest: string, r: string)
    requires |s| > 0 && |rest| == |s| - 1
    requires forall i :: 0 <= i < |rest| ==> rest[i] == CapitalizedAt(s[1..], IsWordChar(s[0]), i)
    requires r == [CapitalizedAt(s, prevIsWord, 0)] + rest
    ensures forall i :: 0 <= i < |s| ==> r[i] == CapitalizedAt(s, prevIsWord, i)
  {
    forall i | 1 <= i < |s|
      ensures r[i] == CapitalizedAt(s, prevIsWord, i)
    {
      assert r[i] == rest[i - 1];
      assert s[i] == s[1..][i - 1];
      if i >= 2 {
        assert s[i - 1] == s[1..][i - 2];
      }
    }
  }

  /** Character `i` of `t` starts a word once separators are spaces. */
  predicate StartsWord(t: string, i: nat)
    requires i < |t|
  {
    i == 0 || !IsWordChar(t[i - 1]) || t[i - 1] == '_'
  }

  /** `formatTitle`: separators become spaces and the first character of
      every word is upper-cased; nothing else changes and the length is
      kept. */
  function FormatTitle(t: string): (r: string)
    ensures |r| == |t|
    ensures forall i :: 0 <= i < |t| ==> r[i] != '-' && r[i] != '_'
    ensures forall i :: 0 <= i < |t| ==>
      r[i] == if IsSeparator(t[i]) then ' ' else if StartsWord(t, i) then ToUpper(t[i]) else t[i]
  {
    var s := ReplaceSeparators(t);
    var r := CapitalizeWords(s, false);
    FormatTitlePointwise(t, s, r);
    r
  }

  lemma FormatTitlePointwise(t: string, s: string, r: string)
    requires s == ReplaceSeparators(t) && r == CapitalizeWords(s, false)
    ensures forall i :: 0 <= i < |t| ==>
      r[i] == if IsSeparator(t[i]) then ' ' else if StartsWord(t, i) then ToUpper(t[i]) else t[i]
  {
    forall i | 0 <= i < |t|
      ensures r[i] == if IsSeparator(t[i]) then ' ' else if StartsWord(t, i) then ToUpper(t[i]) else t[i]
    {
      FormatTitleAt(t, s, r[i], i);
    }
  }

  lemma FormatTitleAt(t: string, s: string, c: char, i: nat)
    requires |s| == |t| && i < |t|
    requires forall j :: 0 <= j < |t| ==> s[j] == if IsSeparator(t[j]) then ' ' else t[j]
    requires c == CapitalizedAt(s, false, i)
    ensures c == if IsSeparator(t[i]) then ' ' else if StartsWord(t, i) then ToUpper(t[i]) else t[i]
  {
    ToUpperFacts(t[i]);
    assert s[i] == if IsSeparator(t[i]) then ' ' else t[i];
    if i > 0 {
      assert s[i - 1] == if IsSeparator(t[i - 1]) then ' ' else t[i - 1];
      assert !IsWordChar(s[i - 1]) <==> StartsWord(t, i);
    }
  }

  /** Formatting a formatted title changes nothing. */
  lemma FormatTitleIdempotent(t: string)
    ensures FormatTitle(FormatTitle(t)) == FormatTitle(t)
  {
    var r := FormatTitle(t);
    var r2 := FormatTitle(r);
    forall i | 0 <= i < |t|
      ensures r2[i] == r[i]
    {
      ToUpperFacts(t[i]);
      if i > 0 {
        ToUpperFacts(t[i - 1]);
        assert StartsWord(r, i) <==> StartsWord(t, i);
      }
    }
  }

  /** A `forms` segment whose second successor can serve as a title. */
  predicate IsTitleSlot(parts: seq<string>, i: nat) {
    && i + 2 < |parts|
    && parts[i] == "forms"
    && parts[i + 2] != ""
    && parts[i + 2] != "viewform"
    && parts[i + 2] != "formResponse"
  }

  function TitleSlot(parts: seq<string>): (m: Option<nat>)
    ensures m.Some? ==> IsTitleSlot(parts, m.value)
    ensures m.Some? ==> forall j :: 0 <= j < m.value ==> !IsTitleSlot(parts, j)
    ensures m.None? ==> forall j :: 0 <= j < |parts| ==> !IsTitleSlot(parts, j)
  {
    var q := (j: nat) => IsTitleSlot(parts, j);
    var k := FirstFrom(|parts|, q, 0);
    assert forall j: nat :: j < k ==> !q(j) && q(j) == IsTitleSlot(parts, j);
    assert k < |parts| ==> q(k) && q(k) == IsTitleSlot(parts, k);
    if k < |parts| then Some(k) else None
  }

  const CustomFormTitle: string := "Custom Form"
  const GoogleFormTitlePrefix: string := "Google Form "

  /** `extractFormTitle`: the formatted segment two after the leftmost
      usable `forms` segment; failing that, the generic title with the first
      eight characters of the form id; `Custom Form` when the URL does not
      parse or has no form id. */
  function ExtractFormTitle(url: string, parsed: Option<UrlParts>): (title: string)
    ensures parsed.None? ==> title == CustomFormTitle
    ensures parsed.Some? ==>
      var parts := Split(parsed.value.pathname, '/');
      match TitleSlot(parts)
      case Some(k) => title == FormatTitle(parts[k + 2])
      case None =>
        match ParseUrl(url, parsed)
        case Ok(schema) => title == GoogleFormTitlePrefix + Take(schema.formId, 8)
        case Err(_) => title == CustomFormTitle
  {
    match parsed
    case None => CustomFormTitle
    case Some(u) =>
      var parts := Split(u.pathname, '/');
      match TitleSlot(parts)
      case Some(k) => FormatTitle(parts[k + 2])
      case None =>
        match ParseUrl(url, parsed)
        case Ok(schema) => GoogleFormTitlePrefix + Take(schema.formId, 8)
        case Err(_) => CustomFormTitle
  }

  /** The title is never empty; a slot title has no separators left, and
      the fallback title is the generic prefix and at most eight
      characters of the form id. */
  lemma ExtractFormTitleShape(url: string, parsed: Option<UrlParts>)
    ensures ExtractFormTitle(url, parsed) != ""
    ensures parsed.Some? && TitleSlot(Split(parsed.value.pathname, '/')).Some? ==>
      forall i :: 0 <= i < |ExtractFormTitle(url, parsed)| ==>
        ExtractFormTitle(url, parsed)[i] != '-' && ExtractFormTitle(url, parsed)[i] != '_'
    ensures parsed.Some? && TitleSlot(Split(parsed.value.pathname, '/')).None? && ParseUrl(url, parsed).Ok? ==>
      && IsPrefix(GoogleFormTitlePrefix, ExtractFormTitle(url, parsed))
      && |ExtractFormTitle(url, parsed)| <= |GoogleFormTitlePrefix| + 8
  {
    var title := ExtractFormTitle(url, parsed);
    if parsed.Some? {
      var parts := Split(parsed.value.pathname, '/');
      match TitleSlot(parts)
      case Some(k) =>
        assert |title| == |parts[k + 2]| > 0;
      case None =>
        if ParseUrl(url, parsed).Ok? {
          var id := ParseUrl(url, parsed).value.formId;
          assert title == GoogleFormTitlePrefix + Take(id, 8);
          assert title[..|GoogleFormTitlePrefix|] == GoogleFormTitlePrefix;
        }
    }
  }

  /** For a standard prefill link the title slot holds the `e` marker, so
      the extracted title is `E`. */
  lemma PrefillLinkTitle(url: string, id: string, query: seq<(string, string)>)
    requires '/' !in id
    ensures ExtractFormTitle(url, Some(UrlParts("docs.google.com", "/forms/d/e/" + id + "/viewform", query))) == "E"
  {
    StandardPathSegments(id, "viewform");
    assert "/forms/d/e/" + id + "/viewform" == "/forms/d/e/" + id + "/" + "viewform";
    var parts := ["", "forms", "d", "e", id, "viewform"];
    assert !IsTitleSlot(parts, 0) && IsTitleSlot(parts, 1);
    var r := FormatTitle("e");
    assert StartsWord("e", 0);
    assert r == "E";
  }
}
