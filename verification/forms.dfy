/** The form schema both parsing modes of js/parser.js produce, the
    submission endpoint built from a form id, the path scan that finds the
    form id, and the first-match-wins cascade every fallback chain uses. */
module Forms {
  import opened Outcomes
  import opened Text

  /** One choice of a radio or checkbox question. */
  datatype Choice = Choice(labelText: string, value: string)

  /** A form field. `labelText`, `required` and `options` are `None` where the
      source leaves the property undefined. */
  datatype Field = Field(
    id: string,
    name: string,
    value: string,
    labelText: Option<string>,
    fieldType: string,
    required: Option<bool>,
    options: Option<seq<Choice>>)

  datatype FormSchema = FormSchema(
    formId: string,
    formActionUrl: string,
    fields: seq<Field>,
    title: Option<string>)

  /** The reasons a parse throws. */
  datatype ParseError =
    | InvalidInput      // the input does not mention the forms host
    | MalformedUrl      // the browser's URL parser rejects the URL
    | NoFormUrl         // no candidate URL in the document
    | MissingFormId     // no form id after every fallback

  /** The substring both parsers require of their input. */
  const FormsHost: string := "docs.google.com/forms"

  /** The submission-name prefix of a form entry. */
  const EntryPrefix: string := "entry."

  const ActionPrefix: string := "https://docs.google.com/forms/d/e/"
  const ActionSuffix: string := "/formResponse"

  /** The submission endpoint of a form: the form id between a fixed prefix
      and a fixed suffix. */
  function ActionUrl(formId: string): (url: string)
    ensures |url| == |ActionPrefix| + |formId| + |ActionSuffix|
    ensures IsPrefix(ActionPrefix, url)
    ensures url[|ActionPrefix|..|ActionPrefix| + |formId|] == formId
    ensures url[|ActionPrefix| + |formId|..] == ActionSuffix
  {
    ActionPrefix + formId + ActionSuffix
  }

  /** The form id can be read back from its endpoint. */
  lemma ActionUrlInjective(a: string, b: string)
    requires ActionUrl(a) == ActionUrl(b)
    ensures a == b
  {
    var u := ActionUrl(a);
    assert |a| == |b|;
    assert a == u[|ActionPrefix|..|ActionPrefix| + |a|] == b;
  }

  lemma ActionUrlOfE()
    ensures ActionUrl("e") == "https://docs.google.com/forms/d/e/e/formResponse"
  {
  }

  /** The least `k` in `[i, n]` with `p(k)`, or `n` when there is none: the
      first-match-wins loop with an early `break`. */
  function FirstFrom(n: nat, p: nat -> bool, i: nat): (k: nat)
    requires i <= n
    ensures i <= k <= n
    ensures forall j :: i <= j < k ==> !p(j)
    ensures k < n ==> p(k)
    decreases n - i
  {
    if i == n then n else if p(i) then i else FirstFrom(n, p, i + 1)
  }

  /** The index of the first element of `xs` satisfying `p`, or `|xs|`. */
  function First<T>(xs: seq<T>, p: T -> bool): (k: nat)
    ensures k <= |xs|
    ensures forall j :: 0 <= j < k ==> !p(xs[j])
    ensures k < |xs| ==> p(xs[k])
  {
    var q := (j: nat) => j < |xs| && p(xs[j]);
    var k := FirstFrom(|xs|, q, 0);
    assert forall j: nat :: j < k ==> !q(j) && q(j) == (j < |xs| && p(xs[j]));
    assert k < |xs| ==> q(k) && q(k) == p(xs[k]);
    k
  }

  /** Path segment `i` is `e` or `d` and another segment follows it. */
  predicate IsMarkerAt(parts: seq<string>, i: nat) {
    i + 1 < |parts| && (parts[i] == "e" || parts[i] == "d")
  }

  /** The leftmost marker segment, scanning left to right; `e` and `d` are
      tried at each position, so whichever comes first wins. */
  function MarkerIndex(parts: seq<string>): (m: Option<nat>)
    ensures m.Some? ==> IsMarkerAt(parts, m.value)
    ensures m.Some? ==> forall j :: 0 <= j < m.value ==> !IsMarkerAt(parts, j)
    ensures m.None? ==> forall j :: 0 <= j < |parts| ==> !IsMarkerAt(parts, j)
  {
    var q := (j: nat) => IsMarkerAt(parts, j);
    var k := FirstFrom(|parts|, q, 0);
    assert forall j: nat :: j < k ==> !q(j) && q(j) == IsMarkerAt(parts, j);
    assert k < |parts| ==> q(k) && q(k) == IsMarkerAt(parts, k);
    if k < |parts| then Some(k) else None
  }

  /** The form id a path names: the segment after the leftmost marker, or
      the empty string (the source's "not found") when there is no marker. */
  function ScanFormId(parts: seq<string>): (formId: string)
    ensures formId != "" ==> MarkerIndex(parts).Some?
    ensures MarkerIndex(parts).Some? ==> formId == parts[MarkerIndex(parts).value + 1]
  {
    match MarkerIndex(parts)
    case Some(k) => parts[k + 1]
    case None => ""
  }

  /** A `d` segment directly followed by `e` is itself the leftmost marker,
      so for the usual `/forms/d/e/<id>/viewform` path the scan yields `e`
      and not the id. */
  lemma DMarkerShadowsE(before: seq<string>, after: seq<string>)
    requires forall j :: 0 <= j < |before| ==> before[j] != "e" && before[j] != "d"
    ensures ScanFormId(before + ["d", "e"] + after) == "e"
  {
    var parts := before + ["d", "e"] + after;
    assert IsMarkerAt(parts, |before|);
    forall j | 0 <= j < |before|
      ensures !IsMarkerAt(parts, j)
    {
      assert parts[j] == before[j];
    }
    var m := MarkerIndex(parts);
    assert m == Some(|before|);
  }

  /** The path of a standard form link splits into its six segments. */
  lemma StandardPathSegments(id: string, last: string)
    requires '/' !in id && '/' !in last
    ensures Split("/forms/d/e/" + id + "/" + last, '/') == ["", "forms", "d", "e", id, last]
    ensures Split("/forms/d/e/" + id + "/" + last, '/') == ["", "forms"] + ["d", "e"] + [id, last]
  {
    var parts := ["", "forms", "d", "e", id, last];
    StandardPathJoin(id, last);
    SplitUnique("/forms/d/e/" + id + "/" + last, '/', parts);
    assert ["", "forms"] + ["d", "e"] + [id, last] == parts;
  }

  lemma StandardPathJoin(id: string, last: string)
    ensures Join(["", "forms", "d", "e", id, last], "/") == "/forms/d/e/" + id + "/" + last
  {
    JoinCons(id, [last], "/");
    JoinCons("e", [id, last], "/");
    JoinCons("d", ["e", id, last], "/");
    JoinCons("forms", ["d", "e", id, last], "/");
    JoinCons("", ["forms", "d", "e", id, last], "/");
  }

  /** On a standard `/forms/d/e/<id>/<last>` path the `d` segment is the
      leftmost marker, so the scan yields `e` whatever `<id>` is. */
  lemma StandardPathFormId(id: string, last: string)
    requires '/' !in id && '/' !in last
    ensures ScanFormId(Split("/forms/d/e/" + id + "/" + last, '/')) == "e"
  {
    StandardPathSegments(id, last);
    DMarkerShadowsE(["", "forms"], [id, last]);
  }
}
