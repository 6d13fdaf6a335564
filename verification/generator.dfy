/** `FormGenerator` of js/generator.js: the three artifacts of a custom form
    (document, stylesheet, submission script) composed from fixed templates
    and a form schema. */
module Generator {
  import opened Outcomes
  import opened Text
  import opened Forms
  import opened Colors
  import opened Templates

  // ---------------------------------------------------------------------
  // Labels

  /** `replace(/([A-Z])/g, ' $1')`: a space before every ASCII capital. */
  function SpaceCapitals(s: string): (r: string)
    ensures |r| >= |s|
  {
    if |s| == 0 then ""
    else (if IsAsciiUpper(s[0]) then [' ', s[0]] else [s[0]]) + SpaceCapitals(s[1..])
  }

  /** Every capital of the result has a space in front of it; the result is
      blank exactly when the input is; the first character is kept, or
      preceded by a space when it is a capital. */
  lemma {:induction false} SpaceCapitalsFacts(s: string)
    ensures var r := SpaceCapitals(s);
      forall i :: 0 <= i < |r| && IsAsciiUpper(r[i]) ==> i > 0 && r[i - 1] == ' '
    ensures IsBlank(SpaceCapitals(s)) <==> IsBlank(s)
    ensures |s| > 0 && !IsAsciiUpper(s[0]) ==> SpaceCapitals(s)[0] == s[0]
    ensures |s| > 0 && IsAsciiUpper(s[0]) ==> SpaceCapitals(s)[..2] == [' ', s[0]]
    decreases |s|
  {
    if |s| > 0 {
      SpaceCapitalsFacts(s[1..]);
      var head := if IsAsciiUpper(s[0]) then [' ', s[0]] else [s[0]];
      SpaceCapitalsStep(s, head, SpaceCapitals(s[1..]));
    }
  }

  lemma SpaceCapitalsStep(s: string, head: string, rest: string)
    requires |s| > 0
    requires head == if IsAsciiUpper(s[0]) then [' ', s[0]] else [s[0]]
    requires forall i :: 0 <= i < |rest| && IsAsciiUpper(rest[i]) ==> i > 0 && rest[i - 1] == ' '
    requires IsBlank(rest) <==> IsBlank(s[1..])
    ensures forall i :: 0 <= i < |head + rest| && IsAsciiUpper((head + rest)[i]) ==> i > 0 && (head + rest)[i - 1] == ' '
    ensures IsBlank(head + rest) <==> IsBlank(s)
  {
    var r := head + rest;
    forall i | 0 <= i < |r| && IsAsciiUpper(r[i])
      ensures i > 0 && r[i - 1] == ' '
    {
      if i >= |head| {
        assert r[i] == rest[i - |head|];
        if i - |head| > 0 {
          assert r[i - 1] == rest[i - |head| - 1];
        }
      }
    }
    if IsBlank(s) {
      assert forall i :: 0 <= i < |s| - 1 ==> s[1..][i] == s[i + 1];
    }
    if IsBlank(r) {
      assert forall i :: 0 <= i < |rest| ==> rest[i] == r[i + |head|];
      assert IsSpace(s[0]) by { assert r[|head| - 1] == s[0]; }
      forall i | 0 <= i < |s|
        ensures IsSpace(s[i])
      {
        if i > 0 {
          assert s[i] == s[1..][i - 1];
        }
      }
    }
  }

  /** Removes the space in front of every ASCII capital: the reference
      inverse of `SpaceCapitals`. */
  function Unspace(r: string): string
    decreases |r|
  {
    if |r| == 0 then ""
    else if |r| >= 2 && r[0] == ' ' && IsAsciiUpper(r[1]) then [r[1]] + Unspace(r[2..])
    else [r[0]] + Unspace(r[1..])
  }

  /** Inserting the spaces loses nothing: removing them restores the
      input. */
  lemma {:induction false} UnspaceSpaceCapitals(s: string)
    ensures Unspace(SpaceCapitals(s)) == s
    decreases |s|
  {
    if |s| > 0 {
      var rest := SpaceCapitals(s[1..]);
      UnspaceSpaceCapitals(s[1..]);
      if IsAsciiUpper(s[0]) {
        assert SpaceCapitals(s)[2..] == rest;
      } else {
        assert SpaceCapitals(s)[1..] == rest;
        if |rest| > 0 {
          assert !IsAsciiUpper(rest[0]);
        }
      }
      assert s == [s[0]] + s[1..];
    }
  }

  /** The characters `.` does not match. */
  predicate IsLineTerminator(c: char) {
    c == '\n' || c == '\r' || c == '\U{2028}' || c == '\U{2029}'
  }

  /** `replace(/^./, c => c.toUpperCase())`. */
  function UpperFirst(s: string): (r: string)
    ensures |r| == |s|
    ensures |s| > 0 ==> r[1..] == s[1..]
    ensures |s| > 0 && !IsLineTerminator(s[0]) ==> r[0] == ToUpper(s[0])
    ensures |s| > 0 && IsLineTerminator(s[0]) ==> r[0] == s[0]
    ensures IsBlank(r) <==> IsBlank(s)
  {
    if |s| == 0 || IsLineTerminator(s[0]) then s
    else
      var r := [ToUpper(s[0])] + s[1..];
      assert forall i :: 1 <= i < |s| ==> r[i] == s[i];
      r
  }

  /** `formatLabel`: a space before each capital, the first character
      upper-cased, then trimmed. */
  function FormatLabel(s: string): (r: string)
    ensures r == "" <==> IsBlank(s)
    ensures |r| > 0 ==> !IsSpace(r[0]) && !IsSpace(r[|r| - 1])
    ensures forall i :: 0 < i < |r| && IsAsciiUpper(r[i]) ==> r[i - 1] == ' '
  {
    var spaced := SpaceCapitals(s);
    SpaceCapitalsFacts(s);
    var u := UpperFirst(spaced);
    var r := Trim(u);
    FormatLabelCapitals(spaced, u, r);
    r
  }

  /** Spaces inserted before capitals, the first letter's case: for a value
      without white space at either end nothing else separates the label
      from it. */
  lemma FormatLabelContent(s: string)
    ensures |s| > 0 && !IsSpace(s[0]) && !IsSpace(s[|s| - 1]) ==>
      Unspace(FormatLabel(s)) == [ToUpper(s[0])] + s[1..]
  {
    var spaced := SpaceCapitals(s);
    var u := UpperFirst(spaced);
    FormatLabelUnfold(s, spaced, u);
    FormatLabelText(s, spaced, u, FormatLabel(s));
  }

  lemma FormatLabelText(s: string, spaced: string, u: string, r: string)
    requires spaced == SpaceCapitals(s) && u == UpperFirst(spaced) && r == Trim(u)
    ensures |s| > 0 && !IsSpace(s[0]) && !IsSpace(s[|s| - 1]) ==> Unspace(r) == [ToUpper(s[0])] + s[1..]
  {
    if |s| > 0 && !IsSpace(s[0]) && !IsSpace(s[|s| - 1]) {
      SpaceCapitalsLast(s);
      UnspaceSpaceCapitals(s[1..]);
      var rest := SpaceCapitals(s[1..]);
      assert spaced == (if IsAsciiUpper(s[0]) then [' ', s[0]] else [s[0]]) + rest;
      if IsAsciiUpper(s[0]) {
        CapitalLabelText(s[0], rest, spaced, u, r);
      } else {
        PlainLabelText(s[0], rest, spaced, u, r);
      }
    }
  }

  /** A leading capital: its inserted space is trimmed off again. */
  lemma CapitalLabelText(c: char, rest: string, spaced: string, u: string, r: string)
    requires IsAsciiUpper(c) && spaced == [' ', c] + rest && !IsSpace(spaced[|spaced| - 1])
    requires u == UpperFirst(spaced) && r == Trim(u)
    ensures Unspace(r) == [c] + Unspace(rest)
  {
    assert u == spaced;
    TrimSpaceFirst(c, rest);
    UnspaceCons(c, rest);
  }

  lemma TrimSpaceFirst(c: char, rest: string)
    requires !IsSpace(c) && !IsSpace(([' ', c] + rest)[|rest| + 1])
    ensures Trim([' ', c] + rest) == [c] + rest
  {
    var u := [' ', c] + rest;
    DropFirst(' ', c, rest);
    assert IsBlank(u[..1]);
    TrimLeading(u, 1);
  }

  lemma DropFirst<T>(x: T, y: T, t: seq<T>)
    ensures ([x, y] + t)[1..] == [y] + t
  {
  }

  /** Any other first character: only its case changes. */
  lemma PlainLabelText(c: char, rest: string, spaced: string, u: string, r: string)
    requires !IsAsciiUpper(c) && !IsSpace(c) && spaced == [c] + rest && !IsSpace(spaced[|spaced| - 1])
    requires u == UpperFirst(spaced) && r == Trim(u)
    ensures Unspace(r) == [ToUpper(c)] + Unspace(rest)
  {
    assert u == [ToUpper(c)] + rest;
    assert !IsSpace(u[0]);
    assert IsBlank(u[..0]);
    TrimLeading(u, 0);
    UnspaceCons(ToUpper(c), rest);
  }

  /** The last character of the spaced text is the last of the input. */
  lemma {:induction false} SpaceCapitalsLast(s: string)
    requires |s| > 0
    ensures |SpaceCapitals(s)| > 0 && SpaceCapitals(s)[|SpaceCapitals(s)| - 1] == s[|s| - 1]
    decreases |s|
  {
    var head := if IsAsciiUpper(s[0]) then [' ', s[0]] else [s[0]];
    assert SpaceCapitals(s) == head + SpaceCapitals(s[1..]);
    if |s| > 1 {
      SpaceCapitalsLast(s[1..]);
    }
  }

  lemma UnspaceCons(x: char, t: string)
    requires x != ' '
    ensures Unspace([x] + t) == [x] + Unspace(t)
  {
    assert ([x] + t)[1..] == t;
  }

  lemma FormatLabelCapitals(spaced: string, u: string, r: string)
    requires forall i :: 0 <= i < |spaced| && IsAsciiUpper(spaced[i]) ==> i > 0 && spaced[i - 1] == ' '
    requires u == UpperFirst(spaced) && r == Trim(u)
    ensures forall i :: 0 < i < |r| && IsAsciiUpper(r[i]) ==> r[i - 1] == ' '
  {
    var t := TrimStart(u);
    var a := |u| - |t|;
    assert r == TrimEnd(t);
    forall i | 0 < i < |r| && IsAsciiUpper(r[i])
      ensures r[i - 1] == ' '
    {
      assert r[i] == t[i] == u[a + i];
      assert r[i - 1] == t[i - 1] == u[a + i - 1];
      assert u[a + i] == spaced[a + i];
      if a + i - 1 > 0 {
        assert u[a + i - 1] == spaced[a + i - 1];
      } else {
        assert false;
      }
    }
  }

  /** A value that does not start with white space gives a label that
      starts with its first character upper-cased. */
  lemma FormatLabelFirst(s: string)
    requires |s| > 0 && !IsSpace(s[0])
    ensures |FormatLabel(s)| > 0 && FormatLabel(s)[0] == ToUpper(s[0])
  {
    var spaced := SpaceCapitals(s);
    SpaceCapitalsFacts(s);
    var u := UpperFirst(spaced);
    ToUpperFacts(s[0]);
    if IsAsciiUpper(s[0]) {
      assert u[0] == ' ' && u[1] == s[0];
      assert IsBlank(u[..1]);
      TrimFirst(u, 1);
    } else {
      assert IsBlank(u[..0]);
      TrimFirst(u, 0);
    }
  }

  /** Upper-casing happens before trimming, so a value with leading white
      space keeps its first letter's case. */
  lemma FormatLabelLeadingSpace(c: char)
    requires IsAsciiLower(c)
    ensures FormatLabel([' ', c]) == [c]
  {
    var u := UpperFirst(SpaceCapitals([' ', c]));
    assert SpaceCapitals([' ', c]) == [' ', c] by {
      assert [' ', c][1..] == [c];
      assert SpaceCapitals([c]) == [c] by { assert [c][1..] == []; }
    }
    assert u == [' ', c];
    assert IsBlank(u[..1]);
    TrimFirst(u, 1);
    assert TrimStart(u) == [c];
  }

  /** No character of the string is an ASCII letter other than a lower-case
      one: such a string has no capitals and no white space. */
  predicate IsLowerWord(s: string) {
    forall i :: 0 <= i < |s| ==> IsAsciiLower(s[i])
  }

  /** A camel-case pair of words, `helloWorld`, becomes `Hello World`. */
  lemma CamelCase(a: string, c: char, b: string)
    requires |a| > 0 && IsLowerWord(a) && IsLowerWord(b) && IsAsciiUpper(c)
    ensures var r := FormatLabel(a + [c] + b);
      |r| > 0 && r[0] == ToUpper(a[0]) && r[1..] == a[1..] + [' ', c] + b
  {
    var u := [ToUpper(a[0])] + (a[1..] + [' ', c] + b);
    CamelSpaced(a, c, b);
    CamelUpper(a, c, b);
    CamelTrim(a, c, b);
    FormatLabelUnfold(a + [c] + b, a + [' ', c] + b, u);
    assert u[1..] == a[1..] + [' ', c] + b;
  }

  lemma CamelUpper(a: string, c: char, b: string)
    requires |a| > 0 && IsLowerWord(a)
    ensures UpperFirst(a + [' ', c] + b) == [ToUpper(a[0])] + (a[1..] + [' ', c] + b)
  {
    var tail := a[1..] + [' ', c] + b;
    assert a + [' ', c] + b == [a[0]] + tail;
    UpperFirstCons(a[0], tail);
  }

  lemma CamelTrim(a: string, c: char, b: string)
    requires |a| > 0 && IsLowerWord(a) && IsLowerWord(b) && IsAsciiUpper(c)
    ensures var u := [ToUpper(a[0])] + (a[1..] + [' ', c] + b); Trim(u) == u
  {
    var u := [ToUpper(a[0])] + (a[1..] + [' ', c] + b);
    assert !IsSpace(u[0]) by { ToUpperFacts(a[0]); }
    assert !IsSpace(u[|u| - 1]) by {
      if |b| > 0 { assert u[|u| - 1] == b[|b| - 1]; } else { assert u[|u| - 1] == c; }
    }
    TrimUnchanged(u);
  }

  lemma TrimUnchanged(u: string)
    requires |u| > 0 && !IsSpace(u[0]) && !IsSpace(u[|u| - 1])
    ensures Trim(u) == u
  {
    assert IsBlank(u[..0]);
    TrimLeading(u, 0);
    assert u[0..] == u;
  }

  lemma CamelSpaced(a: string, c: char, b: string)
    requires IsLowerWord(a) && IsLowerWord(b) && IsAsciiUpper(c)
    ensures SpaceCapitals(a + [c] + b) == a + [' ', c] + b
  {
    assert a + [c] + b == a + ([c] + b);
    SpaceCapitalsLower(a, [c] + b);
    SpaceCapitalsAt([c] + b);
    assert ([c] + b)[1..] == b;
    SpaceCapitalsLower(b, "");
    assert b + "" == b;
  }

  lemma UpperFirstCons(x: char, rest: string)
    requires !IsLineTerminator(x)
    ensures UpperFirst([x] + rest) == [ToUpper(x)] + rest
  {
    assert ([x] + rest)[1..] == rest;
  }

  /** `FormatLabel` is the trimmed result of its two rewrites. */
  lemma FormatLabelUnfold(s: string, spaced: string, u: string)
    requires SpaceCapitals(s) == spaced && UpperFirst(spaced) == u
    ensures FormatLabel(s) == Trim(u)
  {
  }

  /** A prefix without capitals is copied through unchanged. */
  lemma {:induction false} SpaceCapitalsLower(a: string, b: string)
    requires IsLowerWord(a)
    ensures SpaceCapitals(a + b) == a + SpaceCapitals(b)
    decreases |a|
  {
    if |a| > 0 {
      assert (a + b)[1..] == a[1..] + b;
      SpaceCapitalsLower(a[1..], b);
      assert [a[0]] + a[1..] == a;
    } else {
      assert a + b == b;
    }
  }

  lemma SpaceCapitalsAt(s: string)
    requires |s| > 0 && IsAsciiUpper(s[0])
    ensures SpaceCapitals(s) == [' ', s[0]] + SpaceCapitals(s[1..])
  {
  }

  /** Every letter of an all-capitals string gets a space in front. */
  lemma {:induction false} SpaceCapitalsAllUpper(s: string)
    requires forall i :: 0 <= i < |s| ==> IsAsciiUpper(s[i])
    ensures |SpaceCapitals(s)| == 2 * |s|
    ensures forall i :: 0 <= i < |s| ==> SpaceCapitals(s)[2 * i] == ' ' && SpaceCapitals(s)[2 * i + 1] == s[i]
    decreases |s|
  {
    if |s| > 0 {
      SpaceCapitalsAt(s);
      SpaceCapitalsAllUpper(s[1..]);
      var r := SpaceCapitals(s);
      forall i | 0 <= i < |s|
        ensures r[2 * i] == ' ' && r[2 * i + 1] == s[i]
      {
        if i > 0 {
          assert r[2 * i] == SpaceCapitals(s[1..])[2 * (i - 1)];
          assert r[2 * i + 1] == SpaceCapitals(s[1..])[2 * (i - 1) + 1];
          assert s[i] == s[1..][i - 1];
        }
      }
    }
  }

  /** An acronym, `ABC`, comes out with its letters spaced apart,
      `A B C`: the space in front of the first one is trimmed away. */
  lemma Acronym(s: string)
    requires |s| > 0 && forall i :: 0 <= i < |s| ==> IsAsciiUpper(s[i])
    ensures |FormatLabel(s)| == 2 * |s| - 1
    ensures forall i :: 0 <= i < |s| ==> FormatLabel(s)[2 * i] == s[i]
    ensures forall i :: 0 <= i < |s| - 1 ==> FormatLabel(s)[2 * i + 1] == ' '
  {
    var spaced := SpaceCapitals(s);
    SpaceCapitalsAllUpper(s);
    assert spaced[|spaced| - 1] == s[|s| - 1] by { assert |spaced| - 1 == 2 * (|s| - 1) + 1; }
    AcronymTrim(s, spaced);
    SpacedWithoutFirst(s, spaced);
  }

  lemma SpacedWithoutFirst(s: string, spaced: string)
    requires |s| > 0 && |spaced| == 2 * |s|
    requires forall i :: 0 <= i < |s| ==> spaced[2 * i] == ' ' && spaced[2 * i + 1] == s[i]
    ensures |spaced[1..]| == 2 * |s| - 1
    ensures forall i :: 0 <= i < |s| ==> spaced[1..][2 * i] == s[i]
    ensures forall i :: 0 <= i < |s| - 1 ==> spaced[1..][2 * i + 1] == ' '
  {
    var r := spaced[1..];
    forall i | 0 <= i < |s|
      ensures r[2 * i] == s[i]
    {
      assert r[2 * i] == spaced[2 * i + 1];
    }
    forall i | 0 <= i < |s| - 1
      ensures r[2 * i + 1] == ' '
    {
      assert r[2 * i + 1] == spaced[2 * (i + 1)];
    }
  }

  /** The label of an acronym is its spaced form without the first
      space. */
  lemma AcronymTrim(s: string, spaced: string)
    requires |s| > 0 && spaced == SpaceCapitals(s) && |spaced| == 2 * |s|
    requires spaced[0] == ' ' && spaced[1] == s[0] && IsAsciiUpper(s[0])
    requires spaced[|spaced| - 1] == s[|s| - 1] && IsAsciiUpper(s[|s| - 1])
    ensures FormatLabel(s) == spaced[1..]
  {
    UpperFirstSpace(spaced);
    FormatLabelUnfold(s, spaced, spaced);
    TrimOneSpace(spaced);
  }

  /** A leading space is left as it is by the upper-casing. */
  lemma UpperFirstSpace(u: string)
    requires |u| > 0 && u[0] == ' '
    ensures UpperFirst(u) == u
  {
    var r := UpperFirst(u);
    assert r[0] == ToUpper(' ') == ' ';
    assert r[1..] == u[1..];
  }

  lemma TrimOneSpace(u: string)
    requires |u| >= 2 && u[0] == ' ' && IsAsciiUpper(u[1]) && IsAsciiUpper(u[|u| - 1])
    ensures Trim(u) == u[1..]
  {
    assert IsBlank(u[..1]);
    TrimLeading(u, 1);
  }

  /** `generateFieldLabel`: the formatted value when it is non-empty and
      shorter than twenty characters, otherwise `Field <id>`. */
  function GenerateFieldLabel(f: Field): (r: string)
    ensures 0 < |f.value| < 20 ==> r == FormatLabel(f.value)
    ensures !(0 < |f.value| < 20) ==> r == "Field " + f.id && r != ""
  {
    if |f.value| > 0 && |f.value| < 20 then FormatLabel(f.value) else "Field " + f.id
  }

  /** The label a field is rendered with: its own when non-empty, else a
      generated one. It is empty only for a short blank value. */
  function FieldLabel(f: Field): (r: string)
    ensures f.labelText.Some? && f.labelText.value != "" ==> r == f.labelText.value
    ensures !(f.labelText.Some? && f.labelText.value != "") ==> r == GenerateFieldLabel(f)
    ensures r == "" <==> !(f.labelText.Some? && f.labelText.value != "") && 0 < |f.value| < 20 && IsBlank(f.value)
  {
    match f.labelText
    case Some(l) => if l != "" then l else GenerateFieldLabel(f)
    case None => GenerateFieldLabel(f)
  }

  // ---------------------------------------------------------------------
  // Field fragments

  /** The `id` attribute of a field's input. */
  function FieldDomId(f: Field): (id: string)
    ensures IsPrefix("field-", id) && id[|"field-"|..] == f.id
  {
    "field-" + f.id
  }

  /** The input type a field renders with: one of the four special types,
      and `text` for every other type. */
  function RenderedType(t: string): (r: string)
    ensures r in {"email", "url", "date", "number", "text"}
    ensures t in {"email", "url", "date", "number"} ==> r == t
    ensures t !in {"email", "url", "date", "number"} ==> r == "text"
  {
    if t == "email" || t == "url" || t == "date" || t == "number" then t else "text"
  }

  /** The placeholder of each branch of the type switch; date and number
      inputs have none. */
  function Placeholder(t: string): (p: Option<string>)
    ensures p.None? <==> t == "date" || t == "number"
  {
    if t == "email" then Some("Enter your email")
    else if t == "url" then Some("https://example.com")
    else if t == "date" || t == "number" then None
    else Some("Enter your response")
  }

  /** `name="value"`, interpolated without escaping. */
  function Attribute(name: string, v: string): string {
    name + "=\"" + v + "\""
  }

  /** The placeholder attribute on a line of its own, or nothing. */
  function PlaceholderLine(t: string): (line: string)
    ensures Placeholder(t).Some? ==> Contains(line, Attribute("placeholder", Placeholder(t).value))
  {
    match Placeholder(t)
    case Some(p) =>
      var pieces := ["            ", Attribute("placeholder", p), "\n"];
      ConcatContains(pieces, 1);
      Concat(pieces)
    case None => ""
  }

  /** The label element of a field, bound to its input by the input's id. */
  function LabelTag(f: Field): string {
    "<label for=\"" + FieldDomId(f) + "\">" + FieldLabel(f) + "</label>"
  }

  const FragmentOpen: string := "\n    <div class=\"form-group\">\n        "

  /** The markup of one field, as the type switch renders it: a form group
      holding the label and an input of the rendered type, with the
      field's name and value, that is always required. */
  function FieldFragment(f: Field): (html: string)
    ensures IsPrefix(FragmentOpen + LabelTag(f), html)
    ensures Contains(html, Attribute("type", RenderedType(f.fieldType)))
    ensures Contains(html, Attribute("id", FieldDomId(f)))
    ensures Contains(html, Attribute("name", f.name))
    ensures Contains(html, Attribute("value", f.value))
    ensures Contains(html, "required>\n    </div>")
    ensures Placeholder(RenderedType(f.fieldType)).Some? ==>
      Contains(html, Attribute("placeholder", Placeholder(RenderedType(f.fieldType)).value))
  {
    var t := RenderedType(f.fieldType);
    var pieces := [
      FragmentOpen + LabelTag(f), "\n        <input \n            ",
      Attribute("type", t), " \n            ",
      Attribute("id", FieldDomId(f)), " \n            ",
      Attribute("name", f.name), " \n",
      PlaceholderLine(t),
      "            ", Attribute("value", f.value), "\n            ",
      "required>\n    </div>"];
    FragmentFacts(pieces, t);
    Concat(pieces)
  }

  lemma FragmentFacts(pieces: seq<string>, t: string)
    requires |pieces| == 13
    ensures IsPrefix(pieces[0], Concat(pieces))
    ensures Contains(Concat(pieces), pieces[2]) && Contains(Concat(pieces), pieces[4])
    ensures Contains(Concat(pieces), pieces[6]) && Contains(Concat(pieces), pieces[10])
    ensures Contains(Concat(pieces), pieces[12])
    ensures Placeholder(t).Some? && pieces[8] == PlaceholderLine(t) ==>
      Contains(Concat(pieces), Attribute("placeholder", Placeholder(t).value))
  {
    ConcatContains(pieces, 0);
    ConcatContains(pieces, 2);
    ConcatContains(pieces, 4);
    ConcatContains(pieces, 6);
    ConcatContains(pieces, 10);
    ConcatContains(pieces, 12);
    if Placeholder(t).Some? && pieces[8] == PlaceholderLine(t) {
      ConcatContains(pieces, 8);
      ContainsTransitive(Concat(pieces), pieces[8], Attribute("placeholder", Placeholder(t).value));
    }
  }

  /** The markup depends only on the label, id, name, value and rendered
      type: whether the field is required and its options are not used. */
  lemma FragmentIgnoresRequiredAndOptions(f: Field, required: Option<bool>, options: Option<seq<Choice>>)
    ensures FieldFragment(f.(required := required, options := options)) == FieldFragment(f)
  {
    var f' := f.(required := required, options := options);
    assert FieldLabel(f') == FieldLabel(f);
  }

  /** Every type outside the four special ones renders as a text input. */
  lemma OtherTypesRenderAsText(f: Field)
    requires f.fieldType !in {"email", "url", "date", "number"}
    ensures FieldFragment(f) == FieldFragment(f.(fieldType := "text"))
  {
    assert RenderedType("text") == "text";
  }

  /** `fields.map(...).join('\n')`. */
  function Fragments(fields: seq<Field>): (fs: seq<string>)
    ensures |fs| == |fields|
    ensures forall i :: 0 <= i < |fields| ==> fs[i] == FieldFragment(fields[i])
  {
    if |fields| == 0 then [] else [FieldFragment(fields[0])] + Fragments(fields[1..])
  }

  lemma {:induction false} FragmentsAppend(xs: seq<Field>, ys: seq<Field>)
    ensures Fragments(xs + ys) == Fragments(xs) + Fragments(ys)
    decreases |xs|
  {
    if |xs| > 0 {
      assert (xs + ys)[1..] == xs[1..] + ys;
      FragmentsAppend(xs[1..], ys);
    } else {
      assert xs + ys == ys;
    }
  }

  /** The field block: the fragments joined by newlines. It is empty
      exactly when there are no fields, and opens with the first fragment. */
  function FieldsHtml(fields: seq<Field>): (html: string)
    ensures html == "" <==> fields == []
    ensures |fields| > 0 ==> IsPrefix(FieldFragment(fields[0]), html)
  {
    var fs := Fragments(fields);
    assert |fields| > 0 ==> IsPrefix(FragmentOpen + LabelTag(fields[0]), fs[0]);
    Join(fs, "\n")
  }

  /** The markup of a list of fields is the markup of its parts, separated
      by one newline; no fields give no markup. */
  lemma FieldsHtmlFacts(xs: seq<Field>, ys: seq<Field>)
    ensures FieldsHtml([]) == ""
    ensures |xs| == 1 ==> FieldsHtml(xs) == FieldFragment(xs[0])
    ensures |xs| > 0 && |ys| > 0 ==> FieldsHtml(xs + ys) == FieldsHtml(xs) + "\n" + FieldsHtml(ys)
  {
    if |xs| > 0 && |ys| > 0 {
      FragmentsAppend(xs, ys);
      JoinAppend(Fragments(xs), Fragments(ys), "\n");
    }
  }

  /** Each field's markup occurs in the markup of the list. */
  lemma FieldsHtmlContains(fields: seq<Field>, k: nat)
    requires k < |fields|
    ensures Contains(FieldsHtml(fields), FieldFragment(fields[k]))
  {
    JoinContains(Fragments(fields), k, "\n");
  }

  // ---------------------------------------------------------------------
  // The three artifacts

  function TitleTag(formTitle: string): string {
    "<title>" + formTitle + "</title>"
  }

  function HeadingTag(formTitle: string): string {
    "<h1>" + formTitle + "</h1>"
  }

  /** The field container with the fragments on the lines between its
      tags. */
  function FieldsBlock(fields: seq<Field>): string {
    FieldsOpen + FieldsHtml(fields) + FieldsClose
  }

  /** `generateHTML`: the page shell around the field markup, with the title
      in both the `<title>` and the `<h1>`, and the form posting to the
      schema's action URL. The theme colour is accepted and not used. */
  function GenerateHtml(form: FormSchema, formTitle: string, themeColor: string): (html: string)
    ensures IsPrefix(DocumentHead + TitleTag(formTitle), html)
    ensures Contains(html, Attribute("action", form.formActionUrl))
    ensures Contains(html, HeadingTag(formTitle))
    ensures Contains(html, FieldsBlock(form.fields))
  {
    var html := DocumentHead + TitleTag(formTitle) + HeadToForm + Attribute("action", form.formActionUrl)
      + FormToHeading + HeadingTag(formTitle) + HeadingToFields + FieldsBlock(form.fields) + DocumentEnd;
    HtmlFacts(DocumentHead, TitleTag(formTitle), HeadToForm, Attribute("action", form.formActionUrl), FormToHeading,
      HeadingTag(formTitle), HeadingToFields, FieldsBlock(form.fields), DocumentEnd, html);
    html
  }

  /** Each of the four computed parts of the document occurs in it. */
  lemma HtmlFacts(p0: string, titleTag: string, p1: string, actionAttr: string, p2: string, heading: string,
                  p3: string, fields: string, p4: string, html: string)
    requires html == p0 + titleTag + p1 + actionAttr + p2 + heading + p3 + fields + p4
    ensures IsPrefix(p0 + titleTag, html)
    ensures Contains(html, actionAttr)
    ensures Contains(html, heading)
    ensures Contains(html, fields)
  {
    assert html == (p0 + titleTag) + (p1 + actionAttr + p2 + heading + p3 + fields + p4);
    assert html == (p0 + titleTag + p1) + actionAttr + (p2 + heading + p3 + fields + p4);
    ContainsMiddle(p0 + titleTag + p1, actionAttr, p2 + heading + p3 + fields + p4);
    assert html == (p0 + titleTag + p1 + actionAttr + p2) + heading + (p3 + fields + p4);
    ContainsMiddle(p0 + titleTag + p1 + actionAttr + p2, heading, p3 + fields + p4);
    assert html == (p0 + titleTag + p1 + actionAttr + p2 + heading + p3) + fields + p4;
    ContainsMiddle(p0 + titleTag + p1 + actionAttr + p2 + heading + p3, fields, p4);
  }

  /** The theme colour does not reach the document. */
  lemma HtmlIgnoresTheme(form: FormSchema, formTitle: string, c1: string, c2: string)
    ensures GenerateHtml(form, formTitle, c1) == GenerateHtml(form, formTitle, c2)
  {
  }

  /** `${rgb.r}, ${rgb.g}, ${rgb.b}`. */
  function RgbString(c: Rgb): string {
    NatToString(c.r) + ", " + NatToString(c.g) + ", " + NatToString(c.b)
  }

  const ColorPrefix: string := ":root {\n    --primary-color: "

  /** The rest of the `--primary-color` line and the `--primary-rgb` line
      with the colour's channels as decimal numbers. */
  function RgbLine(themeColor: string): (line: string)
    ensures |line| > 0 && line[0] == ';'
  {
    ";\n    --primary-rgb: " + RgbString(HexToRgb(themeColor)) + ";\n"
  }

  /** `generateCSS`: the colour and its channels as the first two variables
      of the `:root` block, in front of the fixed stylesheet. */
  function GenerateCss(themeColor: string): (css: string)
    ensures IsPrefix(ColorPrefix + themeColor + RgbLine(themeColor), css)
    ensures css[|ColorPrefix + themeColor + RgbLine(themeColor)|..] == StylesheetRest
  {
    var header := ColorPrefix + themeColor + RgbLine(themeColor);
    AppendParts(header, StylesheetRest);
    header + StylesheetRest
  }

  /** The colour can be read back from the stylesheet: it starts at a fixed
      offset and is followed by the `;` ending its declaration. */
  lemma ThemeColorReadsBack(themeColor: string)
    ensures var css := GenerateCss(themeColor);
      var k := |ColorPrefix|;
      k + |themeColor| < |css| && css[k..k + |themeColor|] == themeColor && css[k + |themeColor|] == ';'
  {
    var css := GenerateCss(themeColor);
    var k := |ColorPrefix|;
    var header := ColorPrefix + themeColor + RgbLine(themeColor);
    AppendParts(ColorPrefix + themeColor, RgbLine(themeColor));
    AppendParts(ColorPrefix, themeColor);
    assert header[k..k + |themeColor|] == themeColor;
    assert header[k + |themeColor|] == ';';
    assert css[..|header|] == header;
    assert css[k..k + |themeColor|] == header[k..k + |themeColor|];
  }

  /** Different theme colours give different stylesheets. */
  lemma ThemeColorInjective(c1: string, c2: string)
    requires GenerateCss(c1) == GenerateCss(c2) && ';' !in c1 && ';' !in c2
    ensures c1 == c2
  {
    ThemeColorReadsBack(c1);
    ThemeColorReadsBack(c2);
  }

  /** The red shorthand of the documentation gives `255, 0, 0`. */
  lemma RedThemeExample()
    ensures RgbString(HexToRgb("#f00")) == "255, 0, 0"
  {
    ShorthandRedExample();
    assert NatToString(0) == "0";
    assert NatToString(255) == "255" by {
      assert NatToString(25) == "25" by {
        assert NatToString(2) == "2";
      }
    }
  }

  /** `generateJS`: the fixed submission script, which posts the form's
      data to its action without reading the response. */
  function GenerateJs(): (js: string)
    ensures Contains(js, SubmitRequest)
  {
    ContainsMiddle(ScriptSetup, SubmitRequest, ScriptAfterRequest);
    SubmissionScript
  }

  datatype Package = Package(html: string, css: string, js: string)

  /** `generateFormPackage`: the three artifacts for one form. */
  function GenerateFormPackage(form: FormSchema, formTitle: string, themeColor: string): (p: Package)
    ensures p.html == GenerateHtml(form, formTitle, themeColor)
    ensures p.css == GenerateCss(themeColor)
    ensures p.js == GenerateJs()
  {
    Package(GenerateHtml(form, formTitle, themeColor), GenerateCss(themeColor), GenerateJs())
  }

  /** The theme colour reaches only the stylesheet, the schema and the
      title only the document, and the script is the same for every form. */
  lemma PackageDependencies(f1: FormSchema, t1: string, c1: string, f2: FormSchema, t2: string, c2: string)
    ensures GenerateFormPackage(f1, t1, c1).html == GenerateFormPackage(f1, t1, c2).html
    ensures GenerateFormPackage(f1, t1, c1).css == GenerateFormPackage(f2, t2, c1).css
    ensures GenerateFormPackage(f1, t1, c1).js == GenerateFormPackage(f2, t2, c2).js
  {
  }
}
