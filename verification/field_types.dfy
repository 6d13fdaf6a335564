/** The field-type classifier `guessFieldType` of js/parser.js: an ordered
    cascade of four anchored patterns tried on a field's value. Each pattern
    is written out as a predicate that holds exactly when the regular
    expression of the source matches the whole value. */
module FieldTypes {
  import opened Text

  datatype FieldType = Text | Email | Url | Date | Number

  /** The type name the source stores in a field's `type`. */
  function TypeName(t: FieldType): string {
    match t
    case Text => "text"
    case Email => "email"
    case Url => "url"
    case Date => "date"
    case Number => "number"
  }

  /** Neither white space nor `@`: the class `[^\s@]`. */
  predicate IsEmailChar(c: char) {
    !IsSpace(c) && c != '@'
  }

  /** `^[^\s@]+@[^\s@]+\.[^\s@]+$` with the `@` at index `at`: the text after
      the `@` must hold a `.` with at least one character on either side. */
  predicate EmailSplitAt(v: string, at: nat) {
    && 0 < at < |v|
    && v[at] == '@'
    && (forall i :: 0 <= i < |v| && i != at ==> IsEmailChar(v[i]))
    && exists dot :: at + 1 < dot < |v| - 1 && v[dot] == '.'
  }

  predicate IsEmail(v: string) {
    exists at :: 0 <= at < |v| && EmailSplitAt(v, at)
  }

  /** `[\da-z.-]` */
  predicate IsHostChar(c: char) {
    IsDigit(c) || IsAsciiLower(c) || c == '.' || c == '-'
  }

  /** `[a-z.]` */
  predicate IsSuffixChar(c: char) {
    IsAsciiLower(c) || c == '.'
  }

  /** `[/\w .-]` */
  predicate IsPathChar(c: char) {
    c == '/' || IsWordChar(c) || c == ' ' || c == '.' || c == '-'
  }

  /** `([\da-z.-]+)\.([a-z.]{2,6})([/\w .-]*)*\/?` matches all of `r` with the
      separating `.` at index `dot` and a suffix of `len` characters. The
      repeated path group and the optional final `/` together match exactly
      the strings of path characters. */
  predicate UrlBodyAt(r: string, dot: nat, len: nat) {
    && 0 < dot
    && 2 <= len <= 6
    && dot + 1 + len <= |r|
    && r[dot] == '.'
    && (forall i :: 0 <= i < dot ==> IsHostChar(r[i]))
    && (forall i :: dot < i <= dot + len ==> IsSuffixChar(r[i]))
    && (forall i :: dot + len < i < |r| ==> IsPathChar(r[i]))
  }

  predicate IsUrlBody(r: string) {
    exists dot, len :: 0 <= dot < |r| && 0 <= len <= 6 && UrlBodyAt(r, dot, len)
  }

  /** `^(https?:\/\/)?` followed by the body. */
  predicate IsUrl(v: string) {
    || IsUrlBody(v)
    || (IsPrefix("http://", v) && IsUrlBody(v[7..]))
    || (IsPrefix("https://", v) && IsUrlBody(v[8..]))
  }

  /** `^\d{4}-\d{2}-\d{2}$` */
  predicate IsDate(v: string) {
    && |v| == 10
    && v[4] == '-' && v[7] == '-'
    && forall i :: 0 <= i < 10 && i != 4 && i != 7 ==> IsDigit(v[i])
  }

  predicate IsDigits(s: string) {
    |s| > 0 && forall i :: 0 <= i < |s| ==> IsDigit(s[i])
  }

  /** `\d+(\.\d+)?` */
  predicate IsUnsignedDecimal(u: string) {
    || IsDigits(u)
    || exists dot :: 0 < dot < |u| && u[dot] == '.' && IsDigits(u[..dot]) && IsDigits(u[dot + 1..])
  }

  /** `^-?\d+(\.\d+)?$`: a leading `-` can only be taken by the optional sign. */
  predicate IsNumber(v: string) {
    if |v| > 0 && v[0] == '-' then IsUnsignedDecimal(v[1..]) else IsUnsignedDecimal(v)
  }

  /** The first pattern, in the order email, url, date, number, that matches
      `v`; `Text` when none does. */
  function FirstMatchingType(v: string): FieldType {
    if IsEmail(v) then Email
    else if IsUrl(v) then Url
    else if IsDate(v) then Date
    else if IsNumber(v) then Number
    else Text
  }

  /** `guessFieldType`: blank values are text; otherwise the first of the
      four patterns that matches decides. The source's test is
      `value.trim() === ''`, which by the contract of `Trim` holds exactly
      when the value is blank (`BlankGuessIsText`). The blank test is a
      shortcut: no pattern matches a blank value, so the result is always
      the first matching pattern. */
  function GuessFieldType(value: string): (t: FieldType)
    ensures t == FirstMatchingType(value)
    ensures t == Email ==> IsEmail(value)
    ensures t == Url ==> IsUrl(value) && !IsEmail(value)
    ensures t == Date ==> IsDate(value) && !IsUrl(value) && !IsEmail(value)
    ensures t == Number ==> IsNumber(value) && !IsDate(value) && !IsUrl(value) && !IsEmail(value)
    ensures t == Text ==> !IsEmail(value) && !IsUrl(value) && !IsDate(value) && !IsNumber(value)
  {
    if IsBlank(value) then
      BlankMatchesNothing(value);
      Text
    else if IsEmail(value) then Email
    else if IsUrl(value) then Url
    else if IsDate(value) then Date
    else if IsNumber(value) then Number
    else Text
  }

  /** A value that trims to the empty string is text. */
  lemma BlankGuessIsText(value: string)
    requires Trim(value) == ""
    ensures GuessFieldType(value) == Text
  {
  }

  lemma BlankUrlBody(r: string)
    requires IsBlank(r)
    ensures !IsUrlBody(r)
  {
    forall dot, len | 0 <= dot < |r| && 0 <= len <= 6
      ensures !UrlBodyAt(r, dot, len)
    {
      assert IsSpace(r[dot]);
    }
  }

  lemma BlankMatchesNothing(v: string)
    requires IsBlank(v)
    ensures !IsEmail(v) && !IsUrl(v) && !IsDate(v) && !IsNumber(v)
  {
    forall at | 0 <= at < |v|
      ensures !EmailSplitAt(v, at)
    {
      assert IsSpace(v[at]);
    }
    BlankUrlBody(v);
    if |v| >= 7 {
      BlankUrlBody(v[7..]);
    }
    if |v| >= 8 {
      BlankUrlBody(v[8..]);
    }
    assert |v| == 10 ==> IsSpace(v[4]);
    if |v| > 0 {
      assert IsSpace(v[0]);
      assert |v| > 1 ==> IsSpace(v[1..][0]);
    }
  }

  /** A value with no `@` is never an email. */
  lemma NoAtNoEmail(v: string)
    requires forall i :: 0 <= i < |v| ==> v[i] != '@'
    ensures !IsEmail(v)
  {
    forall at | 0 <= at < |v|
      ensures !EmailSplitAt(v, at)
    {
      assert v[at] != '@';
    }
  }

  /** A value with no `.` and no `:` is never a url. */
  lemma NoDotNoUrl(v: string)
    requires forall i :: 0 <= i < |v| ==> v[i] != '.' && v[i] != ':'
    ensures !IsUrl(v)
  {
    forall dot, len | 0 <= dot < |v| && 0 <= len <= 6
      ensures !UrlBodyAt(v, dot, len)
    {
      assert v[dot] != '.';
    }
    if |v| >= 7 {
      assert v[..7][4] == v[4] != "http://"[4];
    }
    if |v| >= 8 {
      assert v[..8][5] == v[5] != "https://"[5];
    }
  }

  lemma EmailExample()
    ensures GuessFieldType("a@b.com") == Email
  {
    var v := "a@b.com";
    assert v[3] == '.';
    assert EmailSplitAt(v, 1);
  }

  lemma DateExample()
    ensures GuessFieldType("2024-01-05") == Date
  {
    var v := "2024-01-05";
    NoAtNoEmail(v);
    NoDotNoUrl(v);
    assert IsDate(v);
    assert FirstMatchingType(v) == Date;
  }

  lemma IntegerExample()
    ensures GuessFieldType("42") == Number
  {
    NoAtNoEmail("42");
    NoDotNoUrl("42");
    assert IsDigits("42");
    assert FirstMatchingType("42") == Number;
  }

  lemma DigitExample()
    ensures GuessFieldType("5") == Number
  {
    NoAtNoEmail("5");
    NoDotNoUrl("5");
    assert IsDigits("5");
    assert FirstMatchingType("5") == Number;
  }

  lemma NegativeDecimalExample()
    ensures GuessFieldType("-3.5") == Number
  {
    var v := "-3.5";
    NoAtNoEmail(v);
    forall dot, len | 0 <= dot < |v| && 0 <= len <= 6
      ensures !UrlBodyAt(v, dot, len)
    {
      assert dot != 2 ==> v[dot] != '.';
    }
    assert !IsUrl(v);
    var u := v[1..];
    assert u[..1] == "3" && u[2..] == "5" && u[1] == '.';
    assert IsDigits(u[..1]) && IsDigits(u[1 + 1..]);
    assert IsUnsignedDecimal(u);
    assert FirstMatchingType(v) == Number;
  }

  lemma TextExamples()
    ensures GuessFieldType("hello") == Text
    ensures GuessFieldType("") == Text
  {
    var v := "hello";
    NoAtNoEmail(v);
    NoDotNoUrl(v);
    assert !IsDigit(v[0]);
    forall dot | 0 < dot < |v|
      ensures !IsDigits(v[..dot])
    {
      assert v[..dot][0] == 'h';
    }
    assert !IsNumber(v);
    assert FirstMatchingType(v) == Text;
    BlankMatchesNothing("");
  }

  lemma UrlExample()
    ensures GuessFieldType("example.com") == Url
  {
    var v := "example.com";
    NoAtNoEmail(v);
    assert UrlBodyAt(v, 7, 3);
  }

  /** Every character of a number is a digit, a leading `-`, or a `.` that a
      digit follows. */
  lemma NumberShape(v: string)
    requires IsNumber(v)
    ensures forall i :: 0 <= i < |v| ==>
      || IsDigit(v[i])
      || (i == 0 && v[i] == '-')
      || (v[i] == '.' && i + 1 < |v| && IsDigit(v[i + 1]))
  {
    var k := if |v| > 0 && v[0] == '-' then 1 else 0;
    var u := v[k..];
    assert IsUnsignedDecimal(u);
    if !IsDigits(u) {
      var dot :| 0 < dot < |u| && u[dot] == '.' && IsDigits(u[..dot]) && IsDigits(u[dot + 1..]);
      forall i | k <= i < |v|
        ensures IsDigit(v[i]) || (v[i] == '.' && i + 1 < |v| && IsDigit(v[i + 1]))
      {
        if i - k < dot {
          assert v[i] == u[..dot][i - k];
        } else if i - k == dot {
          assert v[i + 1] == u[dot + 1..][0];
        } else {
          assert v[i] == u[dot + 1..][i - k - dot - 1];
        }
      }
    } else {
      assert forall i :: k <= i < |v| ==> v[i] == u[i - k];
    }
  }

  lemma NumberCharAt(v: string, i: nat)
    requires IsNumber(v) && i < |v|
    ensures IsDigit(v[i]) || (i == 0 && v[i] == '-') || (v[i] == '.' && i + 1 < |v| && IsDigit(v[i + 1]))
  {
    NumberShape(v);
  }

  /** A url never contains `@`, and its body contains a `.` followed by a
      lower-case letter or another `.`. */
  lemma UrlShape(v: string)
    requires IsUrl(v)
    ensures forall i :: 0 <= i < |v| ==> v[i] != '@'
    ensures exists p :: 0 <= p < |v| - 1 && v[p] == '.' && IsSuffixChar(v[p + 1])
    ensures !IsDigit(v[0]) && v[0] != '-' ==> v[0] == 'h' || IsAsciiLower(v[0]) || v[0] == '.'
  {
    var k := if IsUrlBody(v) then 0 else if IsPrefix("http://", v) && IsUrlBody(v[7..]) then 7 else 8;
    var r := v[k..];
    assert IsUrlBody(r);
    var dot, len :| 0 <= dot < |r| && 0 <= len <= 6 && UrlBodyAt(r, dot, len);
    forall i | 0 <= i < |v|
      ensures v[i] != '@'
    {
      if i < k {
        assert v[i] == v[..k][i];
      } else {
        assert v[i] == r[i - k];
      }
    }
    assert v[k + dot] == r[dot] && v[k + dot + 1] == r[dot + 1];
    if k == 0 {
      assert IsHostChar(r[0]);
    } else {
      assert v[0] == v[..k][0];
    }
  }

  /** The four patterns are pairwise exclusive: no value matches two of
      them, so the order of the cascade never changes a classification. */
  lemma PatternsExclusive(v: string)
    ensures IsEmail(v) ==> !IsUrl(v) && !IsDate(v) && !IsNumber(v)
    ensures IsUrl(v) ==> !IsDate(v) && !IsNumber(v)
    ensures IsDate(v) ==> !IsNumber(v)
  {
    if IsEmail(v) {
      var at :| 0 <= at < |v| && EmailSplitAt(v, at);
      EmailExcludesOthers(v, at);
    }
    if IsUrl(v) {
      UrlExcludesDateAndNumber(v);
    }
    if IsDate(v) && IsNumber(v) {
      NumberCharAt(v, 4);
    }
  }

  /** An `@` is neither a url, a date nor a number character. */
  lemma EmailExcludesOthers(v: string, at: nat)
    requires at < |v| && v[at] == '@'
    ensures !IsUrl(v) && !IsDate(v) && !IsNumber(v)
  {
    if IsUrl(v) {
      UrlShape(v);
    }
    assert IsDate(v) ==> at == 4 || at == 7 || IsDigit(v[at]);
    if IsNumber(v) {
      NumberCharAt(v, at);
    }
  }

  /** A url's `.` is followed by a letter or a `.`; a date has no `.`, and a
      number's `.` is followed by a digit. */
  lemma UrlExcludesDateAndNumber(v: string)
    requires IsUrl(v)
    ensures !IsDate(v) && !IsNumber(v)
  {
    UrlShape(v);
    var p :| 0 <= p < |v| - 1 && v[p] == '.' && IsSuffixChar(v[p + 1]);
    assert IsDate(v) ==> p == 4 || p == 7 || IsDigit(v[p]);
    if IsNumber(v) {
      NumberCharAt(v, p);
    }
  }

  /** Consequently the classification is the one pattern that matches. */
  lemma ClassificationIsTheMatchingPattern(v: string)
    ensures IsEmail(v) <==> GuessFieldType(v) == Email
    ensures IsUrl(v) <==> GuessFieldType(v) == Url
    ensures IsDate(v) <==> GuessFieldType(v) == Date
    ensures IsNumber(v) <==> GuessFieldType(v) == Number
  {
    PatternsExclusive(v);
  }
}
