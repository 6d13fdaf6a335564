/** The `hexToRgb` helper of `generateCSS` in js/generator.js: a theme colour
    written as three or six hexadecimal digits, with or without a leading
    `#`, read as its red, green and blue channels. */
module Colors {
  import opened Text

  datatype Rgb = Rgb(r: nat, g: nat, b: nat)

  /** What the case-insensitive class `[a-f\d]` matches. */
  predicate IsHexDigit(c: char) {
    IsDigit(c) || ('a' <= c <= 'f') || ('A' <= c <= 'F')
  }

  predicate AllHexDigits(s: string) {
    forall i :: 0 <= i < |s| ==> IsHexDigit(s[i])
  }

  function HexDigitValue(c: char): (d: nat)
    requires IsHexDigit(c)
    ensures d < 16
  {
    if IsDigit(c) then c as int - '0' as int
    else if 'a' <= c <= 'f' then c as int - 'a' as int + 10
    else c as int - 'A' as int + 10
  }

  /** The lower-case digit of a value below sixteen. */
  function HexDigitChar(d: nat): (c: char)
    requires d < 16
    ensures IsHexDigit(c) && HexDigitValue(c) == d
  {
    if d < 10 then (d + '0' as int) as char else (d - 10 + 'a' as int) as char
  }

  /** The string is `n` hexadecimal digits, optionally after one `#`: the
      whole input matches `^#?([a-f\d]){n}$` ignoring case. */
  predicate IsHexColor(s: string, n: nat) {
    || (|s| == n && AllHexDigits(s))
    || (|s| == n + 1 && s[0] == '#' && AllHexDigits(s[1..]))
  }

  /** The digits of a colour string, without its `#`. */
  function Digits(s: string, n: nat): (d: string)
    requires IsHexColor(s, n)
    ensures |d| == n && AllHexDigits(d)
    ensures s == d || s == "#" + d
  {
    if |s| == n then s else s[1..]
  }

  /** The shorthand rewrite: a three-digit colour becomes the six digits
      with each one doubled, and loses its `#`; any other string is left
      alone. */
  function ExpandShorthand(hex: string): (full: string)
    ensures IsHexColor(hex, 3) ==> IsHexColor(full, 6) && |full| == 6
    ensures IsHexColor(hex, 3) ==> forall i :: 0 <= i < 6 ==> full[i] == Digits(hex, 3)[i / 2]
    ensures !IsHexColor(hex, 3) ==> full == hex
  {
    if IsHexColor(hex, 3) then
      var d := Digits(hex, 3);
      [d[0], d[0], d[1], d[1], d[2], d[2]]
    else hex
  }

  /** Two hexadecimal digits as a number below 256 (`parseInt(_, 16)`). */
  function ByteValue(hi: char, lo: char): (v: nat)
    requires IsHexDigit(hi) && IsHexDigit(lo)
    ensures v < 256
  {
    16 * HexDigitValue(hi) + HexDigitValue(lo)
  }

  /** `hexToRgb`: the three channels of a three- or six-digit colour, and
      black for anything else. */
  function HexToRgb(hex: string): (rgb: Rgb)
    ensures rgb.r < 256 && rgb.g < 256 && rgb.b < 256
    ensures !IsHexColor(hex, 3) && !IsHexColor(hex, 6) ==> rgb == Rgb(0, 0, 0)
  {
    var full := ExpandShorthand(hex);
    if IsHexColor(full, 6) then
      var d := Digits(full, 6);
      Rgb(ByteValue(d[0], d[1]), ByteValue(d[2], d[3]), ByteValue(d[4], d[5]))
    else Rgb(0, 0, 0)
  }

  /** A channel as two lower-case hexadecimal digits. */
  function Hex2(v: nat): (s: string)
    requires v < 256
    ensures |s| == 2 && AllHexDigits(s) && ByteValue(s[0], s[1]) == v
  {
    [HexDigitChar(v / 16), HexDigitChar(v % 16)]
  }

  /** A colour as six lower-case hexadecimal digits. */
  function RenderHex(c: Rgb): (s: string)
    requires c.r < 256 && c.g < 256 && c.b < 256
    ensures |s| == 6 && AllHexDigits(s)
  {
    Hex2(c.r) + Hex2(c.g) + Hex2(c.b)
  }

  /** Reading a rendered colour gives the colour back, with or without the
      `#`. */
  lemma RgbRoundTrip(c: Rgb)
    requires c.r < 256 && c.g < 256 && c.b < 256
    ensures HexToRgb(RenderHex(c)) == c
    ensures HexToRgb("#" + RenderHex(c)) == c
  {
    var s := RenderHex(c);
    assert ("#" + s)[1..] == s;
    assert !IsHexColor(s, 3) && !IsHexColor("#" + s, 3);
  }

  predicate IsLowerHexDigit(c: char) {
    IsDigit(c) || ('a' <= c <= 'f')
  }

  lemma ByteDigits(hi: nat, lo: nat)
    requires hi < 16 && lo < 16
    ensures (16 * hi + lo) / 16 == hi && (16 * hi + lo) % 16 == lo
  {
  }

  /** Two lower-case digits render back as themselves. */
  lemma Hex2Inverse(hi: char, lo: char)
    requires IsLowerHexDigit(hi) && IsLowerHexDigit(lo)
    ensures Hex2(ByteValue(hi, lo)) == [hi, lo]
  {
    ByteDigits(HexDigitValue(hi), HexDigitValue(lo));
  }

  /** Rendering the colour read from six lower-case digits gives the digits
      back: the reading loses nothing. */
  lemma HexRoundTrip(s: string)
    requires |s| == 6 && forall i :: 0 <= i < 6 ==> IsLowerHexDigit(s[i])
    ensures RenderHex(HexToRgb(s)) == s
  {
    assert !IsHexColor(s, 3) && IsHexColor(s, 6);
    var c := HexToRgb(s);
    assert c == Rgb(ByteValue(s[0], s[1]), ByteValue(s[2], s[3]), ByteValue(s[4], s[5]));
    Hex2Inverse(s[0], s[1]);
    Hex2Inverse(s[2], s[3]);
    Hex2Inverse(s[4], s[5]);
    assert [s[0], s[1]] + [s[2], s[3]] + [s[4], s[5]] == s;
  }

  /** A three-digit colour means the same as the six digits that double
      each of its digits. */
  lemma ShorthandDoubles(x: char, y: char, z: char)
    requires IsHexDigit(x) && IsHexDigit(y) && IsHexDigit(z)
    ensures HexToRgb([x, y, z]) == HexToRgb([x, x, y, y, z, z])
    ensures HexToRgb(['#', x, y, z]) == HexToRgb([x, x, y, y, z, z])
    ensures HexToRgb([x, y, z]).r == 17 * HexDigitValue(x)
    ensures HexToRgb([x, y, z]).g == 17 * HexDigitValue(y)
    ensures HexToRgb([x, y, z]).b == 17 * HexDigitValue(z)
  {
    var short := [x, y, z];
    var full := [x, x, y, y, z, z];
    assert IsHexColor(short, 3);
    assert ['#', x, y, z][1..] == short;
    assert IsHexColor(['#', x, y, z], 3);
    assert ExpandShorthand(short) == full && ExpandShorthand(['#', x, y, z]) == full;
    assert !IsHexColor(full, 3);
  }

  /** The two strings differ at most in the letter case of their
      characters. */
  predicate SameUpToCase(s: string, t: string) {
    |s| == |t| && forall i :: 0 <= i < |s| ==> ToUpper(s[i]) == ToUpper(t[i])
  }

  lemma CharCase(a: char, b: char)
    requires ToUpper(a) == ToUpper(b)
    ensures IsHexDigit(a) <==> IsHexDigit(b)
    ensures IsHexDigit(a) ==> HexDigitValue(a) == HexDigitValue(b)
    ensures a == '#' <==> b == '#'
  {
  }

  lemma ColorCase(s: string, t: string, n: nat)
    requires SameUpToCase(s, t)
    ensures IsHexColor(s, n) <==> IsHexColor(t, n)
    ensures IsHexColor(s, n) ==> SameUpToCase(Digits(s, n), Digits(t, n))
  {
    forall i | 0 <= i < |s|
      ensures IsHexDigit(s[i]) <==> IsHexDigit(t[i])
      ensures s[i] == '#' <==> t[i] == '#'
    {
      CharCase(s[i], t[i]);
    }
    if |s| > 0 {
      assert forall i :: 0 <= i < |s| - 1 ==> s[1..][i] == s[i + 1] && t[1..][i] == t[i + 1];
    }
  }

  lemma ExpandCase(s: string, t: string)
    requires SameUpToCase(s, t)
    ensures SameUpToCase(ExpandShorthand(s), ExpandShorthand(t))
  {
    ColorCase(s, t, 3);
  }

  /** The letter case of the digits does not matter. */
  lemma CaseInsensitive(s: string, t: string)
    requires SameUpToCase(s, t)
    ensures HexToRgb(s) == HexToRgb(t)
  {
    ExpandCase(s, t);
    var fs := ExpandShorthand(s);
    var ft := ExpandShorthand(t);
    ColorCase(fs, ft, 6);
    if IsHexColor(fs, 6) {
      var ds := Digits(fs, 6);
      var dt := Digits(ft, 6);
      forall i | 0 <= i < 6
        ensures HexDigitValue(ds[i]) == HexDigitValue(dt[i])
      {
        CharCase(ds[i], dt[i]);
      }
    }
  }

  /** The two colours of the documented examples. */
  lemma ShorthandRedExample()
    ensures HexToRgb("#f00") == Rgb(255, 0, 0)
  {
    ShorthandDoubles('f', '0', '0');
    assert "#f00" == ['#', 'f', '0', '0'];
    assert !IsHexColor("ff0000", 3) && IsHexColor("ff0000", 6);
  }

  lemma FullExample()
    ensures HexToRgb("#1a2b3c") == Rgb(26, 43, 60)
  {
    assert "#1a2b3c"[1..] == "1a2b3c";
    assert !IsHexColor("#1a2b3c", 3) && IsHexColor("#1a2b3c", 6);
  }

  lemma NamedColourIsBlack()
    ensures HexToRgb("red") == Rgb(0, 0, 0)
  {
    assert !IsHexDigit('r');
  }
}
