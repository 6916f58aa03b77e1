/**
 * Colour conversion of the text editor: `rgb2hex` turns the text a style
 * object gives for a colour into the `#rrggbb` form a colour input accepts,
 * and `hex` formats one channel as two lower-case hexadecimal digits.
 *
 * Strings are sequences of characters. `rgb2hex` throws when its argument
 * is neither `#...` nor `rgb(r, g, b)` (the match is null and is indexed);
 * here that outcome is `None`.
 */
module Colour {
  import opened Wrappers

  // ---------------------------------------------------------------------
  // Character classes of the regular expression
  // ---------------------------------------------------------------------

  /** `\d`: an ASCII decimal digit. */
  predicate IsDigit(c: char) {
    '0' <= c <= '9'
  }

  predicate AllDigits(s: string) {
    forall i :: 0 <= i < |s| ==> IsDigit(s[i])
  }

  /** `\d+`: a non-empty run of decimal digits. */
  predicate IsDecimal(s: string) {
    |s| > 0 && AllDigits(s)
  }

  /** `\s`: ECMAScript white space and line terminators. */
  predicate IsSpace(c: char) {
    || c == '\t' || c == '\n' || c == '\r' || c == ' '
    || c as int in {0x0B, 0x0C, 0xA0, 0x1680, 0x2028, 0x2029, 0x202F, 0x205F, 0x3000, 0xFEFF}
    || 0x2000 <= c as int <= 0x200A
  }

  predicate AllSpaces(s: string) {
    forall i :: 0 <= i < |s| ==> IsSpace(s[i])
  }

  /** A lower-case hexadecimal digit, as `Number.prototype.toString(16)` writes them. */
  predicate IsHexDigit(c: char) {
    '0' <= c <= '9' || 'a' <= c <= 'f'
  }

  predicate AllHex(s: string) {
    forall i :: 0 <= i < |s| ==> IsHexDigit(s[i])
  }

  // ---------------------------------------------------------------------
  // Numbers written in base 10 and base 16
  // ---------------------------------------------------------------------

  function DigitValue(c: char): (d: nat)
    requires IsDigit(c)
    ensures d < 10
  {
    c as int - '0' as int
  }

  /** `parseInt` applied to a string of decimal digits: a leading zero does
      not change the value. */
  function DecimalValue(s: string): (n: nat)
    requires AllDigits(s)
    ensures |s| > 0 && s[0] == '0' ==> n == DecimalValue(s[1..])
  {
    if s == [] then 0
    else
      var front := s[..|s| - 1];
      assert |s| > 1 ==> front[1..] == s[1..][..|s| - 2];
      10 * DecimalValue(front) + DigitValue(s[|s| - 1])
  }

  function DecimalDigit(d: nat): (c: char)
    requires d < 10
    ensures IsDigit(c) && DigitValue(c) == d
  {
    ('0' as int + d) as char
  }

  /** The decimal numeral of `n`, without leading zeros. */
  function ToDecimal(n: nat): (s: string)
    ensures IsDecimal(s) && DecimalValue(s) == n
  {
    if n < 10 then [DecimalDigit(n)]
    else
      var front := ToDecimal(n / 10);
      assert (front + [DecimalDigit(n % 10)])[..|front|] == front;
      front + [DecimalDigit(n % 10)]
  }

  function HexDigitValue(c: char): (d: nat)
    requires IsHexDigit(c)
    ensures d < 16
  {
    if c <= '9' then c as int - '0' as int else c as int - 'a' as int + 10
  }

  /** The value of a string of hexadecimal digits, most significant first. */
  function HexValue(s: string): nat
    requires AllHex(s)
  {
    if s == [] then 0 else 16 * HexValue(s[..|s| - 1]) + HexDigitValue(s[|s| - 1])
  }

  function HexDigit(d: nat): (c: char)
    requires d < 16
    ensures IsHexDigit(c) && HexDigitValue(c) == d
  {
    if d < 10 then ('0' as int + d) as char else ('a' as int + d - 10) as char
  }

  /** `n.toString(16)` for a non-negative integer `n`: lower-case digits, no
      leading zero. */
  function ToBase16(n: nat): (h: string)
    ensures |h| > 0 && AllHex(h) && HexValue(h) == n
    ensures |h| > 1 ==> h[0] != '0'
    ensures h[|h| - 1] == HexDigit(n % 16)
  {
    if n < 16 then [HexDigit(n)]
    else
      var front := ToBase16(n / 16);
      assert (front + [HexDigit(n % 16)])[..|front|] == front;
      front + [HexDigit(n % 16)]
  }

  // ---------------------------------------------------------------------
  // hex(x)
  // ---------------------------------------------------------------------

  lemma ModOfByte(x: nat)
    requires x < 256
    ensures x % 256 == x
  {
  }

  /** The value of a two-digit hexadecimal string. */
  lemma HexValueOfTwo(s: string)
    requires |s| == 2 && AllHex(s)
    ensures HexValue(s) == 16 * HexDigitValue(s[0]) + HexDigitValue(s[1]) < 256
  {
    var first := s[..1];
    assert first[..0] == [] && first[0] == s[0];
    assert HexValue(first) == HexDigitValue(s[0]);
    assert HexValue(s) == 16 * HexValue(first) + HexDigitValue(s[1]);
  }

  lemma LowByte(n: nat)
    ensures n % 256 == 16 * ((n / 16) % 16) + n % 16
  {
    var q := n / 16;
    assert n == 16 * q + n % 16;
    assert q == 16 * (q / 16) + q % 16;
    assert n == 256 * (q / 16) + (16 * (q % 16) + n % 16);
  }

  lemma HexLastTwo(n: nat, t: string, h: string)
    requires t == "0" + ToBase16(n) && h == t[|t| - 2..]
    ensures |h| == 2 && AllHex(h) && HexValue(h) == n % 256
  {
    assert h[1] == HexDigit(n % 16);
    if n < 16 {
      assert h[0] == '0';
    } else {
      var front := ToBase16(n / 16);
      assert ToBase16(n) == front + [HexDigit(n % 16)];
      assert h[0] == front[|front| - 1] == HexDigit((n / 16) % 16);
      LowByte(n);
    }
    HexValueOfTwo(h);
  }

  /** `hex(x)`: the channel text `x` (a capture of `\d+`) read with
      `parseInt`, written in base 16 behind a "0", of which the last two
      characters are kept. The result is always two lower-case digits whose
      value is the channel modulo 256: a channel above 255 keeps only its low
      byte. */
  function Hex(x: string): (h: string)
    requires IsDecimal(x)
    ensures |h| == 2 && AllHex(h)
    ensures HexValue(h) == DecimalValue(x) % 256
  {
    var n := DecimalValue(x);
    var t := "0" + ToBase16(n);
    var h := t[|t| - 2..];
    HexLastTwo(n, t, h);
    h
  }

  // ---------------------------------------------------------------------
  // The regular expression /^rgb\((\d+),\s*(\d+),\s*(\d+)\)$/
  // ---------------------------------------------------------------------

  /** Length of the longest prefix of `s` made of decimal digits. */
  function DigitRun(s: string): (n: nat)
    ensures n <= |s|
    ensures forall i :: 0 <= i < n ==> IsDigit(s[i])
    ensures n < |s| ==> !IsDigit(s[n])
  {
    if |s| > 0 && IsDigit(s[0]) then 1 + DigitRun(s[1..]) else 0
  }

  /** Length of the longest prefix of `s` made of white space. */
  function SpaceRun(s: string): (n: nat)
    ensures n <= |s|
    ensures forall i :: 0 <= i < n ==> IsSpace(s[i])
    ensures n < |s| ==> !IsSpace(s[n])
  {
    if |s| > 0 && IsSpace(s[0]) then 1 + SpaceRun(s[1..]) else 0
  }

  /** `\d+` followed by the character `close` at the start of `s`: the digits
      and what follows `close`. */
  function DecimalThen(s: string, close: char): (r: Option<(string, string)>)
    ensures r.Some? ==> IsDecimal(r.value.0) && s == r.value.0 + ([close] + r.value.1)
  {
    var n := DigitRun(s);
    if 0 < n < |s| && s[n] == close then
      assert s == s[..n] + ([close] + s[n + 1..]);
      Some((s[..n], s[n + 1..]))
    else
      None
  }

  /** `\s*\d+` followed by `close` at the start of `s`: the white space, the
      digits and what follows `close`. */
  function SpacedDecimalThen(s: string, close: char): (r: Option<(string, string, string)>)
    ensures r.Some? ==> AllSpaces(r.value.0) && IsDecimal(r.value.1)
    ensures r.Some? ==> s == r.value.0 + (r.value.1 + ([close] + r.value.2))
  {
    var k := SpaceRun(s);
    match DecimalThen(s[k..], close)
    case None => None
    case Some((d, rest)) =>
      assert s == s[..k] + s[k..];
      Some((s[..k], d, rest))
  }

  /** A successful match: the three capture groups and the two runs of
      white space between them. */
  datatype RgbMatch = RgbMatch(red: string, gap1: string, green: string, gap2: string, blue: string)

  predicate WellFormed(m: RgbMatch) {
    IsDecimal(m.red) && AllSpaces(m.gap1) && IsDecimal(m.green) && AllSpaces(m.gap2) && IsDecimal(m.blue)
  }

  /** The text a match covers: `rgb(`, red, `,`, gap, green, `,`, gap, blue, `)`. */
  function Render(m: RgbMatch): string {
    "rgb(" + (m.red + ([','] + (m.gap1 + (m.green + ([','] + (m.gap2 + (m.blue + [')'])))))))
  }

  /** The strings the regular expression accepts. */
  ghost predicate IsRgbText(s: string) {
    exists m :: WellFormed(m) && Render(m) == s
  }

  /** `rgb.match(/^rgb\((\d+),\s*(\d+),\s*(\d+)\)$/)`; `None` stands for null. */
  function MatchRgb(s: string): (r: Option<RgbMatch>)
    ensures r.Some? ==> WellFormed(r.value) && Render(r.value) == s
  {
    if |s| < 4 || s[..4] != "rgb(" then None
    else
      assert s == s[..4] + s[4..];
      match DecimalThen(s[4..], ',')
      case None => None
      case Some((red, t)) =>
        match SpacedDecimalThen(t, ',')
        case None => None
        case Some((gap1, green, u)) =>
          match SpacedDecimalThen(u, ')')
          case None => None
          case Some((gap2, blue, rest)) =>
            if rest != [] then None
            else
              assert [')'] + rest == [')'];
              Some(RgbMatch(red, gap1, green, gap2, blue))
  }

  lemma DecimalThenOf(d: string, close: char, rest: string)
    requires IsDecimal(d) && !IsDigit(close)
    ensures DecimalThen(d + ([close] + rest), close) == Some((d, rest))
  {
    var s := d + ([close] + rest);
    assert s[|d|] == close;
    assert s[..|d|] == d && s[|d| + 1..] == rest;
  }

  lemma SpacedDecimalThenOf(w: string, d: string, close: char, rest: string)
    requires AllSpaces(w) && IsDecimal(d) && !IsDigit(close)
    ensures SpacedDecimalThen(w + (d + ([close] + rest)), close) == Some((w, d, rest))
  {
    var s := w + (d + ([close] + rest));
    assert s[|w|] == d[0];
    assert s[..|w|] == w && s[|w|..] == d + ([close] + rest);
    DecimalThenOf(d, close, rest);
  }

  /** The matcher finds every text the regular expression describes, and
      splits it the one way it can be split. */
  lemma MatchRgbComplete(m: RgbMatch)
    requires WellFormed(m)
    ensures MatchRgb(Render(m)) == Some(m)
  {
    var u := m.gap2 + (m.blue + [')']);
    var t := m.gap1 + (m.green + ([','] + u));
    var s := Render(m);
    assert s == "rgb(" + (m.red + ([','] + t));
    assert s[..4] == "rgb(" && s[4..] == m.red + ([','] + t);
    DecimalThenOf(m.red, ',', t);
    SpacedDecimalThenOf(m.gap1, m.green, ',', u);
    SpacedDecimalThenOf(m.gap2, m.blue, ')', []);
    assert [')'] + [] == [')'];
  }

  // ---------------------------------------------------------------------
  // rgb2hex(rgb)
  // ---------------------------------------------------------------------

  predicate StartsWithHash(s: string) {
    |s| > 0 && s[0] == '#'
  }

  /** `"#" + a + b + c` for three two-digit groups. */
  function HashColour(a: string, b: string, c: string): (h: string)
    requires |a| == 2 && |b| == 2 && |c| == 2 && AllHex(a) && AllHex(b) && AllHex(c)
    ensures |h| == 7 && h[0] == '#' && AllHex(h[1..])
    ensures h[1..3] == a && h[3..5] == b && h[5..7] == c
  {
    var h := "#" + a + b + c;
    assert h[1..] == a + b + c;
    h
  }

  /** `rgb2hex(rgb)`: a string starting with `#` is returned as it is; an
      `rgb(r, g, b)` string becomes `#` and the three channels through
      `Hex`; anything else fails. Every result starts with `#`. */
  function RgbToHex(s: string): (r: Option<string>)
    ensures StartsWithHash(s) ==> r == Some(s)
    ensures r.Some? ==> StartsWithHash(r.value)
    ensures !StartsWithHash(s) && r.Some? ==> |r.value| == 7 && AllHex(r.value[1..])
  {
    if StartsWithHash(s) then Some(s)
    else
      match MatchRgb(s)
      case None => None
      case Some(m) => Some(HashColour(Hex(m.red), Hex(m.green), Hex(m.blue)))
  }

  /** `rgb2hex` succeeds exactly on the strings starting with `#` and on
      the strings the regular expression accepts; on everything else
      (an empty string, a colour name, `rgba(...)`) it fails. */
  lemma RgbToHexDefinedExactly(s: string)
    ensures RgbToHex(s).Some? <==> StartsWithHash(s) || IsRgbText(s)
  {
    if IsRgbText(s) {
      var m :| WellFormed(m) && Render(m) == s;
      MatchRgbComplete(m);
    }
  }

  /** `rgb2hex` is idempotent: what it returns, it returns unchanged. */
  lemma RgbToHexIdempotent(s: string)
    requires RgbToHex(s).Some?
    ensures RgbToHex(RgbToHex(s).value) == RgbToHex(s)
  {
  }

  /** On a match the result is `#` and three two-digit groups, group i
      holding channel i modulo 256. */
  lemma RgbToHexFormat(m: RgbMatch)
    requires WellFormed(m)
    ensures RgbToHex(Render(m)).Some?
    ensures var h := RgbToHex(Render(m)).value;
      && |h| == 7 && h[0] == '#' && AllHex(h[1..])
      && h[1..3] == Hex(m.red) && h[3..5] == Hex(m.green) && h[5..7] == Hex(m.blue)
      && HexValue(h[1..3]) == DecimalValue(m.red) % 256
      && HexValue(h[3..5]) == DecimalValue(m.green) % 256
      && HexValue(h[5..7]) == DecimalValue(m.blue) % 256
  {
    MatchRgbComplete(m);
    assert Render(m)[0] == 'r';
  }

  // ---------------------------------------------------------------------
  // The colour text a browser gives back, and the colour input's format
  // ---------------------------------------------------------------------

  /** How a browser's style object reads back an opaque colour: `rgb(r, g, b)`
      with decimal channels and one space after each comma. */
  function CssRgb(r: nat, g: nat, b: nat): (s: string)
    ensures IsRgbText(s)
  {
    var m := RgbMatch(ToDecimal(r), " ", ToDecimal(g), " ", ToDecimal(b));
    assert WellFormed(m);
    Render(m)
  }

  /** The channels of a `#rrggbb` colour, the only format a colour input
      produces; `None` for any other string. */
  function ParseHexColour(s: string): (r: Option<(nat, nat, nat)>)
    ensures r.Some? ==> r.value.0 < 256 && r.value.1 < 256 && r.value.2 < 256
  {
    if |s| == 7 && s[0] == '#' && AllHex(s[1..]) then
      assert s[1..3] == s[1..][0..2] && s[3..5] == s[1..][2..4] && s[5..7] == s[1..][4..6];
      HexValueOfTwo(s[1..3]);
      HexValueOfTwo(s[3..5]);
      HexValueOfTwo(s[5..7]);
      Some((HexValue(s[1..3]), HexValue(s[3..5]), HexValue(s[5..7])))
    else
      None
  }

  /** Two-digit hexadecimal strings are determined by their value. */
  lemma TwoHexUnique(p: string, q: string)
    requires |p| == 2 && |q| == 2 && AllHex(p) && AllHex(q)
    requires HexValue(p) == HexValue(q)
    ensures p == q
  {
    HexValueOfTwo(p);
    HexValueOfTwo(q);
    assert HexDigitValue(p[0]) == HexDigitValue(q[0]);
    assert HexDigitValue(p[1]) == HexDigitValue(q[1]);
  }

  /** Two `#rrggbb` strings with the same three groups are equal. */
  lemma SameGroups(k: string, h: string)
    requires |k| == 7 && |h| == 7 && k[0] == h[0]
    requires k[1..3] == h[1..3] && k[3..5] == h[3..5] && k[5..7] == h[5..7]
    ensures k == h
  {
    forall i | 1 <= i < 7
      ensures k[i] == h[i]
    {
      if i < 3 {
        assert k[i] == k[1..3][i - 1];
      } else if i < 5 {
        assert k[i] == k[3..5][i - 3];
      } else {
        assert k[i] == k[5..7][i - 5];
      }
    }
  }

  /** Round trip from channels: the browser's `rgb(r, g, b)` text, converted by
      `rgb2hex`, is a `#rrggbb` colour whose channels are r, g and b. */
  lemma ChannelsRoundTrip(r: nat, g: nat, b: nat)
    requires r < 256 && g < 256 && b < 256
    ensures RgbToHex(CssRgb(r, g, b)).Some?
    ensures ParseHexColour(RgbToHex(CssRgb(r, g, b)).value) == Some((r, g, b))
  {
    var m := RgbMatch(ToDecimal(r), " ", ToDecimal(g), " ", ToDecimal(b));
    assert Render(m) == CssRgb(r, g, b);
    RgbToHexFormat(m);
    ModOfByte(r);
    ModOfByte(g);
    ModOfByte(b);
  }

  /** Round trip from the colour input: a `#rrggbb` colour that the browser
      reads back as `rgb(r, g, b)` is turned by `rgb2hex` into the very same
      `#rrggbb` string. */
  lemma HexColourRoundTrip(h: string)
    requires ParseHexColour(h).Some?
    ensures var (r, g, b) := ParseHexColour(h).value;
      RgbToHex(CssRgb(r, g, b)) == Some(h)
  {
    var (r, g, b) := ParseHexColour(h).value;
    assert h[1..3] == h[1..][0..2] && h[3..5] == h[1..][2..4] && h[5..7] == h[1..][4..6];
    assert AllHex(h[1..3]) && AllHex(h[3..5]) && AllHex(h[5..7]);
    assert r == HexValue(h[1..3]) && g == HexValue(h[3..5]) && b == HexValue(h[5..7]);
    var m := RgbMatch(ToDecimal(r), " ", ToDecimal(g), " ", ToDecimal(b));
    assert Render(m) == CssRgb(r, g, b);
    RgbToHexFormat(m);
    ModOfByte(r);
    ModOfByte(g);
    ModOfByte(b);
    var k := RgbToHex(CssRgb(r, g, b)).value;
    TwoHexUnique(k[1..3], h[1..3]);
    TwoHexUnique(k[3..5], h[3..5]);
    TwoHexUnique(k[5..7], h[5..7]);
    SameGroups(k, h);
  }

  // ---------------------------------------------------------------------
  // Examples
  // ---------------------------------------------------------------------

  lemma CssRed()
    ensures CssRgb(255, 0, 0) == "rgb(255, 0, 0)"
    ensures CssRgb(0, 0, 0) == "rgb(0, 0, 0)"
  {
    assert ToDecimal(25) == "25" by {
      assert ToDecimal(2) == "2";
    }
    assert ToDecimal(255) == "255";
    assert ToDecimal(0) == "0";
  }

  lemma ParseRed()
    ensures ParseHexColour("#ff0000") == Some((255, 0, 0))
    ensures ParseHexColour("#000000") == Some((0, 0, 0))
  {
    HexValueOfTwo("ff");
    HexValueOfTwo("00");
    var red := "#ff0000";
    assert red[1..3] == "ff" && red[3..5] == "00" && red[5..7] == "00";
    var black := "#000000";
    assert black[1..3] == "00" && black[3..5] == "00" && black[5..7] == "00";
  }

  /** `rgb2hex` on the colours the editor meets: red and black as a browser
      reads them back, and a hexadecimal colour, which passes through. */
  lemma ExamplesConvert()
    ensures RgbToHex("#ff0000") == Some("#ff0000")
    ensures RgbToHex("rgb(255, 0, 0)") == Some("#ff0000")
    ensures RgbToHex("rgb(0, 0, 0)") == Some("#000000")
  {
    CssRed();
    ParseRed();
    HexColourRoundTrip("#ff0000");
    HexColourRoundTrip("#000000");
  }

  /** Inputs on which `rgb2hex` throws: an unset colour, a colour name, a
      colour with an alpha channel, and a channel with a sign. */
  lemma ExamplesFail()
    ensures RgbToHex("") == None
    ensures RgbToHex("red") == None
    ensures RgbToHex("rgba(0, 0, 0, 0)") == None
    ensures RgbToHex("rgb(-1, 0, 0)") == None
  {
    var alpha := "rgba(0, 0, 0, 0)";
    assert alpha[..4] != "rgb(" by { assert alpha[3] == 'a'; }
    var signed := "rgb(-1, 0, 0)";
    var tail := signed[4..];
    assert tail[0] == '-';
    assert DigitRun(tail) == 0;
    assert DecimalThen(tail, ',') == None;
  }
}
