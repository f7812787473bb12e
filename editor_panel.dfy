/**
 * The editor panel of the preview: `toHexColor`, which turns a computed CSS colour into the
 * `#rrggbb` form a colour picker shows, and the two handlers that replace the panel's record of
 * the selected element and report the change.
 */
module EditorPanel {
  import opened Wrappers
  import opened Text

  const White := "#ffffff"

  /** The three spellings of "no colour" that show as white. */
  const TransparentForms := {"transparent", "rgba(0, 0, 0, 0)", "rgba(0,0,0,0)"}

  /** What `toHexColor` gives: a colour it resolves itself, or the trimmed, lower-cased text it
    * hands to the browser's named-colour lookup. */
  datatype Colour = Resolved(hex: string) | BrowserLookup(normalised: string)

  /* ---------------------------------------------------------------- the rgb()/rgba() pattern */

  /** One match of `^rgba?\((\s*\d+\s*),(\s*\d+\s*),(\s*\d+\s*)(?:,\s*([\d.]+)\s*)?\)$`: the opening
    * `rgb(` or `rgba(`, the three channel groups and, when present, the alpha part after its comma,
    * each with its surrounding whitespace. */
  datatype RgbMatch = RgbMatch(prefix: string, red: string, green: string, blue: string, alpha: Option<string>)

  /** `\s*\d+\s*`. */
  predicate IntGroup(g: string) {
    Trim(g) != [] && AllDigits(Trim(g))
  }

  /** `\s*[\d.]+\s*`. */
  predicate AlphaGroup(g: string) {
    Trim(g) != [] && AllDigitsOrDots(Trim(g))
  }

  predicate AllDigits(t: string) {
    forall i :: 0 <= i < |t| ==> IsDigit(t[i])
  }

  predicate AllDigitsOrDots(t: string) {
    forall i :: 0 <= i < |t| ==> IsDigit(t[i]) || t[i] == '.'
  }

  predicate WellFormed(m: RgbMatch) {
    && (m.prefix == "rgb(" || m.prefix == "rgba(")
    && IntGroup(m.red) && IntGroup(m.green) && IntGroup(m.blue)
    && (m.alpha.Some? ==> AlphaGroup(m.alpha.value))
  }

  function Groups(m: RgbMatch): seq<string> {
    [m.red, m.green, m.blue] + if m.alpha.Some? then [m.alpha.value] else []
  }

  /** The text a match spans. */
  function Render(m: RgbMatch): string {
    m.prefix + Join(Groups(m), ',') + ")"
  }

  /** The match whose groups are the given three or four comma-separated parts. */
  function FromParts(prefix: string, parts: seq<string>): (m: RgbMatch)
    requires |parts| == 3 || |parts| == 4
    ensures m.prefix == prefix && Groups(m) == parts
  {
    var m := RgbMatch(prefix, parts[0], parts[1], parts[2], if |parts| == 4 then Some(parts[3]) else None);
    assert Groups(m) == parts;
    m
  }

  /** A text that opens with `prefix` and closes with `)` is the prefix, what lies between, and
    * the parenthesis. */
  lemma Reassemble(c: string, prefix: string)
    requires StartsWith(c, prefix) && |c| >= |prefix| + 1 && c[|c| - 1] == ')'
    ensures c == prefix + c[|prefix|..|c| - 1] + ")"
  {
    assert c == c[..|prefix|] + c[|prefix|..|c| - 1] + c[|c| - 1..];
  }

  /** The shape of the pattern without its groups checked: `rgba(` or else `rgb(`, a closing `)`,
    * and three or four comma-separated parts between them. */
  function Candidate(c: string): (r: Option<RgbMatch>)
    ensures r.Some? ==> (r.value.prefix == "rgb(" || r.value.prefix == "rgba(") && Render(r.value) == c
  {
    var prefix := if StartsWith(c, "rgba(") then "rgba(" else "rgb(";
    if !StartsWith(c, prefix) || |c| < |prefix| + 1 || c[|c| - 1] != ')' then None
    else
      var body := c[|prefix|..|c| - 1];
      var parts := Split(body, ',');
      if |parts| == 3 || |parts| == 4 then
        Reassemble(c, prefix);
        Some(FromParts(prefix, parts))
      else None
  }

  /** Matching the pattern against `c`: when it succeeds, the groups it reports are well formed
    * and spell out `c` exactly. */
  function MatchRgb(c: string): (r: Option<RgbMatch>)
    ensures r.Some? ==> WellFormed(r.value) && Render(r.value) == c
  {
    match Candidate(c)
    case Some(m) => if WellFormed(m) then Some(m) else None
    case None => None
  }

  /** A group holds no comma: every character of it is whitespace, a digit or (in the alpha
    * part) a dot. */
  lemma GroupHasNoComma(g: string, dots: bool)
    requires if dots then AlphaGroup(g) else IntGroup(g)
    ensures ',' !in g
  {
    var t := Trim(g);
    assert ',' !in t by {
      forall i | 0 <= i < |t|
        ensures t[i] != ','
      {
        assert IsDigit(t[i]) || t[i] == '.';
      }
    }
    assert !IsWhitespace(',');
    NotInTrimmed(g, ',');
  }

  /** The text of a match opens with its prefix, which `Candidate` picks, and closes with `)`
    * after the joined groups. */
  lemma RenderShape(m: RgbMatch)
    requires m.prefix == "rgb(" || m.prefix == "rgba("
    ensures var c := Render(m);
      && (if StartsWith(c, "rgba(") then "rgba(" else "rgb(") == m.prefix
      && StartsWith(c, m.prefix) && |c| >= |m.prefix| + 1 && c[|c| - 1] == ')'
      && c[|m.prefix|..|c| - 1] == Join(Groups(m), ',')
  {
    var c := Render(m);
    var body := Join(Groups(m), ',');
    assert c == m.prefix + body + ")";
    if m.prefix == "rgb(" {
      assert c[3] == '(';
      assert !StartsWith(c, "rgba(");
    } else {
      assert c[..5] == "rgba(";
    }
    assert c[|m.prefix|..|c| - 1] == body;
  }

  /** The candidate read off the text of a match with comma-free groups is that match. */
  lemma CandidateOfRender(m: RgbMatch)
    requires m.prefix == "rgb(" || m.prefix == "rgba("
    requires forall k :: 0 <= k < |Groups(m)| ==> ',' !in Groups(m)[k]
    ensures Candidate(Render(m)) == Some(m)
  {
    RenderShape(m);
    SplitJoin(Groups(m), ',');
    assert FromParts(m.prefix, Groups(m)) == m;
  }

  /** The groups of a match whose fields are comma-free are comma-free. */
  lemma GroupsHaveNoComma(m: RgbMatch)
    requires ',' !in m.red && ',' !in m.green && ',' !in m.blue
    requires m.alpha.Some? ==> ',' !in m.alpha.value
    ensures forall k :: 0 <= k < |Groups(m)| ==> ',' !in Groups(m)[k]
  {
  }

  /** Every text the pattern matches is found by `MatchRgb`, with the same groups. */
  lemma MatchRgbComplete(m: RgbMatch)
    requires WellFormed(m)
    ensures MatchRgb(Render(m)) == Some(m)
  {
    GroupHasNoComma(m.red, false);
    GroupHasNoComma(m.green, false);
    GroupHasNoComma(m.blue, false);
    if m.alpha.Some? {
      GroupHasNoComma(m.alpha.value, true);
    }
    GroupsHaveNoComma(m);
    CandidateOfRender(m);
  }

  /* ---------------------------------------------------------------- numbers and hex digits */

  /** The value of a string of decimal digits. */
  function DigitsValue(s: string): nat {
    if s == [] then 0 else DigitsValue(s[..|s| - 1]) * 10 + (if IsDigit(s[|s| - 1]) then s[|s| - 1] as int - '0' as int else 0)
  }

  /** `parseInt` of a channel group: leading whitespace is skipped and the digits read. */
  function ParseChannel(g: string): nat {
    DigitsValue(Trim(g))
  }

  /** `Math.max(0, Math.min(255, n))`. */
  function Clamp(n: int): (r: int)
    ensures 0 <= r <= 255
    ensures 0 <= n <= 255 ==> r == n
    ensures n > 255 ==> r == 255
    ensures n < 0 ==> r == 0
  {
    if n > 255 then 255 else if n < 0 then 0 else n
  }

  predicate IsLowerHexDigit(c: char) {
    '0' <= c <= '9' || 'a' <= c <= 'f'
  }

  function HexDigit(d: nat): (c: char)
    requires d < 16
    ensures IsLowerHexDigit(c)
  {
    "0123456789abcdef"[d]
  }

  function HexDigitValue(c: char): nat {
    if '0' <= c <= '9' then c as int - '0' as int
    else if 'a' <= c <= 'f' then c as int - 'a' as int + 10
    else 0
  }

  /** The value of a string of hexadecimal digits, as a reader of the colour would take it. */
  function HexValue(s: string): nat {
    if s == [] then 0 else HexValue(s[..|s| - 1]) * 16 + HexDigitValue(s[|s| - 1])
  }

  /** `n.toString(16)`: the shortest lower-case hexadecimal numeral of `n`. */
  function HexString(n: nat): (s: string)
    ensures s != []
    ensures forall i :: 0 <= i < |s| ==> IsLowerHexDigit(s[i])
    ensures HexValue(s) == n
    ensures n < 16 ==> |s| == 1
    ensures 16 <= n < 256 ==> |s| == 2
  {
    if n < 16 then
      assert HexDigitValue(HexDigit(n)) == n by { assert "0123456789abcdef"[n] == HexDigit(n); }
      [HexDigit(n)]
    else
      var high := HexString(n / 16);
      var s := high + [HexDigit(n % 16)];
      assert s[..|s| - 1] == high;
      assert HexDigitValue(HexDigit(n % 16)) == n % 16 by { assert "0123456789abcdef"[n % 16] == HexDigit(n % 16); }
      s
  }

  /** `s.padStart(width, fill)` with a one-character fill. */
  function PadStart(s: string, width: nat, fill: char): string
    decreases width - |s|
  {
    if |s| >= width then s else PadStart([fill] + s, width, fill)
  }

  /** Padding reaches the width, or keeps a text already that long, by putting only fill characters
    * in front of the text. */
  lemma {:induction false} PadStartShape(s: string, width: nat, fill: char)
    ensures var r := PadStart(s, width, fill);
      && |r| == (if |s| >= width then |s| else width)
      && r[|r| - |s|..] == s
      && forall i :: 0 <= i < |r| - |s| ==> r[i] == fill
    decreases width - |s|
  {
    if |s| < width {
      PadStartShape([fill] + s, width, fill);
      var r := PadStart(s, width, fill);
      assert r == PadStart([fill] + s, width, fill);
      assert r[|r| - |s| - 1..] == [fill] + s;
      assert r[|r| - |s|..] == r[|r| - |s| - 1..][1..];
    }
  }

  /** The inner `toHex`: two lower-case hexadecimal digits for a channel value. */
  function ToHex(n: nat): (h: string)
    requires n <= 255
    ensures |h| == 2 && IsLowerHexDigit(h[0]) && IsLowerHexDigit(h[1])
    ensures HexValue(h) == n
  {
    var s := HexString(n);
    if |s| == 1 then
      PadOne(s);
      assert (['0'] + s)[..1] == ['0'];
      PadStart(s, 2, '0')
    else
      PadStart(s, 2, '0')
  }

  /** Padding one digit to two puts a `0` in front of it. */
  lemma PadOne(s: string)
    requires |s| == 1
    ensures PadStart(s, 2, '0') == ['0'] + s
  {
    assert PadStart(['0'] + s, 2, '0') == ['0'] + s;
  }

  /** A channel above 255 is clamped and shown as `ff`. */
  lemma SaturatedChannelIsFF(n: int)
    requires n > 255
    ensures ToHex(Clamp(n)) == "ff"
  {
    assert HexString(15) == "f";
    assert HexString(255) == HexString(15) + [HexDigit(15)];
  }

  /** `#${toHex(r)}${toHex(g)}${toHex(b)}`. */
  function HexTriple(r: nat, g: nat, b: nat): (h: string)
    requires r <= 255 && g <= 255 && b <= 255
    ensures |h| == 7 && h[0] == '#'
    ensures forall i :: 1 <= i < 7 ==> IsLowerHexDigit(h[i])
    ensures HexValue(h[1..3]) == r && HexValue(h[3..5]) == g && HexValue(h[5..7]) == b
  {
    var x, y, z := ToHex(r), ToHex(g), ToHex(b);
    HashAndPairs(x, y, z);
    "#" + x + y + z
  }

  /** `#` followed by three pairs of hex digits: every character after the `#` is a hex digit,
    * and each pair sits at its place. */
  lemma HashAndPairs(x: string, y: string, z: string)
    requires |x| == 2 && |y| == 2 && |z| == 2
    requires IsLowerHexDigit(x[0]) && IsLowerHexDigit(x[1]) && IsLowerHexDigit(y[0])
    requires IsLowerHexDigit(y[1]) && IsLowerHexDigit(z[0]) && IsLowerHexDigit(z[1])
    ensures var h := "#" + x + y + z;
      && |h| == 7 && h[0] == '#'
      && (forall i :: 1 <= i < 7 ==> IsLowerHexDigit(h[i]))
      && h[1..3] == x && h[3..5] == y && h[5..7] == z
  {
    var h := "#" + x + y + z;
    assert h == ['#', x[0], x[1], y[0], y[1], z[0], z[1]];
    forall i | 1 <= i < 7
      ensures IsLowerHexDigit(h[i])
    {
      if i < 3 {
        assert h[i] == x[i - 1];
      } else if i < 5 {
        assert h[i] == y[i - 3];
      } else {
        assert h[i] == z[i - 5];
      }
    }
  }

  /* ---------------------------------------------------------------- toHexColor */

  /** A text whose first character is `#` is in `#` form. */
  lemma HashFirst(h: string)
    requires |h| >= 1 && h[0] == '#'
    ensures StartsWith(h, "#")
  {
    assert h[..1] == [h[0]];
  }

  /** The colour text `toHexColor` works on: trimmed and lower-cased. */
  function Normalise(color: string): (c: string)
    ensures |c| == |Trim(color)| <= |color| && NoUpperCase(c)
    ensures var t := Trim(color);
      forall i :: 0 <= i < |t| ==>
        if 'A' <= t[i] <= 'Z' then c[i] as int - 'a' as int == t[i] as int - 'A' as int else c[i] == t[i]
  {
    ToLower(Trim(color))
  }

  /** `toHexColor`, up to the browser's named-colour lookup: what it resolves is in `#` form, and
    * what it cannot resolve goes to the lookup trimmed and lower-cased. */
  function ToHexColor(color: string): (r: Colour)
    ensures color == "" ==> r == Resolved(White)
    ensures r.Resolved? ==> StartsWith(r.hex, "#")
    ensures r.BrowserLookup? ==> r.normalised == Normalise(color)
  {
    if color == "" then
      assert White[..1] == "#";
      Resolved(White)
    else Resolve(Normalise(color))
  }

  /** What `toHexColor` makes of the normalised text `c`: the lookup is reached only by a text
    * that is no spelling of transparent, not in `#` form and not matched by the pattern. */
  function Resolve(c: string): (r: Colour)
    ensures r.Resolved? ==> StartsWith(r.hex, "#")
    ensures r.BrowserLookup? <==> c !in TransparentForms && !StartsWith(c, "#") && MatchRgb(c).None?
    ensures r.BrowserLookup? ==> r.normalised == c
  {
    if c in TransparentForms then
      assert White[..1] == "#";
      Resolved(White)
    else if StartsWith(c, "#") then Resolved(c)
    else match MatchRgb(c)
      case Some(m) =>
        var h := HexTriple(Clamp(ParseChannel(m.red)), Clamp(ParseChannel(m.green)), Clamp(ParseChannel(m.blue)));
        HashFirst(h);
        Resolved(h)
      case None => BrowserLookup(c)
  }

  /** No input gives white; transparent in any of its three spellings, once trimmed and
    * lower-cased, gives white too. */
  lemma NoColourIsWhite(color: string)
    requires color == "" || Normalise(color) in TransparentForms
    ensures ToHexColor(color) == Resolved(White)
  {
  }

  /** A text that starts with `#`, or has `(` as its fourth character, is none of the spellings
    * of transparent. */
  lemma NotTransparent(c: string)
    requires (|c| > 0 && c[0] == '#') || (|c| > 3 && c[3] == '(')
    ensures c !in TransparentForms
  {
    assert "transparent"[0] == 't' && "transparent"[3] == 'n';
    assert "rgba(0, 0, 0, 0)"[0] == 'r' && "rgba(0, 0, 0, 0)"[3] == 'a';
    assert "rgba(0,0,0,0)"[0] == 'r' && "rgba(0,0,0,0)"[3] == 'a';
  }

  /** A colour already in `#` form is only trimmed and lower-cased, not checked. */
  lemma HashPassesThrough(color: string)
    requires StartsWith(Normalise(color), "#")
    ensures ToHexColor(color) == Resolved(Normalise(color))
  {
    var c := Normalise(color);
    assert color != "";
    ResolveHash(c);
  }

  /** `Resolve` returns a text in `#` form as it is. */
  lemma ResolveHash(c: string)
    requires StartsWith(c, "#")
    ensures Resolve(c) == Resolved(c)
  {
    assert c[0] == '#';
    NotTransparent(c);
  }

  /** The text of a match starts with `r`, so it is not in `#` form. */
  lemma RenderIsNotHash(m: RgbMatch)
    requires m.prefix == "rgb(" || m.prefix == "rgba("
    ensures !StartsWith(Render(m), "#")
  {
    assert Render(m)[0] == m.prefix[0] == 'r';
  }

  /** An `rgb()` or `rgba()` colour becomes `#` and six lower-case hex digits, each pair the
    * clamped value of its channel; the alpha part is not read. */
  lemma RgbBecomesHex(color: string, m: RgbMatch)
    requires MatchRgb(Normalise(color)) == Some(m)
    requires Normalise(color) !in TransparentForms
    ensures ToHexColor(color).Resolved?
    ensures var h := ToHexColor(color).hex;
      && |h| == 7 && h[0] == '#' && (forall i :: 1 <= i < 7 ==> IsLowerHexDigit(h[i]))
      && HexValue(h[1..3]) == Clamp(ParseChannel(m.red))
      && HexValue(h[3..5]) == Clamp(ParseChannel(m.green))
      && HexValue(h[5..7]) == Clamp(ParseChannel(m.blue))
  {
    var c := Normalise(color);
    RenderIsNotHash(m);
    assert c != [];
  }

  /** `n.toString()` for a whole number: its decimal numeral. */
  function Decimal(n: nat): (s: string)
    ensures s != [] && AllDigits(s)
    ensures DigitsValue(s) == n
  {
    if n < 10 then
      assert DigitsValue([('0' as int + n) as char]) == n;
      [('0' as int + n) as char]
    else
      var s := Decimal(n / 10) + [('0' as int + n % 10) as char];
      assert s[..|s| - 1] == Decimal(n / 10);
      s
  }

  /** Trimmed digits are a channel group, read as their decimal value. */
  lemma TrimmedDigitsAreGroup(s: string)
    requires IsTrimmed(s) && s != [] && AllDigits(s)
    ensures IntGroup(s) && ParseChannel(s) == DigitsValue(s)
  {
    TrimmedIsFixed(s);
  }

  /** A decimal numeral is a channel group whose value is the number. */
  lemma DecimalIsGroup(n: nat)
    ensures IntGroup(Decimal(n)) && ParseChannel(Decimal(n)) == n && NoUpperCase(Decimal(n))
  {
    var s := Decimal(n);
    DigitIsNotWhitespace(s[0]);
    DigitIsNotWhitespace(s[|s| - 1]);
    TrimmedDigitsAreGroup(s);
  }

  /** `rgb(x,y,z)`, written without spaces. */
  function RgbText(x: string, y: string, z: string): string {
    "rgb(" + x + "," + y + "," + z + ")"
  }

  lemma RenderRgbText(x: string, y: string, z: string)
    ensures Render(RgbMatch("rgb(", x, y, z, None)) == RgbText(x, y, z)
  {
    var m := RgbMatch("rgb(", x, y, z, None);
    assert Groups(m) == [x, y, z];
    assert [x, y, z][1..] == [y, z] && [y, z][1..] == [z];
    assert Join([y, z], ',') == y + [','] + z;
    assert Join([x, y, z], ',') == x + [','] + (y + [','] + z);
    assert "," == [','];
  }

  /** `rgb(x,y,z)` over digit strings is already trimmed and lower case. */
  lemma RgbTextIsNormal(x: string, y: string, z: string)
    requires NoUpperCase(x) && NoUpperCase(y) && NoUpperCase(z)
    ensures Normalise(RgbText(x, y, z)) == RgbText(x, y, z)
  {
    var s := RgbText(x, y, z);
    assert s[0] == 'r' && s[|s| - 1] == ')';
    assert !IsWhitespace('r') && !IsWhitespace(')');
    TrimmedIsFixed(s);
    assert NoUpperCase("rgb(") && NoUpperCase(",") && NoUpperCase(")");
    NoUpperConcat("rgb(", x);
    NoUpperConcat("rgb(" + x, ",");
    NoUpperConcat("rgb(" + x + ",", y);
    NoUpperConcat("rgb(" + x + "," + y, ",");
    NoUpperConcat("rgb(" + x + "," + y + ",", z);
    NoUpperConcat("rgb(" + x + "," + y + "," + z, ")");
  }

  lemma RgbTextOpens(x: string, y: string, z: string)
    ensures |RgbText(x, y, z)| > 3 && RgbText(x, y, z)[3] == '('
  {
    var rest := x + "," + y + "," + z + ")";
    assert RgbText(x, y, z) == "rgb(" + rest;
    assert ("rgb(" + rest)[3] == "rgb("[3];
  }

  /** Round trip: the hex digit pairs of `toHexColor("rgb(r,g,b)")` read back as r, g and b. */
  lemma RgbRoundTrip(r: nat, g: nat, b: nat)
    requires r <= 255 && g <= 255 && b <= 255
    ensures var colour := ToHexColor(RgbText(Decimal(r), Decimal(g), Decimal(b)));
      && colour.Resolved? && |colour.hex| == 7 && colour.hex[0] == '#'
      && HexValue(colour.hex[1..3]) == r && HexValue(colour.hex[3..5]) == g && HexValue(colour.hex[5..7]) == b
  {
    var m := RgbMatch("rgb(", Decimal(r), Decimal(g), Decimal(b), None);
    DecimalIsGroup(r);
    DecimalIsGroup(g);
    DecimalIsGroup(b);
    var s := RgbText(Decimal(r), Decimal(g), Decimal(b));
    RenderRgbText(Decimal(r), Decimal(g), Decimal(b));
    MatchRgbComplete(m);
    RgbTextIsNormal(Decimal(r), Decimal(g), Decimal(b));
    RgbTextOpens(Decimal(r), Decimal(g), Decimal(b));
    NotTransparent(s);
    RgbBecomesHex(s, m);
  }

  lemma NoUpperConcat(a: string, b: string)
    requires NoUpperCase(a) && NoUpperCase(b)
    ensures NoUpperCase(a + b)
  {
    forall i | 0 <= i < |a + b|
      ensures !('A' <= (a + b)[i] <= 'Z')
    {
      if i >= |a| {
        assert (a + b)[i] == b[i - |a|];
      }
    }
  }

  /* ---------------------------------------------------------------- the selected element's record */

  /** The panel's record of the selected element: its top-level text fields (`tagName`, `className`,
    * `text`, ...) and its `styles` object. */
  datatype ElementValues = ElementValues(fields: map<string, string>, styles: map<string, string>)

  class Editor {
    var values: ElementValues

    constructor (selected: ElementValues)
      ensures values == selected
    {
      values := selected;
    }

    /** `handleChange`: set a top-level field, and the style of the same name when there is one;
      * the whole new record is reported. */
    method HandleChange(field: string, value: string) returns (update: ElementValues)
      requires field != "styles"
      modifies this
      ensures values.fields == old(values).fields[field := value]
      ensures values.styles == if field in old(values).styles then old(values).styles[field := value] else old(values).styles
      ensures update == values
    {
      var newValues := ElementValues(values.fields[field := value], values.styles);
      if field in values.styles {
        newValues := newValues.(styles := values.styles[field := value]);
      }
      values := newValues;
      update := newValues;
    }

    /** `handleStyleChange`: set one style and report only that style. */
    method HandleStyleChange(styleName: string, value: string) returns (update: ElementValues)
      modifies this
      ensures values == old(values).(styles := old(values).styles[styleName := value])
      ensures update == ElementValues(map[], map[styleName := value])
    {
      values := values.(styles := values.styles[styleName := value]);
      update := ElementValues(map[], map[styleName := value]);
    }
  }
}
