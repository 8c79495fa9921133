/** The `colorx` subcommand: classify a colour written in hex or RGB notation
    and convert it to the other notation. */
module Colorx {
  import opened Text
  import opened RustStr

  // ---------------------------------------------------------------------------
  // Hex notation
  // ---------------------------------------------------------------------------

  /** The text of one match of `#[a-fA-F0-9]{3}|#[a-fA-F0-9]{6}`. */
  predicate IsHexToken(t: string)
  {
    (|t| == 4 || |t| == 7) && t[0] == '#' && AllHexDigits(t[1..])
  }

  /** `is_hex_value`. The pattern `(#[a-fA-F0-9]{3}|#[a-fA-F0-9]{6})$` is
      searched for anywhere in the string and is anchored at the end only, so
      it is enough that the string ends in a hex token. */
  predicate IsHexValue(color: string)
  {
    (|color| >= 4 && IsHexToken(color[|color| - 4..]))
    || (|color| >= 7 && IsHexToken(color[|color| - 7..]))
  }

  /** The recogniser is the regular-expression search: some match of the
      pattern ends where the string ends. */
  lemma IsHexValueIsEndAnchoredSearch(color: string)
    ensures IsHexValue(color) <==> exists i :: 0 <= i <= |color| && IsHexToken(color[i..])
  {
    if exists i :: 0 <= i <= |color| && IsHexToken(color[i..]) {
      var i :| 0 <= i <= |color| && IsHexToken(color[i..]);
      assert i == |color| - 4 || i == |color| - 7;
    }
  }

  lemma HexValueAccepts()
    ensures IsHexValue("#fff") && IsHexValue("#A0b1C2")
  {
    assert "#fff"[4 - 4..] == "#fff";
    assert "#A0b1C2"[7 - 7..] == "#A0b1C2";
  }

  /** Text before the token does not matter, even another `#`. */
  lemma HexValueAcceptsPrefixed()
    ensures IsHexValue("x#fff") && IsHexValue("##abc")
  {
    assert "x#fff"[1..] == "#fff";
    assert "##abc"[1..] == "#abc";
  }

  lemma HexValueRejects()
    ensures !IsHexValue("#ab") && !IsHexValue("#abcd") && !IsHexValue("abc")
  {
    assert "#abcd"[1..] == "abcd";
  }

  /** What `u8::from_str_radix(p, 16)` accepts in two characters: two hex
      digits, or a `+` sign and one hex digit. */
  predicate IsHexByteText(p: string)
    requires |p| == 2
  {
    AllHexDigits(p) || (p[0] == '+' && IsHexDigit(p[1]))
  }

  lemma FromStrRadixU8HexPair(p: string)
    requires |p| == 2
    ensures FromStrRadixU8(p, 16).Some? <==> IsHexByteText(p)
    ensures AllHexDigits(p) ==> FromStrRadixU8(p, 16) == Some(HexValue(p))
  {
    HexValueOfPair(p);
    if p[0] == '+' {
      HexValueOfOne(p[1..]);
    }
  }

  /** A doubled character is a byte in hex exactly when it is a hex digit. */
  lemma FromStrRadixU8Doubled(c: char)
    ensures FromStrRadixU8([c, c], 16).Some? <==> IsHexDigit(c)
  {
    FromStrRadixU8HexPair([c, c]);
    assert [c, c][0] == c;
  }

  datatype Rgb = Rgb(red: nat, green: nat, blue: nat)

  predicate IsBytes(c: Rgb) { c.red < 256 && c.green < 256 && c.blue < 256 }

  /** `format!("rgb({}, {}, {})", r, g, b)`. */
  function RgbText(c: Rgb): string
  {
    "rgb(" + (Decimal(c.red) + ", " + Decimal(c.green) + ", " + Decimal(c.blue)) + ")"
  }

  /** The three `unwrap`s; `None` where one of them panics. */
  function Unwrapped(red: Option<nat>, green: Option<nat>, blue: Option<nat>): Option<Rgb>
  {
    if red.Some? && green.Some? && blue.Some? then Some(Rgb(red.value, green.value, blue.value)) else None
  }

  /** The bytes `convert_hex_to_rgb` reads from the text left after the `#`s:
      three characters are doubled, otherwise the first six are cut into
      pairs, and each pair goes through `u8::from_str_radix(_, 16)`. */
  function HexComponents(raw: string): (r: Option<Rgb>)
    ensures r.Some? ==> IsBytes(r.value)
  {
    if |raw| == 3 then
      Unwrapped(FromStrRadixU8([raw[0], raw[0]], 16),
                FromStrRadixU8([raw[1], raw[1]], 16),
                FromStrRadixU8([raw[2], raw[2]], 16))
    else if |raw| < 6 then None
    else
      Unwrapped(FromStrRadixU8(raw[..2], 16), FromStrRadixU8(raw[2..4], 16), FromStrRadixU8(raw[4..6], 16))
  }

  /** `convert_hex_to_rgb`; `None` stands for a panic. Every leading `#` is
      stripped first. The source tests and slices by BYTE length; on every
      input where it does not panic the characters it reads are ASCII, so the
      test by character count takes the same branch and yields the same
      result. */
  function ConvertHexToRgb(hex: string): Option<string>
  {
    match HexComponents(TrimStartMatches(hex, "#"))
    case None => None
    case Some(c) => Some(RgbText(c))
  }

  lemma HexComponentsOfThree(raw: string)
    requires |raw| == 3
    ensures HexComponents(raw).Some? <==> AllHexDigits(raw)
  {
    FromStrRadixU8Doubled(raw[0]);
    FromStrRadixU8Doubled(raw[1]);
    FromStrRadixU8Doubled(raw[2]);
    assert AllHexDigits(raw) <==> IsHexDigit(raw[0]) && IsHexDigit(raw[1]) && IsHexDigit(raw[2]);
  }

  lemma HexComponentsOfSix(raw: string)
    requires |raw| >= 6
    ensures HexComponents(raw).Some? <==>
      IsHexByteText(raw[..2]) && IsHexByteText(raw[2..4]) && IsHexByteText(raw[4..6])
  {
    FromStrRadixU8HexPair(raw[..2]);
    FromStrRadixU8HexPair(raw[2..4]);
    FromStrRadixU8HexPair(raw[4..6]);
  }

  /** Exactly when the conversion does not panic. This is stricter than
      `is_hex_value` on one side (`x#fff` is recognised, yet it keeps all five
      characters, too few for the slice `[4..6]`; `xy#fff` is recognised, yet
      its first pair `xy` is no byte), and looser on the other: after
      the leading `#`s any text of six or more characters whose first three
      pairs parse is converted, and the rest is ignored. */
  lemma ConvertHexToRgbDefined(hex: string)
    ensures var raw := TrimStartMatches(hex, "#");
      ConvertHexToRgb(hex).Some? <==>
        (|raw| == 3 && AllHexDigits(raw))
        || (|raw| >= 6 && IsHexByteText(raw[..2]) && IsHexByteText(raw[2..4]) && IsHexByteText(raw[4..6]))
  {
    var raw := TrimStartMatches(hex, "#");
    if |raw| == 3 {
      HexComponentsOfThree(raw);
    } else if |raw| >= 6 {
      HexComponentsOfSix(raw);
    }
  }

  lemma StripOneHash(d: string)
    requires |d| > 0 && d[0] != '#'
    ensures TrimStartMatches("#" + d, "#") == d
  {
    assert ("#" + d)[..1] == "#";
    assert ("#" + d)[1..] == d;
    assert !StartsWith(d, "#");
  }

  /** Six hex digits: the values of the pairs at offsets 0, 2 and 4, in that order. */
  lemma SixDigitHexComponents(d: string)
    requires |d| == 6 && AllHexDigits(d)
    ensures HexComponents(d) == Some(Rgb(HexValue(d[..2]), HexValue(d[2..4]), HexValue(d[4..6])))
  {
    FromStrRadixU8HexPair(d[..2]);
    FromStrRadixU8HexPair(d[2..4]);
    FromStrRadixU8HexPair(d[4..6]);
  }

  /** `#` and six hex digits are converted to the values of the three pairs. */
  lemma SixDigitHexToRgb(d: string)
    requires |d| == 6 && AllHexDigits(d)
    ensures ConvertHexToRgb("#" + d) == Some(RgbText(Rgb(HexValue(d[..2]), HexValue(d[2..4]), HexValue(d[4..6]))))
  {
    StripOneHash(d);
    SixDigitHexComponents(d);
  }

  /** A three-digit hex colour is the six-digit colour with each digit doubled. */
  lemma ThreeDigitHexExpands(d: string)
    requires |d| == 3 && AllHexDigits(d)
    ensures ConvertHexToRgb("#" + d).Some?
    ensures ConvertHexToRgb("#" + d) == ConvertHexToRgb("#" + [d[0], d[0], d[1], d[1], d[2], d[2]])
  {
    var six := [d[0], d[0], d[1], d[1], d[2], d[2]];
    StripOneHash(d);
    StripOneHash(six);
    HexComponentsOfThree(d);
    assert six[..2] == [d[0], d[0]] && six[2..4] == [d[1], d[1]] && six[4..6] == [d[2], d[2]];
  }

  // ---------------------------------------------------------------------------
  // RGB notation
  // ---------------------------------------------------------------------------

  /** One `(25[0-5]|2[0-4][0-9]|[01]?[0-9]?[0-9])`: one to three decimal
      digits with a value of at most 255 (leading zeros allowed). */
  predicate IsComponent(d: string)
  {
    1 <= |d| <= 3 && AllDigits(d) && DecimalValue(d) <= 255
  }

  /** The component predicate is the pattern's three alternatives. */
  lemma IsComponentIsAlternation(d: string)
    ensures IsComponent(d) <==>
      (|d| == 3 && d[0] == '2' && d[1] == '5' && '0' <= d[2] <= '5')
      || (|d| == 3 && d[0] == '2' && '0' <= d[1] <= '4' && IsDigit(d[2]))
      || (1 <= |d| <= 3 && AllDigits(d) && (|d| == 3 ==> d[0] == '0' || d[0] == '1'))
  {
    if |d| == 1 {
      DecimalValueOfOne(d);
    } else if |d| == 2 {
      DecimalValueOfPair(d);
    } else if |d| == 3 {
      DecimalValueOfTriple(d);
    }
  }

  /** The separator between two components: `,` optionally followed by one
      space (first alternative of the pattern), or one space (second). */
  datatype Separator = Comma(spaceAfter: bool) | Space

  /** The three components as written and the two separators between them. */
  datatype Components = Components(red: string, sep1: Separator, green: string, sep2: Separator, blue: string)

  /** The choices the pattern of `is_rgb_value` leaves open for one string:
      the optional `rgb(`, the optional space before the first component,
      the components and the optional `)`. */
  datatype RgbSpelling = RgbSpelling(prefixed: bool, leadingSpace: bool, body: Components, closed: bool)

  /** Both separators come from the same alternative of the pattern. */
  predicate ValidComponents(c: Components)
  {
    IsComponent(c.red) && IsComponent(c.green) && IsComponent(c.blue) && (c.sep1.Comma? <==> c.sep2.Comma?)
  }

  predicate ValidSpelling(f: RgbSpelling) { ValidComponents(f.body) }

  function SeparatorText(sep: Separator): string
  {
    match sep
    case Comma(spaceAfter) => if spaceAfter then ", " else ","
    case Space => " "
  }

  function ComponentsText(c: Components): string
  {
    c.red + SeparatorText(c.sep1) + c.green + SeparatorText(c.sep2) + c.blue
  }

  function OpenText(prefixed: bool): string { if prefixed then "rgb(" else "" }

  function LeadText(leadingSpace: bool): string { if leadingSpace then " " else "" }

  function CloseText(closed: bool): string { if closed then ")" else "" }

  /** The string a spelling stands for: the pattern
      `^(?:rgb\()? ?C(?:, ?C){2}\)?$|^(?:rgb\()? ?C(?: C){2}\)?$` read left
      to right with the choices of `f`. */
  function Spell(f: RgbSpelling): string
  {
    OpenText(f.prefixed) + LeadText(f.leadingSpace) + ComponentsText(f.body) + CloseText(f.closed)
  }

  lemma ComponentsTextNested(c: Components)
    ensures ComponentsText(c) == c.red + (SeparatorText(c.sep1) + (c.green + (SeparatorText(c.sep2) + c.blue)))
  {
    var s1, s2 := SeparatorText(c.sep1), SeparatorText(c.sep2);
    assert c.red + s1 + c.green + s2 + c.blue == c.red + s1 + c.green + (s2 + c.blue);
    assert c.red + s1 + c.green + (s2 + c.blue) == c.red + s1 + (c.green + (s2 + c.blue));
    assert c.red + s1 + (c.green + (s2 + c.blue)) == c.red + (s1 + (c.green + (s2 + c.blue)));
  }

  /** The digit run that starts `s`, when it is a component, and what follows it. */
  function TakeComponent(s: string): Option<(string, string)>
  {
    var n := DigitRun(s);
    if 1 <= n <= 3 && DecimalValue(s[..n]) <= 255 then Some((s[..n], s[n..])) else None
  }

  /** The separator that starts `s`. A space after a comma belongs to the
      separator, as the next component must start with a digit. */
  function TakeSeparator(s: string): Option<(Separator, string)>
  {
    if |s| > 0 && s[0] == ',' then
      if |s| > 1 && s[1] == ' ' then Some((Comma(true), s[2..])) else Some((Comma(false), s[1..]))
    else if |s| > 0 && s[0] == ' ' then Some((Space, s[1..]))
    else None
  }

  /** A component followed by a separator. */
  function TakeItem(s: string): Option<(string, Separator, string)>
  {
    match TakeComponent(s)
    case None => None
    case Some((d, rest)) =>
      match TakeSeparator(rest)
      case None => None
      case Some((sep, rest')) => Some((d, sep, rest'))
  }

  /** The three components and the two separators that make up all of `body`. */
  function ParseComponents(body: string): Option<Components>
  {
    match TakeItem(body)
    case None => None
    case Some((red, sep1, rest1)) =>
      match TakeItem(rest1)
      case None => None
      case Some((green, sep2, blue)) =>
        if IsComponent(blue) && (sep1.Comma? <==> sep2.Comma?)
        then Some(Components(red, sep1, green, sep2, blue))
        else None
  }

  /** The optional `rgb(` at the start. */
  function StripOpen(color: string): (bool, string)
  {
    if StartsWith(color, "rgb(") then (true, color[4..]) else (false, color)
  }

  /** The optional space before the first component. */
  function StripLead(a: string): (bool, string)
  {
    if |a| > 0 && a[0] == ' ' then (true, a[1..]) else (false, a)
  }

  /** The optional `)` at the end. */
  function StripClose(b: string): (bool, string)
  {
    if |b| > 0 && b[|b| - 1] == ')' then (true, b[..|b| - 1]) else (false, b)
  }

  /** Reads the pattern of `is_rgb_value` off a string. Each optional part is
      forced: a component starts and ends with a digit, so an `rgb(` at the
      start, a space after it and a `)` at the end can only be those parts. */
  function ParseRgb(color: string): Option<RgbSpelling>
  {
    var (prefixed, a) := StripOpen(color);
    var (leadingSpace, b) := StripLead(a);
    var (closed, body) := StripClose(b);
    match ParseComponents(body)
    case None => None
    case Some(c) => Some(RgbSpelling(prefixed, leadingSpace, c, closed))
  }

  /** `is_rgb_value`. */
  predicate IsRgbValue(color: string)
  {
    ParseRgb(color).Some?
  }

  lemma TakeComponentSound(s: string)
    requires TakeComponent(s).Some?
    ensures IsComponent(TakeComponent(s).value.0)
    ensures s == TakeComponent(s).value.0 + TakeComponent(s).value.1
  {
    var n := DigitRun(s);
    assert AllDigits(s[..n]);
  }

  lemma TakeSeparatorSound(s: string)
    requires TakeSeparator(s).Some?
    ensures s == SeparatorText(TakeSeparator(s).value.0) + TakeSeparator(s).value.1
  {
  }

  lemma TakeItemSound(s: string)
    requires TakeItem(s).Some?
    ensures var (d, sep, rest) := TakeItem(s).value;
      IsComponent(d) && s == d + (SeparatorText(sep) + rest)
  {
    TakeComponentSound(s);
    var (d, rest) := TakeComponent(s).value;
    TakeSeparatorSound(rest);
  }

  /** What the parser reads off a body is a valid reading of all of it. */
  lemma ParseComponentsSound(body: string)
    requires ParseComponents(body).Some?
    ensures ValidComponents(ParseComponents(body).value)
    ensures ComponentsText(ParseComponents(body).value) == body
  {
    TakeItemSound(body);
    var (red, sep1, rest1) := TakeItem(body).value;
    TakeItemSound(rest1);
    ComponentsTextNested(ParseComponents(body).value);
  }

  lemma TakeComponentOf(d: string, rest: string)
    requires IsComponent(d) && (rest == [] || !IsDigit(rest[0]))
    ensures TakeComponent(d + rest) == Some((d, rest))
  {
    DigitRunOfDigits(d, rest);
    assert (d + rest)[..|d|] == d && (d + rest)[|d|..] == rest;
  }

  lemma TakeSeparatorOf(sep: Separator, rest: string)
    requires |rest| > 0 && IsDigit(rest[0])
    ensures TakeSeparator(SeparatorText(sep) + rest) == Some((sep, rest))
  {
    var s := SeparatorText(sep) + rest;
    assert s[|SeparatorText(sep)|..] == rest;
    assert s[|SeparatorText(sep)|] == rest[0];
  }

  lemma TakeItemOf(d: string, sep: Separator, rest: string)
    requires IsComponent(d) && |rest| > 0 && IsDigit(rest[0])
    ensures TakeItem(d + (SeparatorText(sep) + rest)) == Some((d, sep, rest))
  {
    var t := SeparatorText(sep) + rest;
    assert t[0] == SeparatorText(sep)[0];
    TakeComponentOf(d, t);
    TakeSeparatorOf(sep, rest);
  }

  /** Every valid body is read back as itself. */
  lemma ParseComponentsOf(c: Components)
    requires ValidComponents(c)
    ensures ParseComponents(ComponentsText(c)) == Some(c)
  {
    ComponentsTextNested(c);
    var tail := SeparatorText(c.sep2) + c.blue;
    assert (c.green + tail)[0] == c.green[0];
    TakeItemOf(c.red, c.sep1, c.green + tail);
    TakeItemOf(c.green, c.sep2, c.blue);
  }

  /** A valid body starts and ends with a digit. */
  lemma ComponentsTextEnds(c: Components)
    requires ValidComponents(c)
    ensures var t := ComponentsText(c); |t| > 0 && IsDigit(t[0]) && IsDigit(t[|t| - 1])
  {
    ComponentsTextNested(c);
    var t := ComponentsText(c);
    assert t[0] == c.red[0];
    assert t[|t| - 1] == c.blue[|c.blue| - 1];
  }

  lemma StripOpenSound(color: string)
    ensures color == OpenText(StripOpen(color).0) + StripOpen(color).1
  {
    if StartsWith(color, "rgb(") {
      assert color == color[..4] + color[4..];
    }
  }

  lemma StripLeadSound(a: string)
    ensures a == LeadText(StripLead(a).0) + StripLead(a).1
  {
    if |a| > 0 && a[0] == ' ' {
      assert a == [a[0]] + a[1..];
    }
  }

  lemma StripCloseSound(b: string)
    ensures b == StripClose(b).1 + CloseText(StripClose(b).0)
  {
    if |b| > 0 && b[|b| - 1] == ')' {
      assert b == b[..|b| - 1] + [b[|b| - 1]];
    }
  }

  lemma Assoc4(o: string, l: string, t: string, c: string)
    ensures o + (l + (t + c)) == o + l + t + c
  {
  }

  lemma Assoc5(a: string, b: string, c: string, d: string, e: string)
    ensures a + b + c + d + e == a + (b + (c + (d + e)))
  {
    Assoc4(b, c, d, e);
  }

  /** What the recogniser reads off a string is a valid spelling of that string. */
  lemma ParseRgbSound(color: string)
    requires ParseRgb(color).Some?
    ensures ValidSpelling(ParseRgb(color).value) && Spell(ParseRgb(color).value) == color
  {
    var (prefixed, a) := StripOpen(color);
    var (leadingSpace, b) := StripLead(a);
    var (closed, body) := StripClose(b);
    StripOpenSound(color);
    StripLeadSound(a);
    StripCloseSound(b);
    ParseComponentsSound(body);
    var f := ParseRgb(color).value;
    assert f == RgbSpelling(prefixed, leadingSpace, ParseComponents(body).value, closed);
    Assoc4(OpenText(prefixed), LeadText(leadingSpace), body, CloseText(closed));
  }

  lemma StripOpenOf(prefixed: bool, a: string)
    requires |a| > 0 && a[0] != 'r'
    ensures StripOpen(OpenText(prefixed) + a) == (prefixed, a)
  {
    var s := OpenText(prefixed) + a;
    if prefixed {
      assert s[..4] == "rgb(" && s[4..] == a;
    } else {
      assert s == a;
      if |a| >= 4 {
        assert a[..4][0] == a[0];
      }
    }
  }

  lemma StripLeadOf(leadingSpace: bool, b: string)
    requires |b| > 0 && b[0] != ' '
    ensures StripLead(LeadText(leadingSpace) + b) == (leadingSpace, b)
  {
    var a := LeadText(leadingSpace) + b;
    if leadingSpace {
      assert a[1..] == b;
    } else {
      assert a == b;
    }
  }

  lemma StripCloseOf(t: string, closed: bool)
    requires |t| > 0 && t[|t| - 1] != ')'
    ensures StripClose(t + CloseText(closed)) == (closed, t)
  {
    var b := t + CloseText(closed);
    if closed {
      assert b[..|b| - 1] == t;
    } else {
      assert b == t;
    }
  }

  /** Every valid spelling is recognised, and read back as itself. */
  lemma ParseRgbComplete(f: RgbSpelling)
    requires ValidSpelling(f)
    ensures ParseRgb(Spell(f)) == Some(f)
  {
    var t := ComponentsText(f.body);
    ComponentsTextEnds(f.body);
    var b := t + CloseText(f.closed);
    var a := LeadText(f.leadingSpace) + b;
    assert b[0] == t[0];
    assert a[0] == (if f.leadingSpace then ' ' else t[0]);
    Assoc4(OpenText(f.prefixed), LeadText(f.leadingSpace), t, CloseText(f.closed));
    assert Spell(f) == OpenText(f.prefixed) + a;
    StripOpenOf(f.prefixed, a);
    StripLeadOf(f.leadingSpace, b);
    StripCloseOf(t, f.closed);
    ParseComponentsOf(f.body);
  }

  /** The recognised strings are exactly the spellings of the pattern. */
  lemma IsRgbValueIff(color: string)
    ensures IsRgbValue(color) <==> exists f :: ValidSpelling(f) && Spell(f) == color
  {
    if IsRgbValue(color) {
      ParseRgbSound(color);
    }
    if exists f :: ValidSpelling(f) && Spell(f) == color {
      var f :| ValidSpelling(f) && Spell(f) == color;
      ParseRgbComplete(f);
    }
  }

  lemma SmallComponents()
    ensures IsComponent("255") && IsComponent("0") && IsComponent("10")
    ensures IsComponent("007") && IsComponent("8") && IsComponent("9")
    ensures IsComponent("1") && IsComponent("2") && IsComponent("3")
    ensures !IsComponent("256")
  {
    DecimalValueOfTriple("255");
    DecimalValueOfTriple("007");
    DecimalValueOfTriple("256");
    DecimalValueOfPair("10");
  }

  lemma RgbValueExample1()
    ensures IsRgbValue("rgb(255, 0, 10)")
  {
    SmallComponents();
    var c := Components("255", Comma(true), "0", Comma(true), "10");
    assert ComponentsText(c) == "255" + ", " + "0" + ", " + "10" == "255, 0, 10";
    assert "rgb(" + "" + "255, 0, 10" + ")" == "rgb(255, 0, 10)";
    ParseRgbComplete(RgbSpelling(true, false, c, true));
  }

  lemma RgbValueExample2()
    ensures IsRgbValue("255 0 10")
  {
    SmallComponents();
    var c := Components("255", Space, "0", Space, "10");
    assert ComponentsText(c) == "255" + " " + "0" + " " + "10" == "255 0 10";
    assert "" + "" + "255 0 10" + "" == "255 0 10";
    ParseRgbComplete(RgbSpelling(false, false, c, false));
  }

  lemma RgbValueExample3()
    ensures IsRgbValue("255,0,10")
  {
    SmallComponents();
    var c := Components("255", Comma(false), "0", Comma(false), "10");
    assert ComponentsText(c) == "255" + "," + "0" + "," + "10" == "255,0,10";
    assert "" + "" + "255,0,10" + "" == "255,0,10";
    ParseRgbComplete(RgbSpelling(false, false, c, false));
  }

  lemma RgbValueExample4()
    ensures IsRgbValue("rgb(007 8 9)")
  {
    SmallComponents();
    var c := Components("007", Space, "8", Space, "9");
    assert ComponentsText(c) == "007" + " " + "8" + " " + "9" == "007 8 9";
    assert "rgb(" + "" + "007 8 9" + ")" == "rgb(007 8 9)";
    ParseRgbComplete(RgbSpelling(true, false, c, true));
  }

  lemma RgbValueExample5()
    ensures IsRgbValue(" 1, 2,3)")
  {
    SmallComponents();
    var c := Components("1", Comma(true), "2", Comma(false), "3");
    assert ComponentsText(c) == "1" + ", " + "2" + "," + "3" == "1, 2,3";
    assert "" + " " + "1, 2,3" + ")" == " 1, 2,3)";
    ParseRgbComplete(RgbSpelling(false, true, c, true));
  }

  /** Strings the pattern accepts: with and without `rgb(` and `)`, with
      either separator, with leading zeros and with the leading space. */
  lemma RgbValueExamples()
    ensures IsRgbValue("rgb(255, 0, 10)") && IsRgbValue("255 0 10") && IsRgbValue("255,0,10")
    ensures IsRgbValue("rgb(007 8 9)") && IsRgbValue(" 1, 2,3)")
  {
    RgbValueExample1();
    RgbValueExample2();
    RgbValueExample3();
    RgbValueExample4();
    RgbValueExample5();
  }

  lemma RejectsOver255()
    ensures !IsRgbValue("256,0,0")
  {
    var s := "256,0,0";
    SmallComponents();
    DigitRunOfDigits("256", ",0,0");
    assert "256" + ",0,0" == s;
    assert s[..3] == "256";
    assert TakeComponent(s) == None;
    assert ParseComponents(s) == None;
    assert s[..1][0] == '2';
    assert StripOpen(s) == (false, s);
    assert StripLead(s) == (false, s);
    assert StripClose(s) == (false, s);
  }

  lemma RejectsTwoComponents()
    ensures !IsRgbValue("rgb(1,2)")
  {
    var s := "rgb(1,2)";
    assert s[..4] == "rgb(" && s[4..] == "1,2)";
    assert StripOpen(s) == (true, "1,2)");
    assert StripLead("1,2)") == (false, "1,2)");
    assert "1,2)"[..3] == "1,2";
    assert StripClose("1,2)") == (true, "1,2");
    ParseNoThirdItem("1,2");
  }

  lemma RejectsMixedSeparators()
    ensures !IsRgbValue("1, 2 3")
  {
    var s := "1, 2 3";
    assert s[..4][0] == '1';
    assert StripOpen(s) == (false, s);
    assert StripLead(s) == (false, s);
    assert StripClose(s) == (false, s);
    MixedSeparatorsBody(s);
  }

  /** A comma after the first component and a space after the second. */
  lemma MixedSeparatorsBody(s: string)
    requires s == "1, 2 3"
    ensures ParseComponents(s) == None
  {
    DigitRunOfDigits("1", ", 2 3");
    assert "1" + ", 2 3" == s;
    assert s[..1] == "1" && s[1..] == ", 2 3";
    DecimalValueOfOne("1");
    assert TakeComponent(s) == Some(("1", ", 2 3"));
    assert ", 2 3"[2..] == "2 3";
    assert TakeItem(s) == Some(("1", Comma(true), "2 3"));
    DigitRunOfDigits("2", " 3");
    assert "2" + " 3" == "2 3";
    assert "2 3"[..1] == "2" && "2 3"[1..] == " 3";
    DecimalValueOfOne("2");
    assert TakeComponent("2 3") == Some(("2", " 3"));
    assert " 3"[1..] == "3";
    assert TakeItem("2 3") == Some(("2", Space, "3"));
  }

  /** A component over 255, a missing component, and separators from both
      alternatives are each refused. */
  lemma RgbValueRejects()
    ensures !IsRgbValue("256,0,0") && !IsRgbValue("rgb(1,2)") && !IsRgbValue("1, 2 3")
  {
    RejectsOver255();
    RejectsTwoComponents();
    RejectsMixedSeparators();
  }

  lemma ParseNoThirdItem(body: string)
    requires body == "1,2"
    ensures ParseComponents(body) == None
  {
    DigitRunOfDigits("1", ",2");
    assert "1" + ",2" == body;
    assert body[..1] == "1" && body[1..] == ",2";
    DecimalValueOfOne("1");
    assert TakeComponent(body) == Some(("1", ",2"));
    assert TakeSeparator(",2") == Some((Comma(false), "2"));
    DigitRunOfDigits("2", "");
    assert "2" + "" == "2";
    DecimalValueOfOne("2");
    assert TakeComponent("2") == Some(("2", ""));
    assert TakeItem("2") == None;
  }

  // ---------------------------------------------------------------------------
  // get_rgb_components and convert_rgb_to_hex
  // ---------------------------------------------------------------------------

  /** `filter_map(|s| s.parse::<u8>().ok())`: the tokens that parse as bytes,
      in order; the others are dropped. */
  function ParseBytes(tokens: seq<string>): (r: seq<nat>)
    ensures |r| <= |tokens|
    ensures forall i :: 0 <= i < |r| ==> r[i] < 256
  {
    if |tokens| == 0 then []
    else
      match ParseU8(tokens[0])
      case Some(v) => [v] + ParseBytes(tokens[1..])
      case None => ParseBytes(tokens[1..])
  }

  /** `rgb`, `(` and `)` removed, in that order. */
  function Unwrap(rgb: string): string
  {
    ReplaceAll(ReplaceAll(ReplaceAll(rgb, "rgb", ""), "(", ""), ")", "")
  }

  /** The text `get_rgb_components` splits: unwrapped, commas turned into
      spaces, then trimmed. */
  function Sanitize(rgb: string): string
  {
    Trim(ReplaceAll(Unwrap(rgb), ",", " "))
  }

  /** `get_rgb_components`; `None` stands for the panic of indexing a list of
      fewer than three parsed bytes. Further bytes are ignored. */
  function GetRgbComponents(rgb: string): (r: Option<Rgb>)
    ensures r.Some? ==> IsBytes(r.value)
  {
    var parts := ParseBytes(SplitWhitespace(Sanitize(rgb)));
    if |parts| >= 3 then Some(Rgb(parts[0], parts[1], parts[2])) else None
  }

  /** `format!("#{:02X}{:02X}{:02X}", r, g, b)`. */
  function HexText(c: Rgb): string
    requires IsBytes(c)
  {
    "#" + (UpperHexByte(c.red) + UpperHexByte(c.green) + UpperHexByte(c.blue))
  }

  /** `convert_rgb_to_hex`; `None` where `get_rgb_components` panics. */
  function ConvertRgbToHex(rgb: string): Option<string>
  {
    match GetRgbComponents(rgb)
    case None => None
    case Some(c) => Some(HexText(c))
  }

  function ComponentValues(c: Components): Rgb
  {
    Rgb(DecimalValue(c.red), DecimalValue(c.green), DecimalValue(c.blue))
  }

  /** The separator after commas have become spaces. */
  function SpacedText(sep: Separator): string
  {
    if sep == Comma(true) then "  " else " "
  }

  /** The body after commas have become spaces. */
  function SpacedComponents(c: Components): string
  {
    c.red + SpacedText(c.sep1) + c.green + SpacedText(c.sep2) + c.blue
  }

  /** The characters a spelling can hold between its optional `rgb(` and `)`. */
  predicate BodyChars(s: string)
  {
    forall i :: 0 <= i < |s| ==> IsDigit(s[i]) || s[i] == ' ' || s[i] == ','
  }

  lemma BodyCharsConcat(a: string, b: string)
    requires BodyChars(a) && BodyChars(b)
    ensures BodyChars(a + b)
  {
  }

  lemma ComponentsBodyChars(c: Components)
    requires ValidComponents(c)
    ensures BodyChars(ComponentsText(c))
  {
    var s1, s2 := SeparatorText(c.sep1), SeparatorText(c.sep2);
    BodyCharsConcat(c.red, s1);
    BodyCharsConcat(c.red + s1, c.green);
    BodyCharsConcat(c.red + s1 + c.green, s2);
    BodyCharsConcat(c.red + s1 + c.green + s2, c.blue);
  }

  /** Everything after an optional `rgb(` holds body characters and `)` only. */
  lemma SpellingTail(f: RgbSpelling)
    requires ValidSpelling(f)
    ensures var inner := LeadText(f.leadingSpace) + ComponentsText(f.body);
      BodyChars(inner) && Spell(f) == OpenText(f.prefixed) + (inner + CloseText(f.closed))
  {
    var inner := LeadText(f.leadingSpace) + ComponentsText(f.body);
    ComponentsBodyChars(f.body);
    BodyCharsConcat(LeadText(f.leadingSpace), ComponentsText(f.body));
    assert Spell(f) == OpenText(f.prefixed) + inner + CloseText(f.closed);
  }

  /** `rgb` can only be removed from the prefix, which leaves its `(`. */
  lemma DropRgbWord(prefixed: bool, rest: string)
    requires NoneOf(rest, 'r')
    ensures ReplaceAll(OpenText(prefixed) + rest, "rgb", "") == ParenText(prefixed) + rest
  {
    MissingFirstChar(rest, "rgb");
    ReplaceAllAbsent(rest, "rgb", "");
    var s := OpenText(prefixed) + rest;
    if prefixed {
      assert StartsWith(s, "rgb") && s[3..] == "(" + rest;
      var t := "(" + rest;
      assert !StartsWith(t, "rgb") by { assert t[0] == '('; }
      assert t[1..] == rest;
    } else {
      assert s == rest;
    }
  }

  function ParenText(prefixed: bool): string { if prefixed then "(" else "" }

  lemma DropParen(prefixed: bool, rest: string)
    requires NoneOf(rest, '(')
    ensures ReplaceAll(ParenText(prefixed) + rest, "(", "") == rest
  {
    var paren := ParenText(prefixed);
    ReplaceCharConcat(paren, rest, "(", "");
    RemoveAbsent(rest, "(", "");
    RemoveSole(paren, "(");
    assert [] + rest == rest;
  }

  lemma DropClose(inner: string, closed: bool)
    requires NoneOf(inner, ')')
    ensures ReplaceAll(inner + CloseText(closed), ")", "") == inner
  {
    var close := CloseText(closed);
    ReplaceCharConcat(inner, close, ")", "");
    RemoveAbsent(inner, ")", "");
    RemoveSole(close, ")");
    assert inner + [] == inner;
  }

  /** Removing `rgb`, `(` and `)` from a spelling leaves its body and its
      leading space. */
  lemma UnwrapSpelling(f: RgbSpelling)
    requires ValidSpelling(f)
    ensures Unwrap(Spell(f)) == LeadText(f.leadingSpace) + ComponentsText(f.body)
  {
    var inner := LeadText(f.leadingSpace) + ComponentsText(f.body);
    var rest := inner + CloseText(f.closed);
    SpellingTail(f);
    assert NoneOf(rest, 'r') && NoneOf(rest, '(') && NoneOf(inner, ')');
    DropRgbWord(f.prefixed, rest);
    DropParen(f.prefixed, rest);
    DropClose(inner, f.closed);
  }

  lemma SeparatorSpaced(sep: Separator)
    ensures ReplaceAll(SeparatorText(sep), ",", " ") == SpacedText(sep)
  {
    match sep
    case Comma(spaceAfter) =>
      var t := SeparatorText(sep);
      assert StartsWith(t, ",") && t[1..] == (if spaceAfter then " " else "");
      if spaceAfter {
        assert t[1..][1..] == [];
      }
    case Space =>
  }

  /** Turning commas into spaces changes only the separators. */
  lemma SpaceSeparators(c: Components)
    requires ValidComponents(c)
    ensures ReplaceAll(ComponentsText(c), ",", " ") == SpacedComponents(c)
  {
    var s1 := SeparatorText(c.sep1);
    var s2 := SeparatorText(c.sep2);
    ReplaceCharConcat(c.red + s1 + c.green + s2, c.blue, ",", " ");
    ReplaceCharConcat(c.red + s1 + c.green, s2, ",", " ");
    ReplaceCharConcat(c.red + s1, c.green, ",", " ");
    ReplaceCharConcat(c.red, s1, ",", " ");
    RemoveAbsent(c.red, ",", " ");
    RemoveAbsent(c.green, ",", " ");
    RemoveAbsent(c.blue, ",", " ");
    SeparatorSpaced(c.sep1);
    SeparatorSpaced(c.sep2);
  }

  lemma SpacedComponentsEnds(c: Components)
    requires ValidComponents(c)
    ensures var d := SpacedComponents(c); |d| > 0 && IsDigit(d[0]) && IsDigit(d[|d| - 1])
  {
    var d := SpacedComponents(c);
    assert d == c.red + (SpacedText(c.sep1) + c.green + SpacedText(c.sep2) + c.blue);
    assert d[0] == c.red[0];
    assert d[|d| - 1] == c.blue[|c.blue| - 1];
  }

  /** Trimming removes the optional leading space and nothing else. */
  lemma TrimStartAtDigit(s: string)
    requires |s| > 0 && IsDigit(s[0])
    ensures TrimStart(s) == s
  {
  }

  lemma TrimEndAtDigit(s: string)
    requires |s| > 0 && IsDigit(s[|s| - 1])
    ensures TrimEnd(s) == s
  {
  }

  lemma TrimStartLead(leadingSpace: bool, d: string)
    requires |d| > 0 && IsDigit(d[0])
    ensures TrimStart(LeadText(leadingSpace) + d) == d
  {
    var x := LeadText(leadingSpace) + d;
    TrimStartAtDigit(d);
    if leadingSpace {
      assert x[0] == ' ' && x[1..] == d;
    } else {
      assert x == d;
    }
  }

  /** Trimming removes the optional leading space and nothing else. */
  lemma TrimSpaced(leadingSpace: bool, c: Components)
    requires ValidComponents(c)
    ensures Trim(LeadText(leadingSpace) + SpacedComponents(c)) == SpacedComponents(c)
  {
    SpacedComponentsEnds(c);
    TrimStartLead(leadingSpace, SpacedComponents(c));
    TrimEndAtDigit(SpacedComponents(c));
  }

  /** The sanitised text of a spelling: the three components separated by one
      or two spaces, with nothing before or after. */
  lemma SanitizeSpelling(f: RgbSpelling)
    requires ValidSpelling(f)
    ensures Sanitize(Spell(f)) == SpacedComponents(f.body)
  {
    var lead := LeadText(f.leadingSpace);
    UnwrapSpelling(f);
    ReplaceCharConcat(lead, ComponentsText(f.body), ",", " ");
    RemoveAbsent(lead, ",", " ");
    SpaceSeparators(f.body);
    TrimSpaced(f.leadingSpace, f.body);
  }

  lemma ComponentHasNoWhitespace(d: string)
    requires IsComponent(d)
    ensures |d| > 0 && forall i :: 0 <= i < |d| ==> !IsWhitespace(d[i])
  {
  }

  lemma SpacedIsWhitespace(sep: Separator)
    ensures forall i :: 0 <= i < |SpacedText(sep)| ==> IsWhitespace(SpacedText(sep)[i])
  {
  }

  /** A separator and a component, then a separator and a component, split
      into the two components. */
  lemma SplitTail(p1: string, g: string, p2: string, b: string)
    requires forall i :: 0 <= i < |p1| ==> IsWhitespace(p1[i])
    requires forall i :: 0 <= i < |p2| ==> IsWhitespace(p2[i])
    requires |p2| > 0 && |g| > 0 && |b| > 0
    requires forall i :: 0 <= i < |g| ==> !IsWhitespace(g[i])
    requires forall i :: 0 <= i < |b| ==> !IsWhitespace(b[i])
    ensures SplitWhitespace(p1 + (g + (p2 + b))) == [g, b]
  {
    SplitWhitespaceSkip(p1, g + (p2 + b));
    SplitWhitespaceWord(g, p2 + b);
    SplitWhitespaceSkip(p2, b);
    SplitWhitespaceWord(b, []);
    assert b + [] == b;
  }

  /** Splitting the sanitised text of a spelling gives its three components. */
  lemma SplitSpelling(c: Components)
    requires ValidComponents(c)
    ensures SplitWhitespace(SpacedComponents(c)) == [c.red, c.green, c.blue]
  {
    var p1, p2 := SpacedText(c.sep1), SpacedText(c.sep2);
    ComponentHasNoWhitespace(c.red);
    ComponentHasNoWhitespace(c.green);
    ComponentHasNoWhitespace(c.blue);
    SpacedIsWhitespace(c.sep1);
    SpacedIsWhitespace(c.sep2);
    var t1 := p1 + (c.green + (p2 + c.blue));
    Assoc5(c.red, p1, c.green, p2, c.blue);
    SplitTail(p1, c.green, p2, c.blue);
    assert |p1| > 0;
    SplitWhitespaceWord(c.red, t1);
  }

  lemma ParseComponentByte(d: string)
    requires IsComponent(d)
    ensures ParseU8(d) == Some(DecimalValue(d))
  {
  }

  lemma ParseThreeBytes(a: string, b: string, c: string)
    requires IsComponent(a) && IsComponent(b) && IsComponent(c)
    ensures ParseBytes([a, b, c]) == [DecimalValue(a), DecimalValue(b), DecimalValue(c)]
  {
    ParseComponentByte(a);
    ParseComponentByte(b);
    ParseComponentByte(c);
    assert [c][1..] == [];
    assert ParseBytes([c]) == [DecimalValue(c)];
    assert [b, c][1..] == [c];
    assert ParseBytes([b, c]) == [DecimalValue(b), DecimalValue(c)];
    assert [a, b, c][1..] == [b, c];
  }

  /** On a recognised spelling, `get_rgb_components` returns the values of
      its three components, in order. */
  lemma ComponentsOfSpelling(f: RgbSpelling)
    requires ValidSpelling(f)
    ensures GetRgbComponents(Spell(f)) == Some(ComponentValues(f.body))
  {
    SanitizeSpelling(f);
    SplitSpelling(f.body);
    ParseThreeBytes(f.body.red, f.body.green, f.body.blue);
  }

  /** Every string `is_rgb_value` accepts has its components extracted without
      a panic, and they are the values written in it. */
  lemma RecognisedRgbComponents(color: string)
    requires IsRgbValue(color)
    ensures GetRgbComponents(color) == Some(ComponentValues(ParseRgb(color).value.body))
  {
    ParseRgbSound(color);
    ComponentsOfSpelling(ParseRgb(color).value);
  }

  /** `#` and three upper-case byte renderings: a hex token whose pair i has
      the value of component i. */
  lemma HexTextShape(c: Rgb)
    requires IsBytes(c)
    ensures var h := HexText(c);
      |h| == 7 && h[0] == '#' && AllHexDigits(h[1..])
      && (forall i :: 1 <= i < 7 ==> !('a' <= h[i] <= 'z'))
      && HexValue(h[1..3]) == c.red && HexValue(h[3..5]) == c.green && HexValue(h[5..7]) == c.blue
      && IsHexToken(h) && IsHexValue(h)
  {
    var h := HexText(c);
    var d := UpperHexByte(c.red) + UpperHexByte(c.green) + UpperHexByte(c.blue);
    assert h[1..] == d;
    assert h[1..3] == d[..2] == UpperHexByte(c.red);
    assert h[3..5] == d[2..4] == UpperHexByte(c.green);
    assert h[5..7] == d[4..6] == UpperHexByte(c.blue);
    assert h[|h| - 7..] == h;
  }

  /** The output of `convert_rgb_to_hex` is the hex rendering of the components. */
  lemma ConvertRgbToHexShape(rgb: string)
    requires ConvertRgbToHex(rgb).Some?
    ensures GetRgbComponents(rgb).Some?
    ensures ConvertRgbToHex(rgb).value == HexText(GetRgbComponents(rgb).value)
    ensures IsHexToken(ConvertRgbToHex(rgb).value)
  {
    HexTextShape(GetRgbComponents(rgb).value);
  }

  // ---------------------------------------------------------------------------
  // The two directions together
  // ---------------------------------------------------------------------------

  /** `rgb(r, g, b)` as `convert_hex_to_rgb` prints it is the spelling with
      `rgb(`, `, ` separators and `)`. */
  function CanonicalSpelling(c: Rgb): RgbSpelling
  {
    RgbSpelling(true, false, Components(Decimal(c.red), Comma(true), Decimal(c.green), Comma(true), Decimal(c.blue)), true)
  }

  lemma DecimalComponent(n: nat)
    requires n < 256
    ensures IsComponent(Decimal(n)) && DecimalValue(Decimal(n)) == n
  {
    DecimalLength(n);
  }

  lemma CanonicalSpellingValid(c: Rgb)
    requires IsBytes(c)
    ensures ValidSpelling(CanonicalSpelling(c))
    ensures ComponentValues(CanonicalSpelling(c).body) == c
  {
    DecimalComponent(c.red);
    DecimalComponent(c.green);
    DecimalComponent(c.blue);
  }

  lemma CanonicalSpellingText(c: Rgb)
    ensures Spell(CanonicalSpelling(c)) == RgbText(c)
  {
    assert "rgb(" + "" == "rgb(";
  }

  /** The output of `convert_hex_to_rgb` is read back by `is_rgb_value` as
      the values it was made from. */
  lemma ConvertHexToRgbRecognised(hex: string)
    requires ConvertHexToRgb(hex).Some?
    ensures IsRgbValue(ConvertHexToRgb(hex).value)
    ensures GetRgbComponents(ConvertHexToRgb(hex).value) == HexComponents(TrimStartMatches(hex, "#"))
  {
    var c := HexComponents(TrimStartMatches(hex, "#")).value;
    CanonicalSpellingValid(c);
    CanonicalSpellingText(c);
    ParseRgbComplete(CanonicalSpelling(c));
    ComponentsOfSpelling(CanonicalSpelling(c));
  }

  /** `convert_rgb_to_hex` on the canonical RGB text. */
  lemma RgbTextToHex(c: Rgb)
    requires IsBytes(c)
    ensures ConvertRgbToHex(RgbText(c)) == Some(HexText(c))
  {
    CanonicalSpellingValid(c);
    CanonicalSpellingText(c);
    ComponentsOfSpelling(CanonicalSpelling(c));
  }

  /** `convert_hex_to_rgb` on the hex text. */
  lemma HexTextToRgb(c: Rgb)
    requires IsBytes(c)
    ensures ConvertHexToRgb(HexText(c)) == Some(RgbText(c))
  {
    var d := UpperHexByte(c.red) + UpperHexByte(c.green) + UpperHexByte(c.blue);
    assert d[..2] == UpperHexByte(c.red) && d[2..4] == UpperHexByte(c.green) && d[4..6] == UpperHexByte(c.blue);
    assert AllHexDigits(d);
    SixDigitHexToRgb(d);
  }

  /** Round trip from RGB: for every r, g, b in 0..255,
      `convert_hex_to_rgb(convert_rgb_to_hex("rgb(r, g, b)")) == "rgb(r, g, b)"`. */
  lemma RgbRoundTrip(c: Rgb)
    requires IsBytes(c)
    ensures ConvertRgbToHex(RgbText(c)).Some?
    ensures ConvertHexToRgb(ConvertRgbToHex(RgbText(c)).value) == Some(RgbText(c))
  {
    RgbTextToHex(c);
    HexTextToRgb(c);
  }

  lemma SplitUppercase(d: string)
    requires |d| == 6
    ensures AsciiUppercase(d) == AsciiUppercase(d[..2]) + AsciiUppercase(d[2..4]) + AsciiUppercase(d[4..6])
  {
  }

  /** Round trip from hex: six hex digits come back from RGB upper-cased. */
  lemma HexRoundTrip(d: string)
    requires |d| == 6 && AllHexDigits(d)
    ensures ConvertHexToRgb("#" + d).Some?
    ensures ConvertRgbToHex(ConvertHexToRgb("#" + d).value) == Some("#" + AsciiUppercase(d))
  {
    SixDigitHexToRgb(d);
    var c := Rgb(HexValue(d[..2]), HexValue(d[2..4]), HexValue(d[4..6]));
    HexTextOfDigits(d);
    RgbTextToHex(c);
  }

  /** The hex rendering of the pairs of six hex digits is the digits upper-cased. */
  lemma HexTextOfDigits(d: string)
    requires |d| == 6 && AllHexDigits(d)
    ensures HexValue(d[..2]) < 256 && HexValue(d[2..4]) < 256 && HexValue(d[4..6]) < 256
    ensures HexText(Rgb(HexValue(d[..2]), HexValue(d[2..4]), HexValue(d[4..6]))) == "#" + AsciiUppercase(d)
  {
    UpperHexByteOfPair(d[..2]);
    UpperHexByteOfPair(d[2..4]);
    UpperHexByteOfPair(d[4..6]);
    SplitUppercase(d);
  }

  lemma NoHashInSpelling(f: RgbSpelling)
    requires ValidSpelling(f)
    ensures NoneOf(Spell(f), '#')
  {
    var inner := LeadText(f.leadingSpace) + ComponentsText(f.body);
    SpellingTail(f);
    assert NoneOf(inner, '#');
    assert NoneOf(CloseText(f.closed), '#');
    NoneOfConcat(inner, CloseText(f.closed), '#');
    assert NoneOf(OpenText(f.prefixed), '#');
    NoneOfConcat(OpenText(f.prefixed), inner + CloseText(f.closed), '#');
  }

  /** Only hex notation holds a `#`, so no string is both. */
  lemma HexAndRgbDisjoint(color: string)
    ensures !(IsHexValue(color) && IsRgbValue(color))
  {
    if IsRgbValue(color) {
      ParseRgbSound(color);
      NoHashInSpelling(ParseRgb(color).value);
      if |color| >= 4 { assert color[|color| - 4] != '#'; }
      if |color| >= 7 { assert color[|color| - 7] != '#'; }
    }
  }

  // ---------------------------------------------------------------------------
  // run
  // ---------------------------------------------------------------------------

  /** What `run` prints as its result: the colour converted to RGB or to hex,
      the "unrecognized" notice, or a panic inside a converter. `run` itself
      always returns `Ok(())`. */
  datatype Conversion = ToRgb(rgb: string) | ToHex(hex: string) | Unrecognized | Panic

  /** The classification in `run`: hex is tried first, then RGB. */
  function Classify(color: string): Conversion
  {
    if IsHexValue(color) then
      match ConvertHexToRgb(color) case Some(v) => ToRgb(v) case None => Panic
    else if IsRgbValue(color) then
      match ConvertRgbToHex(color) case Some(v) => ToHex(v) case None => Panic
    else Unrecognized
  }

  /** `run`: the arguments are joined with single spaces and classified. */
  function Run(color: seq<string>): Conversion
  {
    Classify(Join(color, " "))
  }

  /** What each outcome of the classification means. The RGB branch never
      panics; a hex value is converted to a recognised RGB value or panics;
      an input that is neither is reported, which is not an error. */
  lemma ClassifyOutcomes(color: string)
    ensures Classify(color) == Unrecognized <==> !IsHexValue(color) && !IsRgbValue(color)
    ensures Classify(color).ToHex? <==> IsRgbValue(color)
    ensures Classify(color).ToHex? ==> Classify(color) == ToHex(HexText(GetRgbComponents(color).value))
    ensures Classify(color).ToRgb? ==> IsHexValue(color) && IsRgbValue(Classify(color).rgb)
    ensures Classify(color).Panic? ==> IsHexValue(color) && !IsHexToken(color)
  {
    HexAndRgbDisjoint(color);
    if IsRgbValue(color) {
      RecognisedRgbComponents(color);
    }
    if IsHexValue(color) && ConvertHexToRgb(color).Some? {
      ConvertHexToRgbRecognised(color);
    }
    if IsHexToken(color) {
      AnchoredHexConverts(color);
    }
  }

  /** Trying RGB first: an independent classification order. */
  function ClassifyRgbFirst(color: string): Conversion
  {
    if IsRgbValue(color) then
      match ConvertRgbToHex(color) case Some(v) => ToHex(v) case None => Panic
    else if IsHexValue(color) then
      match ConvertHexToRgb(color) case Some(v) => ToRgb(v) case None => Panic
    else Unrecognized
  }

  /** The order of the two tests does not matter, since no input is both. */
  lemma ClassificationOrderIrrelevant(color: string)
    ensures Classify(color) == ClassifyRgbFirst(color)
  {
    HexAndRgbDisjoint(color);
  }

  /** A spelling of the RGB pattern is classified as RGB and converted to
      the hex rendering of its values. */
  lemma RgbSpellingClassified(f: RgbSpelling)
    requires ValidSpelling(f)
    ensures Classify(Spell(f)) == ToHex(HexText(ComponentValues(f.body)))
  {
    ParseRgbComplete(f);
    HexAndRgbDisjoint(Spell(f));
    ComponentsOfSpelling(f);
  }

  lemma ExampleValues()
    ensures ComponentValues(Components("255", Space, "0", Space, "10")) == Rgb(255, 0, 10)
    ensures ComponentValues(Components("255", Comma(true), "0", Comma(true), "10")) == Rgb(255, 0, 10)
  {
    DecimalValueOfTriple("255");
    DecimalValueOfPair("10");
    DecimalValueOfOne("0");
  }

  lemma ExampleHex()
    ensures HexText(Rgb(255, 0, 10)) == "#FF000A"
  {
    assert UpperHexByte(255) == "FF" && UpperHexByte(0) == "00" && UpperHexByte(10) == "0A";
  }

  lemma RunExample1()
    ensures Run(["255", "0", "10"]) == ToHex("#FF000A")
  {
    assert Join(["255", "0", "10"], " ") == "255 0 10";
    SmallComponents();
    var c := Components("255", Space, "0", Space, "10");
    assert ComponentsText(c) == "255" + " " + "0" + " " + "10" == "255 0 10";
    assert "" + "" + "255 0 10" + "" == "255 0 10";
    RgbSpellingClassified(RgbSpelling(false, false, c, false));
    ExampleValues();
    ExampleHex();
  }

  lemma JoinExample2()
    ensures Join(["rgb(255,", "0,", "10)"], " ") == "rgb(255, 0, 10)"
  {
    var p := ["rgb(255,", "0,", "10)"];
    assert p[1..] == ["0,", "10)"] && p[1..][1..] == ["10)"];
    assert Join(p[1..], " ") == "0," + " " + "10)";
  }

  lemma SpellingExample2()
    ensures Spell(RgbSpelling(true, false, Components("255", Comma(true), "0", Comma(true), "10"), true))
         == "rgb(255, 0, 10)"
  {
    var c := Components("255", Comma(true), "0", Comma(true), "10");
    assert ComponentsText(c) == "255" + ", " + "0" + ", " + "10" == "255, 0, 10";
    assert "rgb(" + "" + "255, 0, 10" + ")" == "rgb(255, 0, 10)";
  }

  lemma RunExample2()
    ensures Run(["rgb(255,", "0,", "10)"]) == ToHex("#FF000A")
  {
    JoinExample2();
    SmallComponents();
    SpellingExample2();
    RgbSpellingClassified(RgbSpelling(true, false, Components("255", Comma(true), "0", Comma(true), "10"), true));
    ExampleValues();
    ExampleHex();
  }

  /** The arguments `255 0 10` and `rgb(255, 0, 10)` (split by the shell) both
      print `#FF000A`. */
  lemma RunExamples()
    ensures Run(["255", "0", "10"]) == ToHex("#FF000A")
    ensures Run(["rgb(255,", "0,", "10)"]) == ToHex("#FF000A")
  {
    RunExample1();
    RunExample2();
  }

  // ---------------------------------------------------------------------------
  // The missing start anchor
  // ---------------------------------------------------------------------------

  /** As written, `is_hex_value` accepts a string that `convert_hex_to_rgb`
      then panics on: nothing is stripped from `x#fff`, and its five
      characters are too few for the slice `[4..6]`. */
  lemma UnanchoredHexPanics()
    ensures IsHexValue("x#fff") && ConvertHexToRgb("x#fff") == None && Classify("x#fff") == Panic
  {
    HexValueAcceptsPrefixed();
    assert !StartsWith("x#fff", "#");
    assert HexComponents("x#fff") == None;
  }

  /** With six characters the slices succeed, and the panic is the `unwrap`
      of `from_str_radix("xy", 16)`. */
  lemma UnanchoredHexPanicsInParse()
    ensures IsHexValue("xy#fff") && ConvertHexToRgb("xy#fff") == None && Classify("xy#fff") == Panic
  {
    assert "xy#fff"[6 - 4..] == "#fff";
    assert "xy#fff"[..1] == "x";
    assert !StartsWith("xy#fff", "#");
    assert "xy#fff"[..2] == "xy";
    FromStrRadixU8HexPair("xy");
    assert HexComponents("xy#fff") == None;
  }

  lemma DecimalExamples()
    ensures Decimal(171) == "171" && Decimal(205) == "205" && Decimal(239) == "239"
  {
    assert Decimal(1) == "1" && Decimal(17) == "17";
    assert Decimal(2) == "2" && Decimal(20) == "20";
    assert Decimal(23) == "23";
  }

  lemma MisreadComponents()
    ensures TrimStartMatches("abcdef#abc", "#") == "abcdef#abc"
    ensures HexComponents("abcdef#abc") == Some(Rgb(171, 205, 239))
  {
    var s := "abcdef#abc";
    assert s[..1][0] == 'a';
    assert s[..2] == "ab" && s[2..4] == "cd" && s[4..6] == "ef";
    HexValueOfPair("ab");
    HexValueOfPair("cd");
    HexValueOfPair("ef");
    FromStrRadixU8HexPair("ab");
    FromStrRadixU8HexPair("cd");
    FromStrRadixU8HexPair("ef");
  }

  lemma MisreadText()
    ensures RgbText(Rgb(171, 205, 239)) == "rgb(171, 205, 239)"
  {
    DecimalExamples();
    assert RgbText(Rgb(171, 205, 239)) == "rgb(" + ("171" + ", " + "205" + ", " + "239") + ")";
  }

  /** As written, `is_hex_value` accepts a string that `convert_hex_to_rgb`
      then converts from text that is not the hex token it matched. */
  lemma UnanchoredHexMisreads()
    ensures IsHexValue("abcdef#abc") && ConvertHexToRgb("abcdef#abc") == Some("rgb(171, 205, 239)")
  {
    MisreadRecognised();
    MisreadConverted();
  }

  lemma MisreadRecognised()
    ensures IsHexValue("abcdef#abc")
  {
    var s := "abcdef#abc";
    assert s[|s| - 4..] == "#abc" && "#abc"[1..] == "abc";
  }

  lemma MisreadConverted()
    ensures ConvertHexToRgb("abcdef#abc") == Some("rgb(171, 205, 239)")
  {
    MisreadComponents();
    MisreadText();
  }

  /** The two ways the missing start anchor shows. */
  lemma UnanchoredHexMisconverts()
    ensures IsHexValue("x#fff") && ConvertHexToRgb("x#fff") == None && Classify("x#fff") == Panic
    ensures IsHexValue("xy#fff") && ConvertHexToRgb("xy#fff") == None && Classify("xy#fff") == Panic
    ensures IsHexValue("abcdef#abc") && ConvertHexToRgb("abcdef#abc") == Some("rgb(171, 205, 239)")
  {
    UnanchoredHexPanics();
    UnanchoredHexPanicsInParse();
    UnanchoredHexMisreads();
  }

  /** With the pattern anchored at both ends, a recognised hex value is a hex
      token, and every hex token is converted without a panic. */
  lemma AnchoredHexConverts(color: string)
    requires IsHexToken(color)
    ensures ConvertHexToRgb(color).Some? && IsRgbValue(ConvertHexToRgb(color).value)
  {
    var d := color[1..];
    assert color == "#" + d;
    if |d| == 3 {
      ThreeDigitHexExpands(d);
    } else {
      SixDigitHexToRgb(d);
    }
    ConvertHexToRgbRecognised(color);
  }

  /** The classification with the anchored hex pattern `^(#…{3}|#…{6})$`. */
  function ClassifyAnchored(color: string): Conversion
  {
    if IsHexToken(color) then
      match ConvertHexToRgb(color) case Some(v) => ToRgb(v) case None => Panic
    else if IsRgbValue(color) then
      match ConvertRgbToHex(color) case Some(v) => ToHex(v) case None => Panic
    else Unrecognized
  }

  /** With the anchor, classification never panics, and it agrees with the
      program as written on every input the written pattern does not
      over-accept. */
  lemma ClassifyAnchoredNeverPanics(color: string)
    ensures ClassifyAnchored(color) != Panic
    ensures IsHexValue(color) == IsHexToken(color) ==> ClassifyAnchored(color) == Classify(color)
  {
    if IsHexToken(color) {
      AnchoredHexConverts(color);
    }
    if IsRgbValue(color) {
      RecognisedRgbComponents(color);
    }
  }
}
