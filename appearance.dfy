// Board appearance: the theme palette, the colours in force, the setters, and the hex colour
// parsing and encoding behind the derived colours (frontend/src/context/AppearanceContext.tsx).

module Appearance {

  // ----- hex colours -----

  predicate IsHexDigit(c: char) {
    '0' <= c <= '9' || 'a' <= c <= 'f' || 'A' <= c <= 'F'
  }

  predicate AllHex(s: string) {
    forall i :: 0 <= i < |s| ==> IsHexDigit(s[i])
  }

  function DigitValue(c: char): (v: nat)
    requires IsHexDigit(c)
    ensures v < 16
  {
    if '0' <= c <= '9' then c as int - '0' as int
    else if 'a' <= c <= 'f' then c as int - 'a' as int + 10
    else c as int - 'A' as int + 10
  }

  /** parseInt(s, 16) on a string of hex digits. */
  function HexValue(s: string): (n: nat)
    requires AllHex(s)
  {
    if s == [] then 0 else HexValue(s[..|s| - 1]) * 16 + DigitValue(s[|s| - 1])
  }

  function Pow16(k: nat): (p: nat)
    ensures p >= 1
  {
    if k == 0 then 1 else 16 * Pow16(k - 1)
  }

  /** The value of a string of hex digits below 16 to the power of its length. */
  lemma {:induction false} HexValueBound(s: string)
    requires AllHex(s)
    ensures HexValue(s) < Pow16(|s|)
  {
    if s != [] {
      HexValueBound(s[..|s| - 1]);
    }
  }

  lemma ShiftDigit(a: int, p: int, b: int, d: int)
    ensures (a * p + b) * 16 + d == a * (p * 16) + (b * 16 + d)
  {
  }

  /** Digits read in two parts: the front part counts 16 to the power of the back's length. */
  lemma {:induction false} HexValueConcat(a: string, b: string)
    requires AllHex(a) && AllHex(b)
    ensures AllHex(a + b) && HexValue(a + b) == HexValue(a) * Pow16(|b|) + HexValue(b)
    decreases |b|
  {
    assert AllHex(a + b) by {
      forall i | 0 <= i < |a + b| ensures IsHexDigit((a + b)[i]) {
        if i < |a| { assert (a + b)[i] == a[i]; } else { assert (a + b)[i] == b[i - |a|]; }
      }
    }
    if b == [] {
      assert a + b == a;
    } else {
      var b' := b[..|b| - 1];
      var d := DigitValue(b[|b| - 1]);
      assert (a + b)[..|a + b| - 1] == a + b';
      assert (a + b)[|a + b| - 1] == b[|b| - 1];
      HexValueConcat(a, b');
      assert HexValue(a + b) == HexValue(a + b') * 16 + d;
      assert HexValue(b) == HexValue(b') * 16 + d;
      assert Pow16(|b|) == Pow16(|b'|) * 16;
      ShiftDigit(HexValue(a), Pow16(|b'|), HexValue(b'), d);
    }
  }

  /** hex.replace("#", ""): drops the first '#' only. */
  function DropFirstHash(s: string): (t: string)
    ensures |t| == |s| || |t| == |s| - 1
    ensures '#' !in s ==> t == s
  {
    if s == [] then []
    else if s[0] == '#' then s[1..]
    else [s[0]] + DropFirstHash(s[1..])
  }

  /** The '#' dropped is the first one, and the characters before and after it are kept in order. */
  lemma {:induction false} DropFirstHashSplit(s: string) returns (i: nat)
    requires '#' in s
    ensures i < |s| && s[i] == '#' && '#' !in s[..i]
    ensures DropFirstHash(s) == s[..i] + s[i + 1..]
  {
    if s[0] == '#' {
      i := 0;
    } else {
      var j := DropFirstHashSplit(s[1..]);
      i := j + 1;
      assert s[..i] == [s[0]] + s[1..][..j];
      assert s[i + 1..] == s[1..][j + 1..];
    }
  }

  /** The 3-digit shorthand with each digit doubled. */
  function Expand(h: string): (v: string)
    requires |h| == 3
    ensures |v| == 6 && forall i :: 0 <= i < 6 ==> v[i] == h[i / 2]
  {
    [h[0], h[0], h[1], h[1], h[2], h[2]]
  }

  /** The colours this model reads: after dropping the first '#', three or six hex digits. */
  predicate IsHexColour(hex: string) {
    var h := DropFirstHash(hex);
    (|h| == 3 || |h| == 6) && AllHex(h)
  }

  datatype Rgb = Rgb(r: int, g: int, b: int)

  predicate IsChannel(x: int) {
    0 <= x < 256
  }

  /** The six digits hexToRgb parses. */
  function SixDigits(hex: string): (v: string)
    requires IsHexColour(hex)
    ensures |v| == 6 && AllHex(v)
  {
    var h := DropFirstHash(hex);
    if |h| == 3 then Expand(h) else h
  }

  /** hexToRgb: the parsed number split by shifts and masks into three bytes. For six digits the
      number is below 2^24, so the 32-bit shifts and masks are exact divisions and remainders. */
  function HexToRgb(hex: string): (c: Rgb)
    requires IsHexColour(hex)
    ensures IsChannel(c.r) && IsChannel(c.g) && IsChannel(c.b)
  {
    var n := HexValue(SixDigits(hex));
    Rgb((n / 65536) % 256, (n / 256) % 256, n % 256)
  }

  /** The channels of a number below 2^24 given as three bytes. */
  lemma Bytes(hi: nat, mid: nat, lo: nat)
    requires hi < 256 && mid < 256 && lo < 256
    ensures var n := (hi * 256 + mid) * 256 + lo;
            (n / 65536) % 256 == hi && (n / 256) % 256 == mid && n % 256 == lo
  {
    var n := (hi * 256 + mid) * 256 + lo;
    DivMod256(hi * 256 + mid, lo);
    DivMod256(hi, mid);
    assert n / 65536 == (n / 256) / 256;
  }

  lemma DivMod256(hi: nat, lo: nat)
    requires lo < 256
    ensures (hi * 256 + lo) / 256 == hi && (hi * 256 + lo) % 256 == lo
  {
  }

  lemma PairValue(s: string)
    requires |s| == 2 && AllHex(s)
    ensures HexValue(s) < 256
  {
    HexValueBound(s);
    assert Pow16(2) == 256;
  }

  /** The channels are the three digit pairs. */
  lemma HexToRgbPairs(hex: string)
    requires IsHexColour(hex)
    ensures var v := SixDigits(hex);
            HexToRgb(hex) == Rgb(HexValue(v[0..2]), HexValue(v[2..4]), HexValue(v[4..6]))
  {
    var v := SixDigits(hex);
    var r, g, b := v[0..2], v[2..4], v[4..6];
    assert v == r + g + b;
    HexValueConcat(r + g, b);
    HexValueConcat(r, g);
    assert Pow16(2) == 256;
    PairValue(r);
    PairValue(g);
    PairValue(b);
    Bytes(HexValue(r), HexValue(g), HexValue(b));
  }

  /** The shorthand "#abc" reads like "#aabbcc". */
  lemma ShorthandDoubles(hex: string)
    requires IsHexColour(hex) && |DropFirstHash(hex)| == 3
    ensures IsHexColour("#" + Expand(DropFirstHash(hex)))
    ensures HexToRgb(hex) == HexToRgb("#" + Expand(DropFirstHash(hex)))
  {
    var long := "#" + Expand(DropFirstHash(hex));
    assert DropFirstHash(long) == Expand(DropFirstHash(hex));
  }

  // ----- the hex encoding in mix -----

  /** Number.prototype.toString(16): lower-case hex digits, most significant first. */
  function ToHex(n: nat): (s: string)
    ensures |s| >= 1 && AllHex(s)
    decreases n
  {
    if n < 16 then [HexChar(n)] else ToHex(n / 16) + [HexChar(n % 16)]
  }

  function HexChar(d: nat): (c: char)
    requires d < 16
    ensures IsHexDigit(c) && DigitValue(c) == d && !('A' <= c <= 'F')
  {
    if d < 10 then (48 + d) as char else (87 + d) as char
  }

  predicate IsLowerHexDigit(c: char) {
    '0' <= c <= '9' || 'a' <= c <= 'f'
  }

  /** toString(16) prints the number it is given. */
  lemma {:induction false} ToHexValue(n: nat)
    ensures HexValue(ToHex(n)) == n
    decreases n
  {
    var s := ToHex(n);
    if n < 16 {
      assert s[..|s| - 1] == [];
    } else {
      ToHexValue(n / 16);
      assert s[..|s| - 1] == ToHex(n / 16);
      assert s[|s| - 1] == HexChar(n % 16);
    }
  }

  lemma DivBounds(n: nat, lo: nat, hi: nat)
    requires 16 * lo <= n < 16 * hi
    ensures lo <= n / 16 < hi
  {
  }

  /** toString(16) uses as many digits as the number needs, all of them lower case. */
  lemma {:induction false} ToHexDigits(n: nat, k: nat)
    requires Pow16(k) <= n < Pow16(k + 1)
    ensures |ToHex(n)| == k + 1
    ensures forall i :: 0 <= i < |ToHex(n)| ==> IsLowerHexDigit(ToHex(n)[i])
    decreases n
  {
    if n >= 16 {
      DivBounds(n, Pow16(k - 1), Pow16(k));
      ToHexDigits(n / 16, k - 1);
    }
  }

  lemma Pow16Six()
    ensures Pow16(6) == 16777216 && Pow16(7) == 268435456
  {
    assert Pow16(1) == 16;
    assert Pow16(2) == 256;
    assert Pow16(3) == 4096;
    assert Pow16(4) == 65536;
    assert Pow16(5) == 1048576;
  }

  /** The encoding at the end of mix: 1 << 24 pushes a leading 1 in front of six digits, which
      slice(1) then drops. The shifts are products here; for channels in 0..255 they agree. */
  function RgbToHex(r: int, g: int, b: int): (hex: string)
    requires IsChannel(r) && IsChannel(g) && IsChannel(b)
    ensures |hex| == 7 && hex[0] == '#'
    ensures forall i :: 1 <= i < 7 ==> IsLowerHexDigit(hex[i])
  {
    var n := 16777216 + r * 65536 + g * 256 + b;
    Pow16Six();
    ToHexDigits(n, 6);
    "#" + ToHex(n)[1..]
  }

  /** Parsing an encoded colour gives back its channels. */
  lemma RgbToHexRoundTrip(r: int, g: int, b: int)
    requires IsChannel(r) && IsChannel(g) && IsChannel(b)
    ensures IsHexColour(RgbToHex(r, g, b)) && HexToRgb(RgbToHex(r, g, b)) == Rgb(r, g, b)
  {
    var n := 16777216 + r * 65536 + g * 256 + b;
    Pow16Six();
    ToHexDigits(n, 6);
    ToHexValue(n);
    var s := ToHex(n);
    var digits := s[1..];
    var hex := RgbToHex(r, g, b);
    assert hex == "#" + digits;
    assert DropFirstHash(hex) == digits;
    assert AllHex(s[..1]) && AllHex(digits);
    assert s == s[..1] + digits;
    HexValueConcat(s[..1], digits);
    HexValueBound(digits);
    assert HexValue(s[..1]) * 16777216 + HexValue(digits) == n;
    assert HexValue(digits) == (r * 256 + g) * 256 + b by {
      assert HexValue(s[..1]) == 1;
    }
    assert SixDigits(hex) == digits;
    Bytes(r, g, b);
  }

  // ----- themes and the appearance state -----

  datatype ThemeKey = Classic | Glas | Blue | Brown | LightBlue | Mono | Custom

  /** The appearance settings: piece set folder, theme, and the two custom colours. */
  datatype State = State(pieceSet: string, theme: ThemeKey, customLight: string, customDark: string)

  const DefaultState: State := State("cburnett", Classic, "#f0d9b5", "#b58863")

  datatype Palette = Palette(light: string, dark: string)

  /** THEME_COLORS; the custom entry holds the default custom colours. */
  function ThemeColors(k: ThemeKey): (p: Palette)
    ensures k == Custom ==> p == Palette(DefaultState.customLight, DefaultState.customDark)
  {
    match k
    case Classic => Palette("#ebecd0", "#739552")
    case Glas => Palette("#697181", "#2d313f")
    case Blue => Palette("#f2f6fa", "#5596f2")
    case Brown => Palette("#edd6b0", "#b88762")
    case LightBlue => Palette("#f0f1f0", "#c4d8e4")
    case Mono => Palette("#ffffff", "#646464")
    case Custom => Palette(DefaultState.customLight, DefaultState.customDark)
  }

  lemma HashedIsHexColour(s: string)
    requires |s| == 7 && s[0] == '#'
    requires IsHexDigit(s[1]) && IsHexDigit(s[2]) && IsHexDigit(s[3])
    requires IsHexDigit(s[4]) && IsHexDigit(s[5]) && IsHexDigit(s[6])
    ensures IsHexColour(s)
  {
    assert DropFirstHash(s) == s[1..];
  }

  /** Every palette colour, the default custom pair included, is a colour hexToRgb reads. */
  lemma PalettesAreHexColours(k: ThemeKey)
    ensures IsHexColour(ThemeColors(k).light) && IsHexColour(ThemeColors(k).dark)
  {
    var p := ThemeColors(k);
    HashedIsHexColour(p.light);
    HashedIsHexColour(p.dark);
  }

  /** colors: the custom pair under the custom theme, otherwise the theme's palette. */
  function Colors(s: State): (p: Palette)
    ensures s.theme == Custom ==> p == Palette(s.customLight, s.customDark)
    ensures s.theme != Custom ==> p == ThemeColors(s.theme)
  {
    if s.theme == Custom then Palette(s.customLight, s.customDark) else ThemeColors(s.theme)
  }

  /** Outside the custom theme the custom colours have no effect. */
  lemma ColorsIgnoreCustomUnlessChosen(s: State, light: string, dark: string)
    requires s.theme != Custom
    ensures Colors(s.(customLight := light, customDark := dark)) == Colors(s)
  {
  }

  /** setPieceSet: only the piece set changes. */
  function SetPieceSet(s: State, v: string): (t: State)
    ensures t.pieceSet == v && t.theme == s.theme
    ensures t.customLight == s.customLight && t.customDark == s.customDark
  {
    s.(pieceSet := v)
  }

  /** setTheme: only the theme changes. */
  function SetTheme(s: State, k: ThemeKey): (t: State)
    ensures t.theme == k && t.pieceSet == s.pieceSet
    ensures t.customLight == s.customLight && t.customDark == s.customDark
  {
    s.(theme := k)
  }

  /** setCustomLight: the light custom colour changes and the custom theme is chosen. */
  function SetCustomLight(s: State, hex: string): (t: State)
    ensures t.customLight == hex && t.theme == Custom
    ensures t.pieceSet == s.pieceSet && t.customDark == s.customDark
  {
    s.(customLight := hex, theme := Custom)
  }

  /** setCustomDark: the dark custom colour changes and the custom theme is chosen. */
  function SetCustomDark(s: State, hex: string): (t: State)
    ensures t.customDark == hex && t.theme == Custom
    ensures t.pieceSet == s.pieceSet && t.customLight == s.customLight
  {
    s.(customDark := hex, theme := Custom)
  }

  /** A custom colour takes effect at once, next to the other custom colour, whatever theme was on. */
  lemma CustomColourTakesEffect(s: State, hex: string)
    ensures Colors(SetCustomLight(s, hex)) == Palette(hex, s.customDark)
    ensures Colors(SetCustomDark(s, hex)) == Palette(s.customLight, hex)
  {
  }

  /** Choosing a theme other than custom shows its palette; the piece set never changes colours. */
  lemma ThemeAndPieceSetColours(s: State, k: ThemeKey, v: string)
    ensures k != Custom ==> Colors(SetTheme(s, k)) == ThemeColors(k)
    ensures Colors(SetPieceSet(s, v)) == Colors(s)
  {
  }

  /** Choosing the custom theme after setting both custom colours shows exactly those. */
  lemma CustomPairShown(s: State, light: string, dark: string)
    ensures Colors(SetTheme(SetCustomDark(SetCustomLight(s, light), dark), Custom)) == Palette(light, dark)
  {
  }
}
