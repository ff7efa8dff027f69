/**
 * The colour codec of colors.py: parsing hex codes (`hex2color`), packing
 * channels (`from_rgb`), and the `#rrggbb` text that `str(color)` gives.
 *
 * A colour is the packed 24-bit value a `discord.Color` holds; its channels
 * are read back the way `discord.Color.r/g/b` do, by shifting and masking.
 */
module ColorCodec {
  import opened Wrappers

  /** The packed value `r << 16 | g << 8 | b`. */
  type Color = v: int | 0 <= v < 0x100_0000

  /** One channel intensity. */
  type Byte = v: int | 0 <= v < 0x100

  /** The two ways `hex2color` raises `ValueError`. */
  datatype CodecError =
    | InvalidLength   // its own 'invalid color code'
    | InvalidDigit    // raised by `int(code, base=16)`

  function Red(c: Color): Byte { c / 0x1_0000 }
  function Green(c: Color): Byte { c / 0x100 % 0x100 }
  function Blue(c: Color): Byte { c % 0x100 }

  /**
   * `r << 16 | g << 8 | b` for three bytes: the three fields do not
   * overlap, so the bitwise or is a sum.
   */
  function Pack(r: Byte, g: Byte, b: Byte): (c: Color)
    ensures Red(c) == r && Green(c) == g && Blue(c) == b
  {
    PackSplit(r, g, b);
    r * 0x1_0000 + g * 0x100 + b
  }

  lemma PackSplit(r: Byte, g: Byte, b: Byte)
    ensures var c := r * 0x1_0000 + g * 0x100 + b;
            0 <= c < 0x100_0000 && c / 0x1_0000 == r && c / 0x100 % 0x100 == g && c % 0x100 == b
  {
    var q := r * 0x100 + g;
    var c := r * 0x1_0000 + g * 0x100 + b;
    assert c == q * 0x100 + b;
    ByteSplit(q, b);
    ByteSplit(r, g);
    assert c == r * 0x1_0000 + (g * 0x100 + b) && g * 0x100 + b < 0x1_0000;
    WordSplit(r, g * 0x100 + b);
  }

  /** Every colour is the packing of its own channels. */
  lemma PackChannels(c: Color)
    ensures Pack(Red(c), Green(c), Blue(c)) == c
  {
    var q := c / 0x100;
    ByteSplit(q, Blue(c));
    ByteSplit(Red(c), q % 0x100);
    assert q == Red(c) * 0x100 + Green(c);
  }

  /** `q * 256 + d` with `d < 256` divides back into `q` and `d`. */
  lemma ByteSplit(q: nat, d: nat)
    requires d < 0x100
    ensures (q * 0x100 + d) / 0x100 == q && (q * 0x100 + d) % 0x100 == d
  {
  }

  /** `q * 65536 + d` with `d < 65536` divides back into `q`. */
  lemma WordSplit(q: nat, d: nat)
    requires d < 0x1_0000
    ensures (q * 0x1_0000 + d) / 0x1_0000 == q
  {
  }

  /** `q * 16 + d` with `d < 16` divides back into `q` and `d`. */
  lemma NibbleSplit(q: nat, d: nat)
    requires d < 16
    ensures (q * 16 + d) / 16 == q && (q * 16 + d) % 16 == d
  {
  }

  // ---------------------------------------------------------------- from_rgb

  /** `int(max(0, min(x, 255)))`: clamp to [0, 255], then truncate. */
  function ClampChannel(x: real): (v: Byte)
    ensures x <= 0.0 ==> v == 0
    ensures x >= 255.0 ==> v == 255
    ensures 0.0 <= x <= 255.0 ==> v as real <= x < v as real + 1.0
  {
    var upper := if x < 255.0 then x else 255.0;
    var clamped := if 0.0 < upper then upper else 0.0;
    clamped.Floor
  }

  /** `from_rgb`: each channel clamped and truncated, then packed. */
  function FromRgb(r: real, g: real, b: real): (c: Color)
    ensures Red(c) == ClampChannel(r)
    ensures Green(c) == ClampChannel(g)
    ensures Blue(c) == ClampChannel(b)
  {
    Pack(ClampChannel(r), ClampChannel(g), ClampChannel(b))
  }

  /** Integer channels already in range come back unchanged. */
  lemma FromRgbBytes(r: Byte, g: Byte, b: Byte)
    ensures FromRgb(r as real, g as real, b as real) == Pack(r, g, b)
    ensures Red(FromRgb(r as real, g as real, b as real)) == r
    ensures Green(FromRgb(r as real, g as real, b as real)) == g
    ensures Blue(FromRgb(r as real, g as real, b as real)) == b
  {
    assert ClampChannel(r as real) == r;
    assert ClampChannel(g as real) == g;
    assert ClampChannel(b as real) == b;
  }

  // ---------------------------------------------------------------- hex digits

  predicate IsHexDigit(ch: char)
  {
    '0' <= ch <= '9' || 'a' <= ch <= 'f' || 'A' <= ch <= 'F'
  }

  predicate IsLowerHexDigit(ch: char)
  {
    '0' <= ch <= '9' || 'a' <= ch <= 'f'
  }

  predicate IsHexString(s: string)
  {
    forall i | 0 <= i < |s| :: IsHexDigit(s[i])
  }

  predicate IsLowerHexString(s: string)
  {
    forall i | 0 <= i < |s| :: IsLowerHexDigit(s[i])
  }

  function DigitValue(ch: char): (d: nat)
    requires IsHexDigit(ch)
    ensures d < 16
  {
    if '0' <= ch <= '9' then ch as int - '0' as int
    else if 'a' <= ch <= 'f' then ch as int - 'a' as int + 10
    else ch as int - 'A' as int + 10
  }

  /** The lower-case digit `format(d, 'x')` writes for `d`. */
  function HexDigit(d: nat): (ch: char)
    requires d < 16
    ensures IsLowerHexDigit(ch) && DigitValue(ch) == d
  {
    if d < 10 then ('0' as int + d) as char else ('a' as int + d - 10) as char
  }

  /** ASCII lower-casing, as `str.lower` does on the characters of a hex code. */
  function LowerChar(ch: char): char
  {
    if 'A' <= ch <= 'Z' then (ch as int - 'A' as int + 'a' as int) as char else ch
  }

  function Lower(s: string): (t: string)
    ensures |t| == |s|
    ensures forall i | 0 <= i < |s| :: t[i] == LowerChar(s[i])
  {
    seq(|s|, i requires 0 <= i < |s| => LowerChar(s[i]))
  }

  function Pow16(k: nat): (p: nat)
    ensures p >= 1
  {
    if k == 0 then 1 else 16 * Pow16(k - 1)
  }

  /** `int(s, base=16)` on a string of hex digits, read most significant digit first. */
  function HexValue(s: string): (n: nat)
    requires IsHexString(s)
    ensures n < Pow16(|s|)
  {
    if s == [] then 0 else HexValue(s[..|s| - 1]) * 16 + DigitValue(s[|s| - 1])
  }

  // ---------------------------------------------------------------- hex2color

  /** `code[1:]` when `code.startswith('#')`. */
  function StripHash(code: string): (body: string)
    ensures body == code || (code != [] && code[0] == '#' && body == code[1..])
  {
    if |code| > 0 && code[0] == '#' then code[1..] else code
  }

  /** `''.join(c + c for c in code)`: every character doubled. */
  function Doubled(s: string): (t: string)
    ensures |t| == 2 * |s|
    ensures forall i | 0 <= i < |t| :: t[i] == s[i / 2]
  {
    if s == [] then [] else [s[0], s[0]] + Doubled(s[1..])
  }

  /** The body after the optional `#`, with 3-digit shorthand expanded. */
  function Expanded(code: string): string
  {
    var body := StripHash(code);
    if |body| == 3 then Doubled(body) else body
  }

  /**
   * `hex2color`: parse an optional `#` and 3 or 6 hex digits into a colour.
   * It succeeds exactly on 3 or 6 hex digits after the optional `#`, and
   * fails for its length exactly when there are neither 3 nor 6 characters.
   */
  function Hex2Color(code: string): (r: Result<Color, CodecError>)
    ensures r.Ok? <==>
              (|StripHash(code)| == 3 || |StripHash(code)| == 6) && IsHexString(StripHash(code))
    ensures r == Err(InvalidLength) <==> |StripHash(code)| != 3 && |StripHash(code)| != 6
  {
    DoubledHex(StripHash(code));
    var full := Expanded(code);
    if |full| != 6 then Err(InvalidLength)
    else if !IsHexString(full) then Err(InvalidDigit)
    else
      assert HexValue(full) < Pow16(6) == 0x100_0000;
      Ok(HexValue(full))
  }

  /** `str(color)`: `#` and six lower-case hex digits. */
  function Format(c: Color): (s: string)
    ensures |s| == 7 && s[0] == '#' && IsLowerHexString(s[1..])
  {
    "#" + HexByte(Red(c)) + HexByte(Green(c)) + HexByte(Blue(c))
  }

  function HexByte(x: Byte): (s: string)
    ensures |s| == 2 && IsLowerHexString(s)
  {
    [HexDigit(x / 16), HexDigit(x % 16)]
  }

  // ---------------------------------------------------------------- properties

  lemma DoubledHex(s: string)
    ensures IsHexString(Doubled(s)) <==> IsHexString(s)
  {
    var t := Doubled(s);
    if IsHexString(s) {
      forall i | 0 <= i < |t| ensures IsHexDigit(t[i]) { assert t[i] == s[i / 2]; }
    }
    if IsHexString(t) {
      forall i | 0 <= i < |s| ensures IsHexDigit(s[i]) { assert t[2 * i] == s[i]; }
    }
  }

  /** Reading `a + b` reads `a`, shifts it by `|b|` digits, and adds `b`. */
  lemma {:induction false} HexValueAppend(a: string, b: string)
    requires IsHexString(a) && IsHexString(b)
    ensures IsHexString(a + b)
    ensures HexValue(a + b) == HexValue(a) * Pow16(|b|) + HexValue(b)
  {
    var ab := a + b;
    assert IsHexString(ab) by {
      forall i | 0 <= i < |ab| ensures IsHexDigit(ab[i]) {
        if i < |a| { assert ab[i] == a[i]; } else { assert ab[i] == b[i - |a|]; }
      }
    }
    if b == [] {
      assert ab == a;
    } else {
      var b' := b[..|b| - 1];
      assert IsHexString(b') by { forall i | 0 <= i < |b'| ensures IsHexDigit(b'[i]) { assert b'[i] == b[i]; } }
      assert ab[..|ab| - 1] == a + b';
      HexValueAppend(a, b');
      var d := DigitValue(b[|b| - 1]);
      assert ab[|ab| - 1] == b[|b| - 1];
      assert HexValue(ab) == HexValue(a + b') * 16 + d;
      assert HexValue(b) == HexValue(b') * 16 + d;
      ShiftDigit(HexValue(a), Pow16(|b'|), HexValue(b'), d);
    }
  }

  lemma ShiftDigit(x: int, p: int, y: int, d: int)
    ensures (x * p + y) * 16 + d == x * (16 * p) + (y * 16 + d)
  {
  }

  lemma HexByteValue(x: Byte)
    ensures HexValue(HexByte(x)) == x
  {
    var s := HexByte(x);
    assert s[..1] == [s[0]];
    assert s[..1][..0] == [];
  }

  /** Two hex digits read as a byte. */
  lemma PairValue(s: string)
    requires |s| == 2 && IsHexString(s)
    ensures HexValue(s) == DigitValue(s[0]) * 16 + DigitValue(s[1]) < 0x100
  {
    assert s[..1] == [s[0]];
    assert s[..1][..0] == [];
  }

  /** Three two-digit groups read as one six-digit number are three bytes, most significant first. */
  lemma ThreePairs(r: string, g: string, b: string)
    requires |r| == 2 && |g| == 2 && |b| == 2
    requires IsHexString(r) && IsHexString(g) && IsHexString(b)
    ensures IsHexString(r + g + b)
    ensures HexValue(r + g + b) == HexValue(r) * 0x1_0000 + HexValue(g) * 0x100 + HexValue(b)
  {
    assert Pow16(2) == 0x100;
    HexValueAppend(r, g);
    assert HexValue(r + g) == HexValue(r) * 0x100 + HexValue(g);
    HexValueAppend(r + g, b);
    assert HexValue(r + g + b) == HexValue(r + g) * 0x100 + HexValue(b);
  }

  /** `hex2color(str(c)) == c`: parsing undoes formatting. */
  lemma Hex2ColorFormat(c: Color)
    ensures Hex2Color(Format(c)) == Ok(c)
  {
    var r, g, b := HexByte(Red(c)), HexByte(Green(c)), HexByte(Blue(c));
    var digits := r + g + b;
    assert IsHexString(r) && IsHexString(g) && IsHexString(b) by {
      forall i | 0 <= i < 2 ensures IsHexDigit(r[i]) && IsHexDigit(g[i]) && IsHexDigit(b[i]) {
        assert IsLowerHexDigit(r[i]) && IsLowerHexDigit(g[i]) && IsLowerHexDigit(b[i]);
      }
    }
    ThreePairs(r, g, b);
    assert Format(c) == "#" + digits;
    assert Expanded(Format(c)) == digits;
    HexByteValue(Red(c));
    HexByteValue(Green(c));
    HexByteValue(Blue(c));
    PackChannels(c);
  }

  lemma HexDigitOfValue(ch: char)
    requires IsHexDigit(ch)
    ensures HexDigit(DigitValue(ch)) == LowerChar(ch)
  {
  }

  lemma PairFormat(s: string)
    requires |s| == 2 && IsHexString(s)
    ensures HexValue(s) < 0x100 && HexByte(HexValue(s)) == Lower(s)
  {
    PairValue(s);
    var v := HexValue(s);
    NibbleSplit(DigitValue(s[0]), DigitValue(s[1]));
    assert v / 16 == DigitValue(s[0]) && v % 16 == DigitValue(s[1]);
    HexDigitOfValue(s[0]);
    HexDigitOfValue(s[1]);
    assert HexByte(v) == [LowerChar(s[0]), LowerChar(s[1])];
  }

  /** Six hex digits are three bytes, most significant first. */
  lemma SixDigits(s: string)
    requires |s| == 6 && IsHexString(s)
    ensures IsHexString(s[..2]) && IsHexString(s[2..4]) && IsHexString(s[4..])
    ensures HexValue(s[..2]) < 0x100 && HexValue(s[2..4]) < 0x100 && HexValue(s[4..]) < 0x100
    ensures HexValue(s) == Pack(HexValue(s[..2]), HexValue(s[2..4]), HexValue(s[4..]))
  {
    var r, g, b := s[..2], s[2..4], s[4..];
    assert s == r + g + b;
    assert IsHexString(r) && IsHexString(g) && IsHexString(b) by {
      forall i | 0 <= i < 2 ensures IsHexDigit(r[i]) && IsHexDigit(g[i]) && IsHexDigit(b[i]) {
        assert r[i] == s[i] && g[i] == s[2 + i] && b[i] == s[4 + i];
      }
    }
    PairValue(r);
    PairValue(g);
    PairValue(b);
    ThreePairs(r, g, b);
  }

  /** `str(hex2color(s))` is `#` and the six digits of `s` lower-cased. */
  lemma FormatHex2Color(s: string)
    requires |s| == 6 && IsHexString(s)
    ensures Hex2Color(s).Ok? && Hex2Color("#" + s) == Hex2Color(s)
    ensures Format(Hex2Color(s).value) == "#" + Lower(s)
  {
    var r, g, b := s[..2], s[2..4], s[4..];
    ParseSix(s);
    PairFormat(r);
    PairFormat(g);
    PairFormat(b);
    LowerSix(s);
  }

  /** Six hex digits, with or without `#`, parse to the three bytes they spell. */
  lemma ParseSix(s: string)
    requires |s| == 6 && IsHexString(s)
    ensures IsHexString(s[..2]) && IsHexString(s[2..4]) && IsHexString(s[4..])
    ensures Hex2Color(s) == Hex2Color("#" + s)
    ensures HexValue(s[..2]) < 0x100 && HexValue(s[2..4]) < 0x100 && HexValue(s[4..]) < 0x100
    ensures Hex2Color(s) == Ok(Pack(HexValue(s[..2]), HexValue(s[2..4]), HexValue(s[4..])))
  {
    assert StripHash("#" + s) == s;
    assert StripHash(s) == s;
    SixDigits(s);
  }

  lemma LowerSix(s: string)
    requires |s| == 6
    ensures Lower(s) == Lower(s[..2]) + Lower(s[2..4]) + Lower(s[4..])
  {
  }

  /** Lower-casing a hex string changes no digit value. */
  lemma {:induction false} HexValueLower(s: string)
    requires IsHexString(s)
    ensures IsHexString(Lower(s)) && HexValue(Lower(s)) == HexValue(s)
  {
    var t := Lower(s);
    assert IsHexString(t) by {
      forall i | 0 <= i < |t| ensures IsHexDigit(t[i]) { assert t[i] == LowerChar(s[i]); }
    }
    if s != [] {
      var s' := s[..|s| - 1];
      assert IsHexString(s') by { forall i | 0 <= i < |s'| ensures IsHexDigit(s'[i]) { assert s'[i] == s[i]; } }
      assert t[..|t| - 1] == Lower(s');
      HexValueLower(s');
    }
  }

  /** `hex2color` ignores the case of its input. */
  lemma Hex2ColorLower(code: string)
    ensures Hex2Color(Lower(code)) == Hex2Color(code)
  {
    var lc := Lower(code);
    assert StripHash(lc) == Lower(StripHash(code));
    var body := StripHash(code);
    assert Expanded(lc) == Lower(Expanded(code)) by {
      if |body| == 3 {
        assert Doubled(Lower(body)) == Lower(Doubled(body));
      }
    }
    var full := Expanded(code);
    if IsHexString(full) {
      HexValueLower(full);
    } else {
      var i :| 0 <= i < |full| && !IsHexDigit(full[i]);
      assert !IsHexDigit(Lower(full)[i]);
    }
  }

  /** A 3-digit code stands for the colour whose channels are each digit doubled. */
  lemma Hex2ColorShorthand(code: string)
    requires |StripHash(code)| == 3 && IsHexString(StripHash(code))
    ensures Hex2Color(code).Ok?
    ensures var c, body := Hex2Color(code).value, StripHash(code);
            Red(c) == 0x11 * DigitValue(body[0]) &&
            Green(c) == 0x11 * DigitValue(body[1]) &&
            Blue(c) == 0x11 * DigitValue(body[2])
  {
    var body := StripHash(code);
    var full := Doubled(body);
    DoubledHex(body);
    SixDigits(full);
    var r, g, b := full[..2], full[2..4], full[4..];
    assert r == [body[0], body[0]] && g == [body[1], body[1]] && b == [body[2], body[2]];
    PairValue(r);
    PairValue(g);
    PairValue(b);
  }

  /** The examples the command's help text gives, and a length the parser refuses. */
  lemma Hex2ColorExamples()
    ensures Hex2Color("#413") == Ok(0x441133)
    ensures Hex2Color("#fff") == Ok(0xffffff)
    ensures Hex2Color("#F0000D") == Ok(0xf0000d)
    ensures Hex2Color("#ffff") == Err(InvalidLength)
  {
    assert DigitValue('4') == 4 && DigitValue('1') == 1 && DigitValue('3') == 3;
    ShorthandExample("#413", 0x44, 0x11, 0x33);
    assert DigitValue('f') == 15;
    ShorthandExample("#fff", 0xff, 0xff, 0xff);
    LongExample();
    assert StripHash("#ffff") == "ffff";
  }

  lemma LongExample()
    ensures Hex2Color("#F0000D") == Ok(0xf0000d)
  {
    var c: Color := 0xf0000d;
    assert Hex2Color("#f0000d") == Ok(c) by {
      assert Red(c) == 0xf0 && Green(c) == 0 && Blue(c) == 0x0d;
      assert Format(c) == "#f0000d";
      Hex2ColorFormat(c);
    }
    assert Lower("#F0000D") == "#f0000d";
    Hex2ColorLower("#F0000D");
  }

  lemma ShorthandExample(code: string, r: Byte, g: Byte, b: Byte)
    requires |code| == 4 && code[0] == '#' && IsHexString(code[1..])
    requires r == 0x11 * DigitValue(code[1]) && g == 0x11 * DigitValue(code[2]) && b == 0x11 * DigitValue(code[3])
    ensures Hex2Color(code) == Ok(Pack(r, g, b))
  {
    Hex2ColorShorthand(code);
    PackChannels(Hex2Color(code).value);
  }
}
