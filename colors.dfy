/** The colour generator: greyColor, getLightness, and the integer parts of
    color (the contrasting lightness band and the packing of the channels
    into "#rrggbb"). */
module Colors {
  import opened Wrappers
  import opened Oracle
  import opened Numerals

  /** greyColor(min, max): the draw of randomInt(min || 1, (max || 9) + 1)
      in hexadecimal, three times, after a '#'. */
  function GreyColor(min: int, max: int, draw: int): (r: Result<string>)
    requires OrDefault(min, 1) <= OrDefault(max, 9) ==> OrDefault(min, 1) <= draw <= OrDefault(max, 9)
    ensures r.Err? <==> OrDefault(max, 9) < OrDefault(min, 1)
    ensures r.Ok? ==> exists h :: r.value == "#" + h + h + h && ParseInt(h, 16) == Some(draw) && Canonical(h, 16)
  {
    var drawn := RandomInt(OrDefault(min, 1), OrDefault(max, 9) + 1, draw);
    if drawn.Err? then Err(drawn.error)
    else
      var h := ToString(drawn.value, 16);
      ParseIntOfToString(drawn.value, 16);
      Ok("#" + h + h + h)
  }

  /** A draw within one hexadecimal digit gives "#ddd": four characters, the
      same lower-case digit three times, denoting the draw. This covers the
      defaults, whose draws lie in [1, 9]. */
  lemma GreyColorShape(min: int, max: int, draw: int)
    requires OrDefault(min, 1) <= draw <= OrDefault(max, 9)
    requires 0 <= draw < 16
    ensures GreyColor(min, max, draw).Ok?
    ensures var s := GreyColor(min, max, draw).value;
      |s| == 4 && s[0] == '#' && s[1] == s[2] == s[3] && IsLowerDigit(s[1]) && DigitValue(s[1]) == draw
  {
    assert ToString(draw, 16) == [DigitChar(draw)];
  }

  /** A draw of 16 or more has two or more hexadecimal digits, so the result
      is not a colour of the form "#rgb". */
  lemma GreyColorMalformed(min: int, max: int, draw: int)
    requires OrDefault(min, 1) <= draw <= OrDefault(max, 9)
    requires draw >= 16
    ensures GreyColor(min, max, draw).Ok? && |GreyColor(min, max, draw).value| >= 7
  {
    assert Digits(draw, 16) == Digits(draw / 16, 16) + [DigitChar(draw % 16)];
  }

  /** A colour in the form getLightness reads: '#' followed by three or six
      hexadecimal digits. */
  predicate IsHexColor(c: string)
  {
    |c| >= 1 && c[0] == '#' && (|c| == 4 || |c| == 7) && AllDigits(c[1..], 16)
  }

  /** The inputs the model of getLightness covers: anything not starting
      with '#', and well-formed hexadecimal colours. */
  predicate InModel(c: string)
  {
    c == [] || c[0] != '#' || IsHexColor(c)
  }

  /** The six digits getLightness parses: "rgb" shorthand is doubled digit
      by digit. */
  function Expand(body: string): (six: string)
    requires (|body| == 3 || |body| == 6) && AllDigits(body, 16)
    ensures |six| == 6 && AllDigits(six, 16)
  {
    if |body| == 3 then [body[0], body[0], body[1], body[1], body[2], body[2]] else body
  }

  datatype Rgb = Rgb(r: int, g: int, b: int)

  predicate IsByte(x: int) { 0 <= x < 256 }

  /** The channels of six hexadecimal digits, taken as getLightness takes
      them: hexColor >> 16, hexColor >> 8 & 255 and hexColor & 255. */
  function Channels(six: string): (c: Rgb)
    requires |six| == 6 && AllDigits(six, 16)
    ensures IsByte(c.r) && IsByte(c.g) && IsByte(c.b)
    ensures ParseDigits(six, 16) == c.r * 65536 + c.g * 256 + c.b
  {
    var v := ParseDigits(six, 16);
    ParseDigitsBound(six, 16);
    assert Pow(16, 6) == 16777216;
    Rgb(v / 65536, v / 256 % 256, v % 256)
  }

  /** Three bytes are determined by the number they pack into. */
  lemma PackedBytesUnique(x: Rgb, y: Rgb)
    requires IsByte(x.r) && IsByte(x.g) && IsByte(x.b)
    requires IsByte(y.r) && IsByte(y.g) && IsByte(y.b)
    requires x.r * 65536 + x.g * 256 + x.b == y.r * 65536 + y.g * 256 + y.b
    ensures x == y
  {
    assert x.r == y.r;
    assert x.g == y.g;
  }

  /** Math.max(r, g, b): the largest of the three. */
  function Max3(a: int, b: int, c: int): (m: int)
    ensures m == a || m == b || m == c
    ensures a <= m && b <= m && c <= m
  {
    if a >= b && a >= c then a else if b >= c then b else c
  }

  /** Math.min(r, g, b): the smallest of the three. */
  function Min3(a: int, b: int, c: int): (m: int)
    ensures m == a || m == b || m == c
    ensures m <= a && m <= b && m <= c
  {
    if a <= b && a <= c then a else if b <= c then b else c
  }

  /** getLightness(c) times 510: the lightness is (max + min) / 510 over the
      channels, and 1.0, that is 510 / 510, for a string not starting with '#'. */
  function LightnessSum(c: string): (s: int)
    requires InModel(c)
    ensures 0 <= s <= 510
    ensures c == [] || c[0] != '#' ==> s == 510
  {
    if c == [] || c[0] != '#' then 510
    else
      var ch := Channels(Expand(c[1..]));
      Max3(ch.r, ch.g, ch.b) + Min3(ch.r, ch.g, ch.b)
  }

  /** "#xyz" is read as "#xxyyzz": each channel is 17 times its digit, and
      the lightness is that of the six-digit form. */
  lemma ShorthandChannels(x: char, y: char, z: char)
    requires IsDigit(x, 16) && IsDigit(y, 16) && IsDigit(z, 16)
    ensures IsHexColor(['#', x, y, z]) && IsHexColor(['#', x, x, y, y, z, z])
    ensures Channels(Expand([x, y, z])) == Rgb(17 * DigitValue(x), 17 * DigitValue(y), 17 * DigitValue(z))
    ensures LightnessSum(['#', x, y, z]) == LightnessSum(['#', x, x, y, y, z, z])
  {
    var six := Expand([x, y, z]);
    assert six == [x, x, y, y, z, z];
    var vx, vy, vz := DigitValue(x), DigitValue(y), DigitValue(z);
    assert six[..1] == [x] && six[..1][..0] == [];
    assert ParseDigits(six[..1], 16) == vx;
    assert six[..2][..1] == six[..1];
    assert ParseDigits(six[..2], 16) == 17 * vx;
    assert six[..3][..2] == six[..2];
    assert ParseDigits(six[..3], 16) == 272 * vx + vy;
    assert six[..4][..3] == six[..3];
    assert ParseDigits(six[..4], 16) == 4352 * vx + 17 * vy;
    assert six[..5][..4] == six[..4];
    assert ParseDigits(six[..5], 16) == 69632 * vx + 272 * vy + vz;
    assert six[..6] == six;
    assert ParseDigits(six, 16) == 17 * vx * 65536 + 17 * vy * 256 + 17 * vz;
    PackedBytesUnique(Channels(six), Rgb(17 * vx, 17 * vy, 17 * vz));
    assert ['#', x, y, z][1..] == [x, y, z];
    assert ['#', x, x, y, y, z, z][1..] == six;
  }

  /** White has lightness 1.0 and black 0.0, in either form. */
  lemma WhiteAndBlack()
    ensures LightnessSum("#fff") == LightnessSum("#ffffff") == 510
    ensures LightnessSum("#000") == LightnessSum("#000000") == 0
  {
    ShorthandChannels('f', 'f', 'f');
    ShorthandChannels('0', '0', '0');
  }

  /** Math.round(lightness * 100) for the lightness s / 510: the nearest
      integer to 100 * s / 510, which is never halfway between two
      integers. */
  function RoundPercent(s: int): (p: int)
    requires 0 <= s <= 510
    ensures 0 <= p <= 100
    ensures -51 < 20 * s - 102 * p < 51
  {
    var p := (20 * s + 51) / 102;
    assert (20 * s - 102 * p) % 2 == 0;
    p
  }

  /** JavaScript's `a | b` on non-negative 32-bit integers: bitwise or,
      defined bit by bit from the least significant end. */
  function BitOr(a: nat, b: nat): (r: nat)
    ensures a <= r && b <= r && r <= a + b
    decreases a + b
  {
    if a == 0 then b
    else if b == 0 then a
    else
      var high := BitOr(a / 2, b / 2);
      assert a == 2 * (a / 2) + a % 2 && b == 2 * (b / 2) + b % 2;
      2 * high + (if a % 2 == 1 || b % 2 == 1 then 1 else 0)
  }

  /** JavaScript's `x << k` for a result below 2^31: k shifts by one bit,
      which multiply x by 2^k. */
  function ShiftLeft(x: nat, k: nat): (r: nat)
    ensures r == x * Pow(2, k)
  {
    if k == 0 then x
    else
      var p := Pow(2, k - 1);
      assert 2 * (x * p) == x * (2 * p);
      2 * ShiftLeft(x, k - 1)
  }

  /** Or-ing a field shifted above every set bit of a adds it. */
  lemma {:induction false} BitOrDisjoint(a: nat, x: nat, k: nat)
    requires a < Pow(2, k)
    ensures BitOr(a, ShiftLeft(x, k)) == a + ShiftLeft(x, k)
    decreases k
  {
    if k > 0 && a != 0 && x != 0 {
      var p := Pow(2, k - 1);
      var shifted := ShiftLeft(x, k);
      assert shifted == 2 * (x * p);
      MulMonotone(1, p, x);
      assert shifted / 2 == ShiftLeft(x, k - 1) && shifted % 2 == 0;
      BitOrDisjoint(a / 2, x, k - 1);
    }
  }

  /** ((b | g << 8 | r << 16) | 1 << 24): the number color packs before
      printing it. The fields do not overlap, so it is the channels side by
      side in base 256 behind a marker 1, below 2^25 and so unaffected by the
      32-bit truncation of the operators. */
  function PackWord(r: int, g: int, b: int): (w: int)
    requires IsByte(r) && IsByte(g) && IsByte(b)
    ensures w == 16777216 + r * 65536 + g * 256 + b
  {
    assert Pow(2, 8) == 256 && Pow(2, 16) == 65536 && Pow(2, 24) == 16777216;
    BitOrDisjoint(b, g, 8);
    BitOrDisjoint(b + g * 256, r, 16);
    BitOrDisjoint(b + g * 256 + r * 65536, 1, 24);
    BitOr(BitOr(BitOr(b, ShiftLeft(g, 8)), ShiftLeft(r, 16)), ShiftLeft(1, 24))
  }

  /** PackWord(r, g, b).toString(16).slice(1): the marker bit 1 << 24 makes
      the number seven digits long, and dropping its leading '1' leaves
      exactly six lower-case digits, leading zeros kept, that getLightness
      decodes back into r, g and b. */
  function PackHex(r: int, g: int, b: int): (hex: string)
    requires IsByte(r) && IsByte(g) && IsByte(b)
    ensures |hex| == 6 && AllDigits(hex, 16)
    ensures forall i :: 0 <= i < 6 ==> IsLowerDigit(hex[i])
    ensures Channels(hex) == Rgb(r, g, b)
  {
    var w := PackWord(r, g, b);
    MarkedDigits(w);
    var hex := ToString(w, 16)[1..];
    PackedBytesUnique(Channels(hex), Rgb(r, g, b));
    hex
  }

  /** A number of [2^24, 2^25) prints in hexadecimal as '1' and six digits,
      which denote the number less its marker 2^24. */
  lemma MarkedDigits(w: int)
    requires 16777216 <= w < 33554432
    ensures var full := ToString(w, 16);
      |full| == 7 && full[0] == '1' && AllDigits(full[1..], 16) &&
      (forall i :: 1 <= i < 7 ==> IsLowerDigit(full[i])) &&
      ParseDigits(full[1..], 16) == w - 16777216
  {
    var full := ToString(w, 16);
    assert Pow(16, 6) == 16777216;
    DigitsLeadingOne(w, 16, 6);
    var hex := full[1..];
    assert full == [full[0]] + hex;
    ParseDigitsOfDigits(w, 16);
    ParseDigitsCons(full[0], hex, 16);
  }

  /** The integer parts of color(bgColor). The lightness percentage is drawn
      by randomInt(minLightness, maxLightness + 1) from a band of 21 values,
      given here as the offset of the draw from minLightness; r, g and b are
      the channels the HSL conversion yields. An empty bgColor stands for a
      missing one, which counts as lightness 1.0. */
  method Color(bgColor: string, lightnessOffset: int, r: int, g: int, b: int) returns (c: string, lightness: int)
    requires InModel(bgColor)
    requires 0 <= lightnessOffset <= 20
    requires IsByte(r) && IsByte(g) && IsByte(b)
    ensures |c| == 7 && c[0] == '#' && forall i :: 1 <= i < 7 ==> IsLowerDigit(c[i])
    ensures AllDigits(c[1..], 16)
    ensures Channels(c[1..]) == Rgb(r, g, b)
    ensures var s := if bgColor == "" then 510 else LightnessSum(bgColor);
      var p := RoundPercent(s);
      (s >= 255 ==> p - 45 <= lightness <= p - 25) && (s < 255 ==> p + 25 <= lightness <= p + 45)
    ensures var s := if bgColor == "" then 510 else LightnessSum(bgColor);
      var p := RoundPercent(s);
      lightness == (if s >= 255 then p - 45 else p + 25) + lightnessOffset
    ensures 5 <= lightness <= 95
    ensures (bgColor == "" || bgColor[0] != '#') ==> 55 <= lightness <= 75
  {
    var bgLightness := if bgColor != "" then LightnessSum(bgColor) else 510;
    var minLightness, maxLightness;
    if bgLightness >= 255 {
      minLightness := RoundPercent(bgLightness) - 45;
      maxLightness := RoundPercent(bgLightness) - 25;
    } else {
      minLightness := RoundPercent(bgLightness) + 25;
      maxLightness := RoundPercent(bgLightness) + 45;
    }
    lightness := RandomInt(minLightness, maxLightness + 1, minLightness + lightnessOffset).value;
    var hex := PackHex(r, g, b);
    c := "#" + hex;
    assert c[1..] == hex;
  }
}
