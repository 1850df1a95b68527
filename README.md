# Captcha randomisation toolkit, modelled in Dafny

This project models `lib/random.js` of a color-changing SVG captcha generator.
That file is the toolkit which produces a captcha's random content:

- captcha text drawn from a character preset, with some characters optionally excluded (`captchaText`, `getRandomText`, `stripCharsFromString`);
- a two-operand arithmetic challenge with its expected answer (`mathExpr`, `mathExprPlus`, `mathExprMinus`);
- a grey colour `#ddd` (`greyColor`);
- a text colour whose lightness contrasts with a background colour (`getLightness` and the integer parts of `color`).

All randomness in the source comes from `crypto.randomInt(min, max)`. The model does not draw numbers. Each value `randomInt` returns is an input of the operation, called a *draw*. Each draw is required to lie in `[min, max)`, the range `randomInt` promises. So every property below holds for every admissible sequence of draws. When `max <= min`, `randomInt` throws a `RangeError` before it produces anything. The model returns `Err(OutOfRange)` in that case and demands nothing of the draws (`Oracle.Admissible`).

JavaScript's `x || d` defaults are modelled by value. The number 0 and the empty string stand for both "unset" and the falsy value itself, because `||` treats them alike.

Modules:

- `Wrappers`: `Option`, `Result` and the two exceptions the source can raise.
- `Oracle`: `randomInt`, modelled as an oracle over the draws.
- `Numerals`: `Number.prototype.toString(base)` on integers, with its inverse.
- `Text`: the text generator.
- `MathChallenge`: the arithmetic challenge.
- `Colors`: `greyColor`, `getLightness`, the lightness band and the RGB packing of `color`.

Behaviours of the code a reader may not expect:

- An unset `mathExpr` operator becomes `'+'` through `operator || '+'`. It is not a random choice.
- `captchaText` turns a size of 0 into 4, and returns `""` for a negative size. Neither is an error.
- A character set that filtering reduces to fewer than two characters is not reported as an empty alphabet. It makes the first `randomInt(0, len)` throw.
- A background that is not a hexadecimal colour is not validated. One that does not start with `#` counts as lightness 1.0.

## Model

| member | source | states |
|---|---|---|
| `Wrappers.OrDefault` | lib/random.js:24-25 | `x \|\| d` keeps a set (non-zero) `x` and otherwise gives `d`, so the result is set whenever the default is. |
| `Oracle.RandomInt` | lib/random.js:10 | `randomInt(lo, hi)` fails exactly when `hi <= lo`. Otherwise it returns the draw, which lies in `[lo, hi)`. |
| `Numerals.Digits` | lib/random.js:57-58 | The digits of a number: at least one, every one a lower-case digit of the base, and a leading `'0'` only for the number 0, which prints as the single digit `"0"`. |
| `Numerals.ToString` | lib/random.js:57-58 | `n.toString(base)` is a canonical numeral: lower-case digits, no leading zero, never `"-0"`, and a leading `-` exactly when `n` is negative. |
| `Numerals.ToStringOfParseInt` | lib/random.js:57-58 | Every canonical numeral is the `toString` of the number it denotes. |
| `Numerals.CanonicalUnique` | lib/random.js:57-58 | Two canonical numerals that denote the same number are the same string, so "canonical and denotes n" pins the string down to `n.toString(base)`. |
| `Numerals.ParseIntOfToString` | lib/random.js:57-58 | `toString(base)` is inverted by reading the digits back, for every integer, negative ones included (leading `-`). |
| `Numerals.ParseDigitsOfDigits` | lib/random.js:57 | Reading back the digits of a natural number gives that number. |
| `Numerals.ParseDigits` | lib/random.js:136 | Reading digits in a base: no digits denote 0, and a single digit denotes its own value. |
| `Numerals.ParseDigitsLast` | lib/random.js:136 | The last digit of a numeral is its value modulo the base, and the digits before it denote its value divided by the base. |
| `Numerals.ParseDigitsBound` | lib/random.js:136 | A string of k digits denotes a value below base^k, so six hex digits stay below 2^24. |
| `Numerals.ParseDigitsCons` | lib/random.js:121 | The leading digit of a numeral weighs base^(number of digits after it). |
| `Numerals.DigitsLeadingOne` | lib/random.js:121 | A number in `[b^k, 2·b^k)` prints with exactly k+1 digits, the first being `'1'`. |
| `Text.Strip` | lib/random.js:16-18 | `stripCharsFromString` keeps no character of `chars` and adds none that is not in the input. |
| `Text.StripCounts` | lib/random.js:16-18 | Every character outside `chars` keeps all its occurrences; characters of `chars` keep none. |
| `Text.StripMembers` | lib/random.js:16-18 | A character survives the filter if and only if it occurs in the input and not in `chars`. |
| `Text.StripAppend` | lib/random.js:16-18 | The filter preserves order: filtering a concatenation concatenates the filtered parts. |
| `Text.PickEach` | lib/random.js:49-51 | Character k of the text is `chars[draws[k]]` with `0 <= draws[k] < hi`. The text fails exactly when a draw is needed and the range is empty. |
| `Text.PickEachReaches` | lib/random.js:172 | Every text over `chars[..hi]` is produced by some admissible draws. |
| `Text.PickEachMisses` | lib/random.js:47-50 | A character that occurs in `chars` only at or after index `hi` never appears in the text. |
| `Text.DrawText` | lib/random.js:47-53 | The `while (++i < size)` loop builds exactly the text `PickEach` describes. It builds `""` when `size <= 0`. |
| `Text.SizeOf` | lib/random.js:32-37 | A bare number `n` stands for `{size: n}`. `size \|\| 4` is never 0: a set size is kept, and no size, or size 0, gives 4. |
| `Text.IgnoreOf` | lib/random.js:38 | Only an options object can ignore characters, and then it ignores its `ignoreChars`. |
| `Text.PresetOf` | lib/random.js:41 | A non-empty `charPreset` of the options is used. Otherwise the configured default preset is used. |
| `Text.Alphabet` | lib/random.js:41-45 | The characters indexed after filtering are exactly the preset's characters that are not ignored. |
| `Text.CaptchaText` | lib/random.js:31-54 | Length is `size` (0 becomes 4; negative gives `""`). Character k is `alphabet[draws[k]]` with `draws[k] < alphabet.length - 1`. No character is ignored, and every character comes from the preset. Fails if and only if `size > 0` and fewer than two characters remain. |
| `Text.CaptchaTextIgnoresLastChar` | lib/random.js:47-50 | With the alphabet `"ab"`, every admissible draw gives `"aaaa"`. |
| `Text.CaptchaTextUniform` | lib/random.js:47-50 | Corrected `captchaText`: draws over the whole alphabet, fails only on an empty alphabet, otherwise the same guarantees. |
| `Text.GetRandomText` | lib/random.js:171-173 | `num` characters, each `preset[draws[k]]` with `draws[k] < preset.length`. An unset `num` is 4, and `num = 0` gives `""`. `Array(num)` throws for a negative `num` or one of 2^32 or more. An empty preset throws when `num > 0`. |
| `Text.GetRandomTextReaches` | lib/random.js:171-173 | Every text of length `num` over the preset is a possible result. |
| `MathChallenge.EquationRoundTrip` | lib/random.js:58-64 | An equation `a+b` or `a-b` printed from any two integers reads back as those integers and that operator, and both operands are canonical numerals. |
| `MathChallenge.EquationUnique` | lib/random.js:58-64 | Two equations with canonical operands that read back as the same operands and operator are the same string. |
| `MathChallenge.CanonicalEquationIsPrinted` | lib/random.js:58-64 | An equation whose two operands are canonical numerals is exactly the string printed from what it reads back as. |
| `MathChallenge.PosesUnique` | lib/random.js:56-66 | At most one challenge poses a given equation, so the contracts below fix the text and the equation character for character. |
| `MathChallenge.MathExprPlus` | lib/random.js:56-60 | The equation reads back as `left+right`, and the answer text reads back as the sum. All three numbers are canonical numerals, as `toString` prints them. |
| `MathChallenge.MathExprMinus` | lib/random.js:62-66 | The equation reads back as `left-right`, and the answer text reads back as the signed difference. All three numbers are canonical numerals; the text is never `"-0"`. |
| `MathChallenge.ChosenOperator` | lib/random.js:79-89 | Whatever operator string is passed, the equation uses `'+'` or `'-'`. |
| `MathChallenge.MathExpr` | lib/random.js:75-90 | After `min\|\|1` and `max\|\|9`, it fails exactly when `max < min`. Otherwise both operands lie in `[min, max]`, and the answer is the value of the equation, all three written as canonical numerals. The operator is `ChosenOperator`: unset or `'+'` gives plus, `'-'` gives minus, and any other operator gives plus on draw 1 and minus on draw 2. |
| `MathChallenge.MathExprThreePlusFive` | lib/random.js:75-90 | `mathExpr(1, 9, '+')` with draws 3 and 5 gives `{text: "8", equation: "3+5"}`. |
| `Colors.GreyColor` | lib/random.js:23-29 | Fails exactly when the defaulted range is empty. Otherwise the result is `'#'` plus three identical copies of a canonical hex numeral that denotes the draw. By `Numerals.CanonicalUnique`, that numeral is `draw.toString(16)`. |
| `Colors.GreyColorShape` | lib/random.js:23-29 | A draw in `[0, 15]`, such as any draw under the defaults `[1, 9]`, gives 4 characters: `'#'` and the same lower-case hex digit three times, which denotes the draw. |
| `Colors.GreyColorMalformed` | lib/random.js:26-28 | A draw of 16 or more gives at least 7 characters, which is not a `#rgb` colour. |
| `Colors.Expand` | lib/random.js:131-134 | The digits that are parsed are always six hex digits. |
| `Colors.Channels` | lib/random.js:136-139 | `>> 16`, `>> 8 & 255` and `& 255` give three bytes, which pack back into the parsed number. |
| `Colors.LightnessSum` | lib/random.js:126-144 | The lightness `(max+min)/510` lies in `[0, 1]`. A colour that is empty or does not start with `#` has lightness 1.0 (numerator 510). |
| `Colors.Max3` | lib/random.js:140 | `Math.max(r, g, b)` is one of the three channels and at least each of them. |
| `Colors.Min3` | lib/random.js:141 | `Math.min(r, g, b)` is one of the three channels and at most each of them. |
| `Colors.ShorthandChannels` | lib/random.js:131-139 | `#xyz` has channels `17·x, 17·y, 17·z`, and the same lightness as `#xxyyzz`. |
| `Colors.WhiteAndBlack` | lib/random.js:126-144 | `#fff` and `#ffffff` have lightness 1.0. `#000` and `#000000` have lightness 0. |
| `Colors.RoundPercent` | lib/random.js:104-108 | `Math.round(lightness*100)` is the integer nearest to `100·s/510`. It is never a tie, and it lies in `[0, 100]`. |
| `Colors.BitOr` | lib/random.js:121 | `a \| b` is at least each operand and at most their sum. |
| `Colors.ShiftLeft` | lib/random.js:121 | `x << k`, defined as k one-bit shifts, multiplies `x` by 2^k. |
| `Colors.BitOrDisjoint` | lib/random.js:121 | `a \| (x << k)` equals `a + x·2^k` when `a < 2^k`. |
| `Colors.PackWord` | lib/random.js:121 | `(b \| g<<8 \| r<<16) \| 1<<24` is `2^24 + r·65536 + g·256 + b`. |
| `Colors.MarkedDigits` | lib/random.js:121 | A packed word in `[2^24, 2^25)` prints in hex as `'1'` followed by six lower-case hex digits, which denote the word minus 2^24. |
| `Colors.PackHex` | lib/random.js:121-123 | `toString(16).slice(1)` of the packed word is exactly six lower-case hex digits, leading zeros kept. Decoding them as `getLightness` does gives back `r, g, b`. |
| `Colors.Color` | lib/random.js:100-123 | Result is `'#'` and six lower-case hex digits that decode to `r, g, b`. With `R = round(100·bgLightness)`, the lightness is the inclusive draw `randomInt(min, max + 1)`: the lower end of the band plus the draw's offset 0..20. So it lies in `[R-45, R-25]` when `bgLightness >= 0.5`, and in `[R+25, R+45]` otherwise. It always lies in `[5, 95]`. With no background, or one not starting with `#`, it lies in `[55, 75]`. |

## Left out

- `randomNum` (lib/random.js:12-14) is not modelled. It reads operating-system random bytes and divides in floating point.
- The internals of `crypto.randomInt` are not modelled. Its uniformity and cryptographic strength cannot be stated over given draws. Its own limits (safe integers, a range below 2^48) are not modelled either.
- The HSL-to-RGB conversion is left out, because it is floating point. This covers `hue2rgb`, `q`, `p` and `Math.floor(... * 255)` (lib/random.js:112-119, 146-158). `Colors.Color` takes the channels `r, g, b` as inputs instead. The hue and saturation draws (lib/random.js:97, 99) feed only that conversion, so they are not modelled.
- `Colors.Color` gives the lightness draw as its offset 0..20 from `minLightness`. The band always holds 21 values, so this is the same set of draws.
- The lightness is computed by its numerator `s = max + min`; the lightness itself is `s/510`. `bgLightness >= 0.5` is `s >= 255`. The floating-point error in `bgLightness * 100` is not modelled. It cannot change `Math.round`, because `100·s/510` is never within 1/102 of a half-integer.
- `Colors.LightnessSum` requires its input either not to start with `#`, or to be `#` followed by 3 or 6 hex digits. Three `parseInt`/32-bit coercions of other `#` strings are not modelled: stopping at the first non-hex character, `NaN >> 16 == 0`, and channels above 255 from longer strings.
- JavaScript coercions of arguments of other types are not modelled, for example a non-integer `size`, `num = null`, or a non-string `operator`. The model takes integers and strings.
- `MathChallenge.MathExprPlus`: computes the exact sum. JavaScript adds doubles, so a sum above 2^53 may be rounded. For example, `mathExpr(2**53-10, 2**53-2, '+')` with draws 9007199254740989 and 9007199254740988 gives the text `"18014398509481976"`, not the exact sum …977. Operands below 2^52, which covers every practical range, are computed exactly.
- `MathChallenge.MathExprMinus`: computes the exact difference. JavaScript's double subtraction rounds only when the difference is beyond 2^53 in magnitude.
- `MathChallenge.MathExpr`: inherits the exact arithmetic of the two members above.
- `Text.CaptchaText`: strings are modelled as sequences of Unicode code points. JavaScript's `.length`, `split('')` and `chars[k]` work on UTF-16 code units. For a preset with no character outside the Basic Multilingual Plane, the two views coincide. For one with such a character (an emoji, for instance), the source counts two units and can emit a lone surrogate, which the model does not capture.
- `Text.Strip`: filters code points, not UTF-16 code units. `split('')` breaks an astral character into two surrogates, each of which is filtered on its own.
- `Text.GetRandomText`: indexes the preset by code point, not by UTF-16 code unit, and so differs from the source in the same way for a preset holding astral characters.
- `Number.prototype.toString` is modelled for integers only. It does not cover the exponent notation JavaScript uses from 10^21 on.
- The preset modules `./option-manager` and `./char-preset` are not part of this model. The default preset is a parameter.
- The commented-out code is not modelled (lib/random.js:6-8, 162-169, 175).
- `range_from_0` (lib/random.js:160) is modelled only by its length: `num` entries, and a throw for a negative `num` or one of 2^32 or more.

## Findings

| source | as written | input that shows it | evidently intended | confidence | as-written member | corrected member |
|---|---|---|---|---|---|---|
| lib/random.js:47-50 | `len = chars.length - 1` is passed as the exclusive upper bound of `randomInt(0, len)`, so the last character of the alphabet is never drawn. An alphabet of one character throws. | `captchaText({charPreset: "ab"})` can only return `"aaaa"` | Draw from the whole alphabet, `randomInt(0, chars.length)`, as the inclusive `randomInt` in the commented-out lines 6-8 did with `len` | high, not executed | `Text.CaptchaTextIgnoresLastChar` | `Text.CaptchaTextUniform` |
