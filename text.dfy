/** The text generator: stripCharsFromString, captchaText and getRandomText. */
module Text {
  import opened Wrappers
  import opened Oracle

  /** stripCharsFromString(string, chars): the characters of s that do not
      occur in chars, in their original order. */
  function Strip(s: string, chars: string): (r: string)
    ensures |r| <= |s|
    ensures forall i :: 0 <= i < |r| ==> r[i] in s && r[i] !in chars
  {
    if s == [] then []
    else
      var rest := Strip(s[1..], chars);
      if s[0] in chars then rest else [s[0]] + rest
  }

  /** Every character outside chars keeps all its occurrences, and every
      character of chars loses all of them. */
  lemma {:induction false} StripCounts(s: string, chars: string)
    ensures forall c :: multiset(Strip(s, chars))[c] == if c in chars then 0 else multiset(s)[c]
    decreases |s|
  {
    if s != [] {
      StripCounts(s[1..], chars);
      assert s == [s[0]] + s[1..];
      assert multiset(s) == multiset{s[0]} + multiset(s[1..]);
    }
  }

  /** Exactly the characters of s outside chars survive the filter. */
  lemma StripMembers(s: string, chars: string, c: char)
    ensures c in Strip(s, chars) <==> c in s && c !in chars
  {
    StripCounts(s, chars);
    var r := Strip(s, chars);
    assert c in r <==> multiset(r)[c] > 0;
    assert c in s <==> multiset(s)[c] > 0;
  }

  lemma StripCons(x: char, rest: string, chars: string)
    ensures Strip([x] + rest, chars) == (if x in chars then [] else [x]) + Strip(rest, chars)
  {
    assert ([x] + rest)[0] == x && ([x] + rest)[1..] == rest;
  }

  /** The filter keeps order: stripping a concatenation concatenates the
      stripped parts. With the one-character case (keep iff not in chars)
      this determines Strip completely. */
  lemma {:induction false} StripAppend(a: string, b: string, chars: string)
    ensures Strip(a + b, chars) == Strip(a, chars) + Strip(b, chars)
    decreases |a|
  {
    if a != [] {
      var x, rest := a[0], a[1..];
      assert a == [x] + rest;
      assert a + b == [x] + (rest + b);
      StripAppend(rest, b, chars);
      StripCons(x, rest + b, chars);
      StripCons(x, rest, chars);
      var head := if x in chars then [] else [x];
      assert head + (Strip(rest, chars) + Strip(b, chars)) == (head + Strip(rest, chars)) + Strip(b, chars);
    } else {
      assert a + b == b;
    }
  }

  /** The text built from the draws: character k is chars[draws[k]], where
      every draw comes from randomInt(0, hi). Fails as randomInt does when
      there is a draw to make and hi <= 0. */
  function PickEach(chars: string, hi: int, draws: seq<int>): (r: Result<string>)
    requires hi <= |chars|
    requires Admissible(draws, 0, hi)
    ensures r.Err? <==> |draws| > 0 && hi <= 0
    ensures r.Err? ==> r.error == OutOfRange
    ensures r.Ok? ==> |r.value| == |draws|
    ensures r.Ok? ==> forall k :: 0 <= k < |draws| ==> 0 <= draws[k] < hi && r.value[k] == chars[draws[k]]
  {
    if draws == [] then Ok([])
    else
      var init :- PickEach(chars, hi, draws[..|draws| - 1]);
      var k :- RandomInt(0, hi, draws[|draws| - 1]);
      Ok(init + [chars[k]])
  }

  /** Every text over chars[..hi] is produced by some admissible draws. */
  lemma {:induction false} PickEachReaches(chars: string, hi: int, t: string)
    requires 0 < hi <= |chars|
    requires forall k :: 0 <= k < |t| ==> t[k] in chars[..hi]
    ensures exists draws :: |draws| == |t| && Admissible(draws, 0, hi) && PickEach(chars, hi, draws) == Ok(t)
    decreases |t|
  {
    if t != [] {
      var init := t[..|t| - 1];
      assert forall k :: 0 <= k < |init| ==> init[k] == t[k];
      PickEachReaches(chars, hi, init);
      var d :| |d| == |init| && Admissible(d, 0, hi) && PickEach(chars, hi, d) == Ok(init);
      var draws := ReachOneMore(chars, hi, d, init, t[|t| - 1]);
      assert init + [t[|t| - 1]] == t;
    }
  }

  /** Draws reaching u extend to draws reaching u plus any character of chars[..hi]. */
  lemma ReachOneMore(chars: string, hi: int, d: seq<int>, u: string, c: char) returns (draws: seq<int>)
    requires 0 < hi <= |chars| && c in chars[..hi]
    requires |d| == |u| && Admissible(d, 0, hi) && PickEach(chars, hi, d) == Ok(u)
    ensures |draws| == |u| + 1 && Admissible(draws, 0, hi) && PickEach(chars, hi, draws) == Ok(u + [c])
  {
    var j := IndexOf(chars[..hi], c);
    PickEachSnoc(chars, hi, d, j, u);
    draws := d + [j];
  }

  lemma IndexOf(s: string, c: char) returns (j: int)
    requires c in s
    ensures 0 <= j < |s| && s[j] == c
  {
    j :| 0 <= j < |s| && s[j] == c;
  }

  /** One more draw appends the character it indexes. */
  lemma PickEachSnoc(chars: string, hi: int, d: seq<int>, j: int, u: string)
    requires 0 <= j < hi <= |chars|
    requires Admissible(d, 0, hi) && PickEach(chars, hi, d) == Ok(u)
    ensures Admissible(d + [j], 0, hi) && PickEach(chars, hi, d + [j]) == Ok(u + [chars[j]])
  {
    var draws := d + [j];
    assert draws[..|draws| - 1] == d;
  }

  /** A character of chars that occurs only at an index >= hi is never produced. */
  lemma PickEachMisses(chars: string, hi: int, draws: seq<int>, c: char)
    requires 0 < hi <= |chars|
    requires Admissible(draws, 0, hi)
    requires c !in chars[..hi]
    ensures c !in PickEach(chars, hi, draws).value
  {
    var r := PickEach(chars, hi, draws).value;
    forall k | 0 <= k < |r| ensures r[k] != c {
      assert r[k] == chars[..hi][draws[k]];
    }
  }

  /** The loop of captchaText (lib/random.js:47-53): size times, append the
      character at a draw from randomInt(0, hi). A size <= 0 runs no
      iteration. */
  method DrawText(chars: string, size: int, hi: int, draws: seq<int>) returns (r: Result<string>)
    requires hi <= |chars|
    requires size <= |draws|
    requires Admissible(draws, 0, hi)
    ensures r == if size <= 0 then Ok([]) else PickEach(chars, hi, draws[..size])
  {
    var out := "";
    var i := 0;
    while i < size
      invariant 0 <= i <= (if size > 0 then size else 0)
      invariant Admissible(draws[..i], 0, hi)
      invariant PickEach(chars, hi, draws[..i]) == Ok(out)
    {
      assert draws[..i + 1][..i] == draws[..i];
      AdmissiblePrefix(draws, i + 1, 0, hi);
      var k :- RandomInt(0, hi, draws[i]);
      out := out + [chars[k]];
      i := i + 1;
    }
    return Ok(out);
  }

  /** The argument of captchaText: a bare number n stands for {size: n};
      no argument at all is {}. A size of 0, an empty ignoreChars and an
      empty charPreset behave exactly as missing ones, since the source reads
      each field through `||`. */
  datatype Options =
    | Count(n: int)
    | Settings(size: int, ignoreChars: string, charPreset: string)
    | NoOptions

  /** options.size || 4: never 0, the given size when one is set. */
  function SizeOf(o: Options): (r: int)
    ensures r != 0
    ensures o.Count? && o.n != 0 ==> r == o.n
    ensures o.Settings? && o.size != 0 ==> r == o.size
    ensures o.NoOptions? ==> r == 4
    ensures (o.Count? && o.n == 0) || (o.Settings? && o.size == 0) ==> r == 4
  {
    match o
    case Count(n) => OrDefault(n, 4)
    case Settings(size, _, _) => OrDefault(size, 4)
    case NoOptions => 4
  }

  /** options.ignoreChars || '': only an options object ignores characters. */
  function IgnoreOf(o: Options): (r: string)
    ensures r != "" ==> o.Settings?
    ensures o.Settings? ==> r == o.ignoreChars
  {
    if o.Settings? then o.ignoreChars else ""
  }

  /** The preset in force: the option's, or the configured default. */
  function PresetOf(o: Options, defaultPreset: string): (r: string)
    ensures o.Settings? && o.charPreset != "" ==> r == o.charPreset
    ensures r != defaultPreset ==> o.Settings? && r == o.charPreset != ""
  {
    if o.Settings? && o.charPreset != "" then o.charPreset else defaultPreset
  }

  /** The characters captchaText indexes into after filtering. */
  function Alphabet(o: Options, defaultPreset: string): (chars: string)
    ensures forall c :: c in chars <==> c in PresetOf(o, defaultPreset) && c !in IgnoreOf(o)
  {
    var preset := PresetOf(o, defaultPreset);
    forall c ensures c in Strip(preset, IgnoreOf(o)) <==> c in preset && c !in IgnoreOf(o) {
      StripMembers(preset, IgnoreOf(o), c);
    }
    if IgnoreOf(o) != "" then Strip(preset, IgnoreOf(o)) else preset
  }

  /** captchaText(options) as written: the draws come from randomInt(0, len)
      with len = chars.length - 1, so the last character of the alphabet is
      never drawn, and an alphabet of fewer than two characters makes the
      first draw throw. */
  method CaptchaText(options: Options, defaultPreset: string, draws: seq<int>) returns (r: Result<string>)
    requires SizeOf(options) <= |draws|
    requires Admissible(draws, 0, |Alphabet(options, defaultPreset)| - 1)
    ensures r.Err? <==> SizeOf(options) > 0 && |Alphabet(options, defaultPreset)| < 2
    ensures SizeOf(options) > 0 ==> r == PickEach(Alphabet(options, defaultPreset), |Alphabet(options, defaultPreset)| - 1, draws[..SizeOf(options)])
    ensures r.Ok? ==> |r.value| == if SizeOf(options) > 0 then SizeOf(options) else 0
    ensures r.Ok? ==> forall k :: 0 <= k < |r.value| ==>
      0 <= draws[k] < |Alphabet(options, defaultPreset)| - 1 && r.value[k] == Alphabet(options, defaultPreset)[draws[k]]
    ensures r.Ok? ==> forall k :: 0 <= k < |r.value| ==>
      r.value[k] in PresetOf(options, defaultPreset) && r.value[k] !in IgnoreOf(options)
  {
    var size := SizeOf(options);
    var ignoreChars := IgnoreOf(options);
    var chars := PresetOf(options, defaultPreset);
    if ignoreChars != "" {
      chars := Strip(chars, ignoreChars);
    }
    var len := |chars| - 1;
    r := DrawText(chars, size, len, draws);
    if r.Ok? {
      forall k | 0 <= k < |r.value| ensures r.value[k] in chars {
        assert r.value[k] == chars[draws[k]];
      }
    }
  }

  /** captchaText as its authors evidently meant it: the draws come from
      randomInt(0, chars.length), so every character of the alphabet can be
      drawn and only an empty alphabet fails. */
  method CaptchaTextUniform(options: Options, defaultPreset: string, draws: seq<int>) returns (r: Result<string>)
    requires SizeOf(options) <= |draws|
    requires Admissible(draws, 0, |Alphabet(options, defaultPreset)|)
    ensures r.Err? <==> SizeOf(options) > 0 && |Alphabet(options, defaultPreset)| == 0
    ensures SizeOf(options) > 0 ==> r == PickEach(Alphabet(options, defaultPreset), |Alphabet(options, defaultPreset)|, draws[..SizeOf(options)])
    ensures r.Ok? ==> |r.value| == if SizeOf(options) > 0 then SizeOf(options) else 0
    ensures r.Ok? ==> forall k :: 0 <= k < |r.value| ==>
      0 <= draws[k] < |Alphabet(options, defaultPreset)| && r.value[k] == Alphabet(options, defaultPreset)[draws[k]]
    ensures r.Ok? ==> forall k :: 0 <= k < |r.value| ==>
      r.value[k] in PresetOf(options, defaultPreset) && r.value[k] !in IgnoreOf(options)
  {
    var size := SizeOf(options);
    var ignoreChars := IgnoreOf(options);
    var chars := PresetOf(options, defaultPreset);
    if ignoreChars != "" {
      chars := Strip(chars, ignoreChars);
    }
    r := DrawText(chars, size, |chars|, draws);
    if r.Ok? {
      forall k | 0 <= k < |r.value| ensures r.value[k] in chars {
        assert r.value[k] == chars[draws[k]];
      }
    }
  }

  /** With the alphabet "ab", captchaText only ever returns "aaaa" for the
      default size: 'b' is never drawn. */
  lemma CaptchaTextIgnoresLastChar(draws: seq<int>)
    requires 4 <= |draws| && Admissible(draws, 0, 1)
    ensures PickEach("ab", 1, draws[..4]) == Ok("aaaa")
  {
    AdmissiblePrefix(draws, 4, 0, 1);
    var r := PickEach("ab", 1, draws[..4]);
    assert |r.value| == 4;
    assert forall k :: 0 <= k < 4 ==> r.value[k] == 'a';
    assert r.value == "aaaa";
  }

  /** Array(n) accepts lengths below 2^32 only. */
  const ArrayLengthLimit: int := 0x1_0000_0000

  /** getRandomText(num): num characters of the preset, each at a draw from
      randomInt(0, charPreset.length); a missing num means 4, and a negative
      num, or one of 2^32 or more, makes Array(num) throw. */
  function GetRandomText(preset: string, num: Option<int>, draws: seq<int>): (r: Result<string>)
    requires var n := if num.None? then 4 else num.value;
      0 <= n < ArrayLengthLimit ==> n <= |draws|
    requires Admissible(draws, 0, |preset|)
    ensures var n := if num.None? then 4 else num.value;
      (r.Err? <==> n < 0 || n >= ArrayLengthLimit || (n > 0 && preset == [])) &&
      (n < 0 || n >= ArrayLengthLimit ==> r == Err(InvalidArrayLength)) &&
      (r.Ok? ==> |r.value| == n) &&
      (r.Ok? ==> forall k :: 0 <= k < |r.value| ==> 0 <= draws[k] < |preset| && r.value[k] == preset[draws[k]])
  {
    var n := if num.None? then 4 else num.value;
    if n < 0 || n >= ArrayLengthLimit then Err(InvalidArrayLength)
    else
      AdmissiblePrefix(draws, n, 0, |preset|);
      PickEach(preset, |preset|, draws[..n])
  }

  /** Every text of length num over the preset is a possible result of
      getRandomText(num): no character of the preset is out of reach. */
  lemma GetRandomTextReaches(preset: string, t: string)
    requires preset != [] && |t| < ArrayLengthLimit
    requires forall k :: 0 <= k < |t| ==> t[k] in preset
    ensures exists draws ::
      (Admissible(draws, 0, |preset|) && |draws| == |t| && GetRandomText(preset, Some(|t|), draws) == Ok(t))
  {
    assert preset[..|preset|] == preset;
    PickEachReaches(preset, |preset|, t);
    var draws :| |draws| == |t| && Admissible(draws, 0, |preset|) && PickEach(preset, |preset|, draws) == Ok(t);
    assert draws[..|t|] == draws;
  }
}
