/**
  Dominant-colour extraction: the hex colour codec, the weighted colour
  distance, the greedy choice of three mutually distinct colours with its
  fallback palette, and the worker's sampling loop and top-20 ranking.

  The HSL conversion and the vibrancy score are floating point; they enter
  the model as the parameters `retain` (the sample passes the lightness and
  saturation thresholds) and `score` (its vibrancy score).
*/
module ColorExtractor {
  import opened Js

  /** One channel of a canvas pixel (an element of a `Uint8ClampedArray`). */
  type Byte = x: int | 0 <= x < 256

  datatype Rgb = Rgb(r: Byte, g: Byte, b: Byte)

  datatype Palette = Palette(primary: string, secondary: string, accent: string)

  /** Colours of `getDiverseColors`' padding and of `extractColors`' fallback. */
  const DefaultColors: seq<string> := ["#ff0080", "#00ff88", "#00ffff"]
  const DefaultPalette := Palette(DefaultColors[0], DefaultColors[1], DefaultColors[2])

  /** Candidates closer than this (in `colorDistance` units) are "too similar". */
  const MinDistance := 60

  /** The worker keeps the 20 best-scoring colours. */
  const TopColors := 20

  /** The worker samples every 10th pixel of every 10th row. */
  const SampleRate := 10

  /** The lower-case digit of `Number.prototype.toString(16)` for `v`. */
  function HexDigit(v: nat): char
    requires v < 16
  {
    if v < 10 then ('0' as int + v) as char else ('a' as int + v - 10) as char
  }

  // ---------------------------------------------------------------------
  // rgbToHex and hexToRgb
  // ---------------------------------------------------------------------

  /** `x.toString(16)` for a non-negative integer: lower-case digits, no
      leading zeros. */
  function ToHex(x: nat): string
  {
    if x < 16 then [HexDigit(x)] else ToHex(x / 16) + [HexDigit(x % 16)]
  }

  /** `s.padStart(len, fill)` with a one-character `fill`. */
  function PadStart(s: string, len: nat, fill: char): string
    decreases len - |s|
  {
    if |s| >= len then s else PadStart([fill] + s, len, fill)
  }

  /** The worker's `rgbToHex`. */
  function RgbToHex(r: Byte, g: Byte, b: Byte): string
  {
    "#" + PadStart(ToHex(r), 2, '0') + PadStart(ToHex(g), 2, '0') + PadStart(ToHex(b), 2, '0')
  }

  /** Two lower-case hex digits, the high nibble first. */
  function HexPair(x: Byte): string
  {
    [HexDigit(x / 16), HexDigit(x % 16)]
  }

  /** Every byte is written as exactly two lower-case hex digits. */
  lemma ByteToHexDigits(x: Byte)
    ensures PadStart(ToHex(x), 2, '0') == HexPair(x)
  {
    if x >= 16 {
      assert ToHex(x / 16) == [HexDigit(x / 16)];
    }
  }

  /** `rgbToHex` produces '#' followed by six lower-case hex digits. */
  lemma RgbToHexFormat(r: Byte, g: Byte, b: Byte)
    ensures RgbToHex(r, g, b) == "#" + HexPair(r) + HexPair(g) + HexPair(b)
    ensures |RgbToHex(r, g, b)| == 7
  {
    ByteToHexDigits(r);
    ByteToHexDigits(g);
    ByteToHexDigits(b);
  }

  /** A character of the class `[a-f\d]` under the `i` flag. */
  predicate IsHexDigit(c: char)
  {
    '0' <= c <= '9' || 'a' <= c <= 'f' || 'A' <= c <= 'F'
  }

  function DigitValue(c: char): (v: nat)
    requires IsHexDigit(c)
    ensures v < 16
  {
    if '0' <= c <= '9' then c as int - '0' as int
    else if 'a' <= c <= 'f' then c as int - 'a' as int + 10
    else c as int - 'A' as int + 10
  }

  /** `parseInt(pair, 16)` for a two-digit group of the regular expression. */
  function PairValue(hi: char, lo: char): Byte
    requires IsHexDigit(hi) && IsHexDigit(lo)
  {
    16 * DigitValue(hi) + DigitValue(lo)
  }

  /** What `/^#?([a-f\d]{2})([a-f\d]{2})([a-f\d]{2})$/i` accepts, written
      independently of `HexToRgb`: six hex digits, optionally after one '#'. */
  predicate MatchesHexColor(s: string)
  {
    || (|s| == 6 && forall k :: 0 <= k < 6 ==> IsHexDigit(s[k]))
    || (|s| == 7 && s[0] == '#' && forall k :: 1 <= k < 7 ==> IsHexDigit(s[k]))
  }

  /** The digits after the optional '#'. */
  function HexBody(s: string): string
  {
    if |s| > 0 && s[0] == '#' then s[1..] else s
  }

  /** `hexToRgb`: `null` (here `None`) unless the whole string matches. */
  function HexToRgb(s: string): Option<Rgb>
  {
    var d := HexBody(s);
    if |d| == 6 && (forall k :: 0 <= k < 6 ==> IsHexDigit(d[k])) then
      Some(Rgb(PairValue(d[0], d[1]), PairValue(d[2], d[3]), PairValue(d[4], d[5])))
    else
      None
  }

  /** `hexToRgb` returns a colour exactly for the strings the regular
      expression matches. */
  lemma HexToRgbAccepts(s: string)
    ensures HexToRgb(s).Some? <==> MatchesHexColor(s)
  {
  }

  /** A digit's value is written back as the digit in lower case. */
  lemma DigitValueSpelling(c: char)
    requires IsHexDigit(c)
    ensures HexDigit(DigitValue(c)) == LowerChar(c)
  {
  }

  lemma DigitOfHexDigit(v: nat)
    requires v < 16
    ensures IsHexDigit(HexDigit(v)) && DigitValue(HexDigit(v)) == v
  {
  }

  /** The two digits of a byte are read back as that byte. */
  lemma PairOfByte(x: Byte)
    ensures IsHexDigit(HexPair(x)[0]) && IsHexDigit(HexPair(x)[1])
    ensures PairValue(HexPair(x)[0], HexPair(x)[1]) == x
  {
    DigitOfHexDigit(x / 16);
    DigitOfHexDigit(x % 16);
  }

  /** Reading back the six digits of a colour gives the colour. */
  lemma DecodeDigits(c: Rgb)
    ensures var d := HexPair(c.r) + HexPair(c.g) + HexPair(c.b);
      HexToRgb("#" + d) == Some(c)
  {
    PairOfByte(c.r);
    PairOfByte(c.g);
    PairOfByte(c.b);
    var d := HexPair(c.r) + HexPair(c.g) + HexPair(c.b);
    assert HexBody("#" + d) == d;
    assert d == [HexPair(c.r)[0], HexPair(c.r)[1], HexPair(c.g)[0], HexPair(c.g)[1], HexPair(c.b)[0], HexPair(c.b)[1]];
  }

  /** Decoding an encoded colour gives the colour back. */
  lemma HexRoundTrip(c: Rgb)
    ensures HexToRgb(RgbToHex(c.r, c.g, c.b)) == Some(c)
  {
    RgbToHexFormat(c.r, c.g, c.b);
    DecodeDigits(c);
  }

  /** A decoded pair is written back as the lower-case spelling of its digits. */
  lemma PairCanonical(hi: char, lo: char)
    requires IsHexDigit(hi) && IsHexDigit(lo)
    ensures HexPair(PairValue(hi, lo)) == [LowerChar(hi), LowerChar(lo)]
  {
    var p := PairValue(hi, lo);
    DigitValueSpelling(hi);
    DigitValueSpelling(lo);
    assert p / 16 == DigitValue(hi);
    assert p % 16 == DigitValue(lo);
  }

  /** The other direction: encoding a decoded string gives its canonical
      spelling, with the '#' and in lower case. */
  lemma HexCanonical(s: string)
    requires HexToRgb(s).Some?
    ensures var c := HexToRgb(s).value;
      RgbToHex(c.r, c.g, c.b) == "#" + LowerAscii(HexBody(s))
  {
    var c := HexToRgb(s).value;
    var d := HexBody(s);
    RgbToHexFormat(c.r, c.g, c.b);
    PairCanonical(d[0], d[1]);
    PairCanonical(d[2], d[3]);
    PairCanonical(d[4], d[5]);
    var l := LowerAscii(d);
    assert HexPair(c.r) + HexPair(c.g) + HexPair(c.b) == l;
  }

  // ---------------------------------------------------------------------
  // colorDistance
  // ---------------------------------------------------------------------

  function Abs(x: int): nat
  {
    if x < 0 then -x else x
  }

  /** `n * n`, computed by a sum of odd numbers so that facts about it stay
      linear. */
  function Square(n: nat): nat
  {
    if n == 0 then 0 else Square(n - 1) + 2 * n - 1
  }

  lemma {:induction false} SquareIsProduct(n: nat)
    ensures Square(n) == n * n
  {
    if n > 0 {
      SquareIsProduct(n - 1);
      assert (n - 1) * (n - 1) == n * n - 2 * n + 1;
    }
  }

  /** The weighted sum of squares under `colorDistance`'s square root:
      2 dr^2 + 4 dg^2 + 3 db^2. */
  function Weighted(c1: Rgb, c2: Rgb): nat
  {
    2 * Square(Abs(c1.r - c2.r)) + 4 * Square(Abs(c1.g - c2.g)) + 3 * Square(Abs(c1.b - c2.b))
  }

  /** The weighted sum is a squared distance: symmetric and 0 exactly on
      equal colours. */
  lemma WeightedMetric(c1: Rgb, c2: Rgb)
    ensures Weighted(c1, c2) == Weighted(c2, c1)
    ensures Weighted(c1, c2) == 0 <==> c1 == c2
  {
  }

  /** The square of `colorDistance`: `colorDistance` is the square root of
      the weighted sum, and 0 when either string is not a colour. */
  function DistanceSquared(hex1: string, hex2: string): nat
  {
    var c1, c2 := HexToRgb(hex1), HexToRgb(hex2);
    if c1.Some? && c2.Some? then Weighted(c1.value, c2.value) else 0
  }

  /** `colorDistance(a, b) < minDistance`. Both sides of that comparison are
      non-negative and the square root is monotone, so it is equivalent to
      comparing the squared distance with 60 * 60 = 3600. */
  predicate TooSimilar(a: string, b: string)
  {
    DistanceSquared(a, b) < MinDistance * MinDistance
  }

  /** The distance is symmetric, it is 0 when either string
      is not a colour, and between two colours it is 0 exactly when they are
      the same colour. */
  lemma DistanceMetric(a: string, b: string)
    ensures DistanceSquared(a, b) == DistanceSquared(b, a)
    ensures TooSimilar(a, b) <==> TooSimilar(b, a)
    ensures HexToRgb(a).None? || HexToRgb(b).None? ==> DistanceSquared(a, b) == 0
    ensures HexToRgb(a).Some? && HexToRgb(b).Some? ==>
      (DistanceSquared(a, b) == 0 <==> HexToRgb(a) == HexToRgb(b))
  {
    var c1, c2 := HexToRgb(a), HexToRgb(b);
    if c1.Some? && c2.Some? {
      WeightedMetric(c1.value, c2.value);
    }
  }

  /** Every string is too similar to itself: at distance 0, whether it is a
      colour or not. */
  lemma TooSimilarToItself(a: string)
    ensures DistanceSquared(a, a) == 0 && TooSimilar(a, a)
  {
  }

  // ---------------------------------------------------------------------
  // getDiverseColors
  // ---------------------------------------------------------------------

  /** The candidate is at distance at least 60 from every selected colour. */
  predicate DiverseFrom(candidate: string, selected: seq<string>)
  {
    forall j :: 0 <= j < |selected| ==> !SimilarAt(candidate, selected, j)
  }

  /** The candidate is too similar to the selected colour at index `j`. */
  predicate SimilarAt(candidate: string, selected: seq<string>, j: nat)
    requires j < |selected|
  {
    TooSimilar(candidate, selected[j])
  }

  /** The `for (const candidate of colors)` loop from `selected` onwards. */
  function Greedy(selected: seq<string>, candidates: seq<string>, count: nat): seq<string>
    decreases |candidates|
  {
    if |selected| >= count || candidates == [] then selected
    else if DiverseFrom(candidates[0], selected) then Greedy(selected + [candidates[0]], candidates[1..], count)
    else Greedy(selected, candidates[1..], count)
  }

  /** The colours `getDiverseColors` takes from its input; the rest of its
      result is padding. */
  function Chosen(colors: seq<string>, count: nat): seq<string>
    requires |colors| > count
  {
    Greedy([colors[0]], colors, count)
  }

  /** `getDiverseColors(colors, count)` as a value. */
  function DiverseColors(colors: seq<string>, count: nat): seq<string>
    requires count <= |DefaultColors|
  {
    if |colors| <= count then colors
    else
      var chosen := Chosen(colors, count);
      if |chosen| >= count then chosen else chosen + DefaultColors[|chosen|..count]
  }

  /** The inner `for (const selectedColor of selected)` loop, which clears
      `isDiverse` and stops at the first selected colour too similar to the
      candidate. */
  method CheckDiverse(candidate: string, selected: seq<string>) returns (isDiverse: bool)
    ensures isDiverse <==> DiverseFrom(candidate, selected)
  {
    isDiverse := true;
    var j := 0;
    while j < |selected|
      invariant 0 <= j <= |selected|
      invariant DiverseFrom(candidate, selected[..j])
      decreases |selected| - j
    {
      if TooSimilar(candidate, selected[j]) {
        isDiverse := false;
        SimilarMember(candidate, selected, j);
        break;
      }
      DiverseFromPrefix(candidate, selected, j);
      j := j + 1;
    }
    assert isDiverse ==> selected[..j] == selected;
  }

  /** The algorithm as written: a `for` loop with an early `break`, the inner
      loop `CheckDiverse`, and a `while` loop that pads
      with the default colours. */
  method GetDiverseColors(colors: seq<string>, count: nat) returns (selected: seq<string>)
    requires count <= |DefaultColors|
    ensures selected == DiverseColors(colors, count)
  {
    if |colors| <= count {
      return colors;
    }
    selected := [colors[0]];
    var n := 0;
    while n < |colors|
      invariant 0 <= n <= |colors|
      invariant Greedy(selected, colors[n..], count) == Chosen(colors, count)
      decreases |colors| - n
    {
      if |selected| >= count {
        break;
      }
      var candidate := colors[n];
      var isDiverse := CheckDiverse(candidate, selected);
      assert colors[n..][0] == candidate && colors[n..][1..] == colors[n + 1..];
      if isDiverse {
        selected := selected + [candidate];
      }
      n := n + 1;
    }
    ghost var chosen := selected;
    assert chosen == Chosen(colors, count);
    GreedyExtends([colors[0]], colors, count);
    assert |chosen| <= |DefaultColors| by {
      if count == 0 {
        assert chosen == [colors[0]];
      }
    }
    assert chosen + DefaultColors[|chosen|..|chosen|] == chosen;
    while |selected| < count
      invariant |chosen| <= |selected| <= |DefaultColors|
      invariant |chosen| < count ==> |selected| <= count
      invariant |chosen| >= count ==> selected == chosen
      invariant selected == chosen + DefaultColors[|chosen|..|selected|]
      decreases count - |selected|
    {
      selected := selected + [DefaultColors[|selected|]];
    }
    assert |chosen| < count ==> selected == chosen + DefaultColors[|chosen|..count];
    assert |chosen| >= count ==> selected == chosen;
  }

  /** The greedy loop only appends to what it was given: its result is
      `selected` followed by a subsequence of the candidates, it is never
      longer than `count` when `selected` was not, and each appended colour
      is diverse from everything before it. */
  lemma {:induction false} GreedyExtends(selected: seq<string>, candidates: seq<string>, count: nat)
    ensures var r := Greedy(selected, candidates, count);
      && |selected| <= |r|
      && r[..|selected|] == selected
      && IsSubsequence(r[|selected|..], candidates)
      && (|selected| <= count ==> |r| <= count)
      && (forall i :: |selected| <= i < |r| ==> DiverseFrom(r[i], r[..i]))
    decreases |candidates|
  {
    var r := Greedy(selected, candidates, count);
    if |selected| >= count || candidates == [] {
      assert r[|selected|..] == [];
    } else {
      var c, rest := candidates[0], candidates[1..];
      if DiverseFrom(c, selected) {
        var s' := selected + [c];
        GreedyExtends(s', rest, count);
        assert r[..|s'|] == s';
        assert r[..|selected|] == s'[..|selected|] == selected;
        var tail := r[|selected|..];
        assert tail[0] == c && tail[1..] == r[|s'|..];
        assert IsSubsequence(tail, candidates) by {
          assert tail[0] == candidates[0] && tail[1..] == r[|s'|..];
        }
        forall i | |selected| <= i < |r| ensures DiverseFrom(r[i], r[..i]) {
          if i == |selected| {
            assert r[..i] == selected;
          }
        }
      } else {
        GreedyExtends(selected, rest, count);
        SubsequenceOfCons(r[|selected|..], c, rest);
        assert [c] + rest == candidates;
      }
    }
  }

  /** When the greedy loop stops short of `count`, every candidate it saw was
      too similar to some colour it kept: padding is added only when the
      input has no further sufficiently distinct colour. */
  lemma {:induction false} GreedyMaximal(selected: seq<string>, candidates: seq<string>, count: nat)
    ensures var r := Greedy(selected, candidates, count);
      |r| < count ==> forall k :: 0 <= k < |candidates| ==> !DiverseFrom(candidates[k], r)
    decreases |candidates|
  {
    var r := Greedy(selected, candidates, count);
    if |selected| < count && candidates != [] {
      var c, rest := candidates[0], candidates[1..];
      var s' := if DiverseFrom(c, selected) then selected + [c] else selected;
      assert r == Greedy(s', rest, count);
      GreedyMaximal(s', rest, count);
      GreedyExtends(s', rest, count);
      if |r| < count {
        forall k | 0 <= k < |candidates| ensures !DiverseFrom(candidates[k], r) {
          if k == 0 {
            if DiverseFrom(c, selected) {
              assert r[|selected|] == s'[|selected|] == c;
              TooSimilarToItself(c);
              SimilarMember(c, r, |selected|);
            } else {
              var j :| 0 <= j < |selected| && TooSimilar(c, selected[j]);
              assert r[j] == s'[j] == selected[j];
              SimilarMember(c, r, j);
            }
          } else {
            assert candidates[k] == rest[k - 1];
          }
        }
      }
    }
  }

  lemma DiverseFromPrefix(c: string, s: seq<string>, j: nat)
    requires j < |s| && DiverseFrom(c, s[..j]) && !TooSimilar(c, s[j])
    ensures DiverseFrom(c, s[..j + 1])
  {
    var t, u := s[..j + 1], s[..j];
    forall m | 0 <= m < |t| ensures !SimilarAt(c, t, m) {
      if m < j {
        assert t[m] == u[m];
        assert !SimilarAt(c, u, m);
      }
    }
  }

  lemma SimilarMember(c: string, r: seq<string>, j: nat)
    requires j < |r| && TooSimilar(c, r[j])
    ensures !DiverseFrom(c, r)
  {
    assert SimilarAt(c, r, j);
  }

  /** What `getDiverseColors` promises for a long enough input: exactly
      `count` colours (one when `count` is 0), the first of them the input's
      first; the colours it picks come from the input in input order, each at
      distance at least 60 from every colour picked before it; the remaining
      slots hold the default colours for those positions; and padding
      happens only when every input colour is too similar to a picked one. */
  lemma DiverseColorsSpec(colors: seq<string>, count: nat)
    requires count <= |DefaultColors| && |colors| > count
    ensures var r, chosen := DiverseColors(colors, count), Chosen(colors, count);
      && |r| == (if count == 0 then 1 else count)
      && 1 <= |chosen| <= |r|
      && r[0] == colors[0]
      && r[..|chosen|] == chosen
      && IsSubsequence(chosen, colors)
      && (forall i, j :: 0 <= j < i < |chosen| ==> !TooSimilar(chosen[i], chosen[j]))
      && (forall k :: |chosen| <= k < |r| ==> r[k] == DefaultColors[k])
      && (|chosen| < |r| ==> forall k :: 0 <= k < |colors| ==> !DiverseFrom(colors[k], chosen))
  {
    var chosen := Chosen(colors, count);
    var first := [colors[0]];
    TooSimilarToItself(colors[0]);
    assert colors == [colors[0]] + colors[1..];
    assert Greedy(first, colors, count) == Greedy(first, colors[1..], count) by {
      if count > 1 {
        SimilarMember(colors[0], first, 0);
      }
    }
    GreedyExtends(first, colors[1..], count);
    GreedyMaximal(first, colors, count);
    assert chosen[1..] == chosen[|first|..];
    assert IsSubsequence(chosen, colors) by {
      assert chosen[0] == colors[0];
      assert chosen[1..] == chosen[|first|..];
    }
    forall i, j | 0 <= j < i < |chosen| ensures !TooSimilar(chosen[i], chosen[j]) {
      assert DiverseFrom(chosen[i], chosen[..i]);
      assert !SimilarAt(chosen[i], chosen[..i], j);
      assert chosen[..i][j] == chosen[j];
    }
  }

  /** An input no longer than `count` is returned as it is. */
  lemma ShortInputUnchanged(colors: seq<string>, count: nat)
    requires count <= |DefaultColors| && |colors| <= count
    ensures DiverseColors(colors, count) == colors
  {
  }

  // ---------------------------------------------------------------------
  // extractColors: the palette handed back from the worker's result
  // ---------------------------------------------------------------------

  /** `colors[k] || default`: a missing or empty entry falls back to the
      default colour of slot `k`. */
  function Slot(colors: seq<string>, k: nat): string
    requires k < |DefaultColors|
  {
    if k < |colors| && colors[k] != "" then colors[k] else DefaultColors[k]
  }

  /** The `onmessage` handler in `extractColors`: the three diverse colours
      of the ranked candidates, each slot falling back to its default. */
  function PaletteOf(ranked: seq<string>): Palette
  {
    var colors := DiverseColors(ranked, 3);
    Palette(Slot(colors, 0), Slot(colors, 1), Slot(colors, 2))
  }

  /** Each slot of the palette is either a candidate from the worker or the
      default colour of that slot; with more than three non-empty candidates
      it is exactly `getDiverseColors`' result. */
  lemma PaletteSlots(ranked: seq<string>)
    ensures var p := PaletteOf(ranked);
      && (p.primary in ranked || p.primary == DefaultPalette.primary)
      && (p.secondary in ranked || p.secondary == DefaultPalette.secondary)
      && (p.accent in ranked || p.accent == DefaultPalette.accent)
    ensures |ranked| > 3 && (forall k :: 0 <= k < |ranked| ==> ranked[k] != "") ==>
      var r := DiverseColors(ranked, 3);
      PaletteOf(ranked) == Palette(r[0], r[1], r[2])
  {
    var r := DiverseColors(ranked, 3);
    DiverseColorsFrom(ranked, 3);
    if |ranked| > 3 {
      DiverseColorsSpec(ranked, 3);
    }
    SlotsFrom(r, ranked);
  }

  /** The slots of a palette built from colours that are candidates or
      defaults; exactly the colours when there are three non-empty ones. */
  lemma SlotsFrom(colors: seq<string>, ranked: seq<string>)
    requires forall k :: 0 <= k < |colors| ==> colors[k] in ranked || (k < |DefaultColors| && colors[k] == DefaultColors[k])
    ensures && (Slot(colors, 0) in ranked || Slot(colors, 0) == DefaultPalette.primary)
            && (Slot(colors, 1) in ranked || Slot(colors, 1) == DefaultPalette.secondary)
            && (Slot(colors, 2) in ranked || Slot(colors, 2) == DefaultPalette.accent)
    ensures |colors| == 3 && (forall k :: 0 <= k < |ranked| ==> ranked[k] != "") ==>
      Palette(Slot(colors, 0), Slot(colors, 1), Slot(colors, 2)) == Palette(colors[0], colors[1], colors[2])
  {
    if |colors| == 3 && forall k :: 0 <= k < |ranked| ==> ranked[k] != "" {
      forall k | 0 <= k < 3 ensures colors[k] != "" {
        if colors[k] in ranked {
          var m :| 0 <= m < |ranked| && ranked[m] == colors[k];
        }
      }
    }
  }

  /** Every colour `getDiverseColors` returns is one of its input colours or
      the default colour for its position. */
  lemma DiverseColorsFrom(colors: seq<string>, count: nat)
    requires count <= |DefaultColors|
    ensures var r := DiverseColors(colors, count);
      forall k :: 0 <= k < |r| ==> r[k] in colors || (k < |DefaultColors| && r[k] == DefaultColors[k])
  {
    if |colors| > count {
      DiverseColorsSpec(colors, count);
      var r, chosen := DiverseColors(colors, count), Chosen(colors, count);
      forall k | 0 <= k < |r| ensures r[k] in colors || (k < |DefaultColors| && r[k] == DefaultColors[k]) {
        if k < |chosen| {
          assert r[k] == chosen[k];
          SubsequenceMembers(chosen, colors, k);
        }
      }
    }
  }

  lemma {:induction false} SubsequenceMembers(a: seq<string>, b: seq<string>, k: nat)
    requires IsSubsequence(a, b) && k < |a|
    ensures a[k] in b
    decreases |b|
  {
    if a[0] == b[0] && IsSubsequence(a[1..], b[1..]) {
      if k > 0 {
        SubsequenceMembers(a[1..], b[1..], k - 1);
      }
    } else {
      SubsequenceMembers(a, b[1..], k);
    }
  }

  /** No candidates (an image where no sample passes the thresholds) gives
      the default palette. */
  lemma EmptyRankingGivesDefaults()
    ensures PaletteOf([]) == DefaultPalette
  {
  }

  // ---------------------------------------------------------------------
  // The worker: sampling, histogram and ranking
  // ---------------------------------------------------------------------

  /** A sampled pixel position. */
  datatype Pos = Pos(x: nat, y: nat)

  /** The inner loop's positions `x, x + 10, ...` below `width` in row `y`. */
  function RowPositions(width: nat, y: nat, x: nat): seq<Pos>
    decreases width - x
  {
    if x >= width then [] else [Pos(x, y)] + RowPositions(width, y, x + SampleRate)
  }

  /** The positions of the nested loops from row `y` on, in loop order. */
  function GridPositions(width: nat, height: nat, y: nat): seq<Pos>
    decreases height - y
  {
    if y >= height then [] else RowPositions(width, y, 0) + GridPositions(width, height, y + SampleRate)
  }

  /** The position is inside a `width` x `height` image, on every 10th
      column of every 10th row. */
  predicate OnGrid(width: nat, height: nat, p: Pos)
  {
    p.x < width && p.y < height && p.x % SampleRate == 0 && p.y % SampleRate == 0
  }

  lemma {:induction false} RowOnGrid(width: nat, height: nat, y: nat, x: nat)
    requires y < height && y % SampleRate == 0 && x % SampleRate == 0
    ensures forall k :: 0 <= k < |RowPositions(width, y, x)| ==> OnGrid(width, height, RowPositions(width, y, x)[k])
    decreases width - x
  {
    if x < width {
      RowOnGrid(width, height, y, x + SampleRate);
      var ps, rest := RowPositions(width, y, x), RowPositions(width, y, x + SampleRate);
      assert ps == [Pos(x, y)] + rest;
      forall k | 0 <= k < |ps| ensures OnGrid(width, height, ps[k]) {
        if k > 0 {
          assert ps[k] == rest[k - 1];
        }
      }
    }
  }

  /** Every position the nested loops visit is inside the image, on every
      10th column of every 10th row. */
  lemma {:induction false} SampledPositions(width: nat, height: nat, y: nat)
    requires y % SampleRate == 0
    ensures forall k :: 0 <= k < |GridPositions(width, height, y)| ==>
      OnGrid(width, height, GridPositions(width, height, y)[k]) && y <= GridPositions(width, height, y)[k].y
    decreases height - y
  {
    if y < height {
      var row, rest := RowPositions(width, y, 0), GridPositions(width, height, y + SampleRate);
      RowOnGrid(width, height, y, 0);
      SampledPositions(width, height, y + SampleRate);
      var ps := row + rest;
      forall k | 0 <= k < |ps| ensures OnGrid(width, height, ps[k]) && y <= ps[k].y {
        if k < |row| {
          assert ps[k] == row[k];
          RowInRow(width, y, 0, k);
        } else {
          assert ps[k] == rest[k - |row|];
        }
      }
    }
  }

  lemma {:induction false} RowInRow(width: nat, y: nat, x: nat, k: nat)
    requires k < |RowPositions(width, y, x)|
    ensures RowPositions(width, y, x)[k].y == y
    decreases width - x
  {
    if k > 0 {
      RowInRow(width, y, x + SampleRate, k - 1);
    }
  }

  /** `i = (y * width + x) * 4` and the two bytes after it are inside a
      `width * height * 4` pixel buffer for every position inside the image. */
  lemma SampleIndexInBounds(width: nat, height: nat, x: nat, y: nat)
    requires x < width && y < height
    ensures (y * width + x) * 4 + 2 < width * height * 4
  {
    MulMonotone(y + 1, height, width);
    assert (y + 1) * width == y * width + width;
    assert width * height == height * width;
  }

  lemma {:induction false} MulMonotone(a: nat, b: nat, c: nat)
    requires a <= b
    ensures a * c <= b * c
    decreases c
  {
    if c > 0 {
      MulMonotone(a, b, c - 1);
      assert a * c == a * (c - 1) + a;
      assert b * c == b * (c - 1) + b;
    }
  }

  /** The worker's map from hex colour to accumulated score, with its keys in
      insertion order. */
  datatype Histogram = Histogram(keys: seq<string>, score: map<string, real>)

  const EmptyHistogram := Histogram([], map[])

  ghost predicate WellFormed(h: Histogram)
  {
    Distinct(h.keys) && forall k :: k in h.score <==> k in h.keys
  }

  /** `colorMap.set(hex, (colorMap.get(hex) || 0) + score)`. */
  function AddScore(h: Histogram, hex: string, v: real): Histogram
  {
    if hex in h.score then Histogram(h.keys, h.score[hex := h.score[hex] + v])
    else Histogram(h.keys + [hex], h.score[hex := v])
  }

  /** The pixel the worker reads at `(y * width + x) * 4`. The black pixel
      of the out-of-range case is never read (`SampledPositions`). */
  function PixelAt(pixels: seq<Byte>, width: nat, p: Pos): Rgb
  {
    var i := (p.y * width + p.x) * 4;
    if 0 <= i && i + 2 < |pixels| then Rgb(pixels[i], pixels[i + 1], pixels[i + 2]) else Rgb(0, 0, 0)
  }

  /** One iteration of the inner loop body. */
  function Sample(h: Histogram, pixels: seq<Byte>, width: nat, p: Pos,
                  retain: (Byte, Byte, Byte) -> bool, score: (Byte, Byte, Byte) -> real): Histogram
  {
    var c := PixelAt(pixels, width, p);
    if retain(c.r, c.g, c.b) then AddScore(h, RgbToHex(c.r, c.g, c.b), score(c.r, c.g, c.b)) else h
  }

  /** The loop body applied to each position in turn. */
  function Accumulate(h: Histogram, pixels: seq<Byte>, width: nat, ps: seq<Pos>,
                      retain: (Byte, Byte, Byte) -> bool, score: (Byte, Byte, Byte) -> real): Histogram
    decreases |ps|
  {
    if ps == [] then h
    else Accumulate(Sample(h, pixels, width, ps[0], retain, score), pixels, width, ps[1..], retain, score)
  }

  /** The colour map the worker builds from a `width` x `height` image. */
  function ColorHistogram(pixels: seq<Byte>, width: nat, height: nat,
                          retain: (Byte, Byte, Byte) -> bool, score: (Byte, Byte, Byte) -> real): Histogram
  {
    Accumulate(EmptyHistogram, pixels, width, GridPositions(width, height, 0), retain, score)
  }

  /** Accumulating two runs of positions is accumulating the first run and
      then the second. */
  lemma {:induction false} AccumulateAppend(h: Histogram, pixels: seq<Byte>, width: nat, ps: seq<Pos>, qs: seq<Pos>,
                                            retain: (Byte, Byte, Byte) -> bool, score: (Byte, Byte, Byte) -> real)
    ensures Accumulate(h, pixels, width, ps + qs, retain, score)
         == Accumulate(Accumulate(h, pixels, width, ps, retain, score), pixels, width, qs, retain, score)
    decreases |ps|
  {
    if ps == [] {
      assert ps + qs == qs;
    } else {
      assert (ps + qs)[0] == ps[0];
      assert (ps + qs)[1..] == ps[1..] + qs;
      AccumulateAppend(Sample(h, pixels, width, ps[0], retain, score), pixels, width, ps[1..], qs, retain, score);
    }
  }

  /** The three bytes the loop body reads at a position inside the image are
      inside the pixel buffer and are the pixel the model samples there. */
  lemma PixelRead(pixels: seq<Byte>, width: nat, height: nat, x: nat, y: nat)
    requires |pixels| == width * height * 4 && x < width && y < height
    ensures 0 <= (y * width + x) * 4 && (y * width + x) * 4 + 2 < |pixels|
    ensures var i := (y * width + x) * 4;
      PixelAt(pixels, width, Pos(x, y)) == Rgb(pixels[i], pixels[i + 1], pixels[i + 2])
  {
    SampleIndexInBounds(width, height, x, y);
  }

  /** The inner loop over one row: every 10th pixel of row `y`. */
  method SampleRow(colorMap0: Histogram, pixels: seq<Byte>, width: nat, height: nat, y: nat,
                   retain: (Byte, Byte, Byte) -> bool, score: (Byte, Byte, Byte) -> real)
    returns (colorMap: Histogram)
    requires |pixels| == width * height * 4 && y < height
    ensures colorMap == Accumulate(colorMap0, pixels, width, RowPositions(width, y, 0), retain, score)
  {
    colorMap := colorMap0;
    var x := 0;
    while x < width
      invariant Accumulate(colorMap, pixels, width, RowPositions(width, y, x), retain, score)
             == Accumulate(colorMap0, pixels, width, RowPositions(width, y, 0), retain, score)
      decreases width - x
    {
      assert RowPositions(width, y, x) == [Pos(x, y)] + RowPositions(width, y, x + SampleRate);
      PixelRead(pixels, width, height, x, y);
      var i := (y * width + x) * 4;
      var r, g, b := pixels[i], pixels[i + 1], pixels[i + 2];
      if retain(r, g, b) {
        colorMap := AddScore(colorMap, RgbToHex(r, g, b), score(r, g, b));
      }
      x := x + SampleRate;
    }
  }

  /** The worker's nested sampling loops over the image data (whose length
      `getImageData` makes `width * height * 4`). */
  method SampleColors(pixels: seq<Byte>, width: nat, height: nat,
                      retain: (Byte, Byte, Byte) -> bool, score: (Byte, Byte, Byte) -> real)
    returns (colorMap: Histogram)
    requires |pixels| == width * height * 4
    ensures colorMap == ColorHistogram(pixels, width, height, retain, score)
  {
    colorMap := EmptyHistogram;
    var y := 0;
    while y < height
      invariant Accumulate(colorMap, pixels, width, GridPositions(width, height, y), retain, score)
             == ColorHistogram(pixels, width, height, retain, score)
      decreases height - y
    {
      AccumulateAppend(colorMap, pixels, width, RowPositions(width, y, 0), GridPositions(width, height, y + SampleRate),
                       retain, score);
      colorMap := SampleRow(colorMap, pixels, width, height, y, retain, score);
      y := y + SampleRate;
    }
  }

  /** The position `p` holds a retained pixel whose colour is `hex`. */
  predicate RetainedAs(pixels: seq<Byte>, width: nat, p: Pos, hex: string, retain: (Byte, Byte, Byte) -> bool)
  {
    var c := PixelAt(pixels, width, p);
    retain(c.r, c.g, c.b) && RgbToHex(c.r, c.g, c.b) == hex
  }

  /** The total score of the retained samples among `ps` whose colour is `hex`. */
  function ScoreOf(pixels: seq<Byte>, width: nat, ps: seq<Pos>, hex: string,
                   retain: (Byte, Byte, Byte) -> bool, score: (Byte, Byte, Byte) -> real): real
    decreases |ps|
  {
    if ps == [] then 0.0
    else
      var c := PixelAt(pixels, width, ps[0]);
      (if RetainedAs(pixels, width, ps[0], hex, retain) then score(c.r, c.g, c.b) else 0.0)
      + ScoreOf(pixels, width, ps[1..], hex, retain, score)
  }

  lemma AddScoreWellFormed(h: Histogram, hex: string, v: real)
    requires WellFormed(h)
    ensures WellFormed(AddScore(h, hex, v))
  {
    if hex !in h.score {
      var keys := h.keys + [hex];
      forall i, j | 0 <= i < j < |keys| ensures keys[i] != keys[j] {
        if j == |h.keys| { assert keys[i] == h.keys[i]; }
      }
    }
  }

  /** Accumulating keeps the map well formed, adds a key exactly for the
      colours of retained samples, and adds to each colour the scores of its
      retained samples. */
  lemma {:induction false} AccumulateScores(h: Histogram, pixels: seq<Byte>, width: nat, ps: seq<Pos>, hex: string,
                                            retain: (Byte, Byte, Byte) -> bool, score: (Byte, Byte, Byte) -> real)
    requires WellFormed(h)
    ensures var r := Accumulate(h, pixels, width, ps, retain, score);
      && WellFormed(r)
      && (hex in r.score <==> hex in h.score || exists k :: 0 <= k < |ps| && RetainedAs(pixels, width, ps[k], hex, retain))
      && (hex in r.score ==>
            r.score[hex] == (if hex in h.score then h.score[hex] else 0.0) + ScoreOf(pixels, width, ps, hex, retain, score))
    decreases |ps|
  {
    if ps != [] {
      var c := PixelAt(pixels, width, ps[0]);
      if retain(c.r, c.g, c.b) {
        AddScoreWellFormed(h, RgbToHex(c.r, c.g, c.b), score(c.r, c.g, c.b));
      }
      var h' := Sample(h, pixels, width, ps[0], retain, score);
      AccumulateScores(h', pixels, width, ps[1..], hex, retain, score);
      var tail := ps[1..];
      if exists k :: 0 <= k < |tail| && RetainedAs(pixels, width, tail[k], hex, retain) {
        var k :| 0 <= k < |tail| && RetainedAs(pixels, width, tail[k], hex, retain);
        assert ps[k + 1] == tail[k];
      }
      if exists k :: 0 <= k < |ps| && RetainedAs(pixels, width, ps[k], hex, retain) {
        var k :| 0 <= k < |ps| && RetainedAs(pixels, width, ps[k], hex, retain);
        if k > 0 {
          assert tail[k - 1] == ps[k];
        }
      }
    }
  }

  /** Each histogram value is the sum of the scores of the retained samples
      with that colour, and only colours of retained samples are keys. */
  lemma HistogramScores(pixels: seq<Byte>, width: nat, height: nat, hex: string,
                        retain: (Byte, Byte, Byte) -> bool, score: (Byte, Byte, Byte) -> real)
    ensures var h, ps := ColorHistogram(pixels, width, height, retain, score), GridPositions(width, height, 0);
      && WellFormed(h)
      && (hex in h.score <==> exists k :: 0 <= k < |ps| && RetainedAs(pixels, width, ps[k], hex, retain))
      && (hex in h.score ==> h.score[hex] == ScoreOf(pixels, width, ps, hex, retain, score))
  {
    AccumulateScores(EmptyHistogram, pixels, width, GridPositions(width, height, 0), hex, retain, score);
  }

  /** `(a, b) => b[1] - a[1]` in a stable sort: `x` goes before the first
      element that does not score more than it. */
  function Insert(x: string, t: seq<string>, score: map<string, real>): (r: seq<string>)
    requires x in score && forall k :: 0 <= k < |t| ==> t[k] in score
    ensures multiset(r) == multiset(t) + multiset{x}
    ensures forall k :: 0 <= k < |r| ==> r[k] in score
  {
    if t == [] || score[x] >= score[t[0]] then [x] + t
    else
      assert t == [t[0]] + t[1..];
      [t[0]] + Insert(x, t[1..], score)
  }

  /** A stable sort by descending score (the engine's `Array.prototype.sort`
      is stable, so its result is this one). */
  function SortByScore(s: seq<string>, score: map<string, real>): (r: seq<string>)
    requires forall k :: 0 <= k < |s| ==> s[k] in score
    ensures multiset(r) == multiset(s)
    ensures forall k :: 0 <= k < |r| ==> r[k] in score
  {
    if s == [] then []
    else
      assert s == [s[0]] + s[1..];
      Insert(s[0], SortByScore(s[1..], score), score)
  }

  predicate Descending(s: seq<string>, score: map<string, real>)
    requires forall k :: 0 <= k < |s| ==> s[k] in score
  {
    forall i, j :: 0 <= i < j < |s| ==> score[s[i]] >= score[s[j]]
  }

  lemma {:induction false} InsertDescending(x: string, t: seq<string>, score: map<string, real>)
    requires x in score && forall k :: 0 <= k < |t| ==> t[k] in score
    requires Descending(t, score)
    ensures Descending(Insert(x, t, score), score)
    decreases |t|
  {
    if !(t == [] || score[x] >= score[t[0]]) {
      InsertDescending(x, t[1..], score);
      var r := Insert(x, t, score);
      var tail := Insert(x, t[1..], score);
      forall k | 0 <= k < |tail| ensures score[t[0]] >= score[tail[k]] {
        assert tail[k] in multiset(tail);
        if tail[k] != x {
          assert tail[k] in multiset(t[1..]);
          var m :| 0 <= m < |t[1..]| && t[1..][m] == tail[k];
          assert t[m + 1] == tail[k];
        }
      }
    }
  }

  lemma {:induction false} SortDescending(s: seq<string>, score: map<string, real>)
    requires forall k :: 0 <= k < |s| ==> s[k] in score
    ensures Descending(SortByScore(s, score), score)
    decreases |s|
  {
    if s != [] {
      SortDescending(s[1..], score);
      InsertDescending(s[0], SortByScore(s[1..], score), score);
    }
  }

  lemma {:induction false} DistinctByMultiset(s: seq<string>, t: seq<string>)
    requires Distinct(s) && multiset(t) == multiset(s)
    ensures Distinct(t)
  {
    forall i, j | 0 <= i < j < |t| ensures t[i] != t[j] {
      if t[i] == t[j] {
        var x := t[i];
        assert multiset(t)[x] >= 2 by {
          assert t == t[..j] + [t[j]] + t[j + 1..];
          assert t[i] in multiset(t[..j]);
        }
        DistinctCountsOnce(s, x);
      }
    }
  }

  lemma {:induction false} DistinctCountsOnce(s: seq<string>, x: string)
    requires Distinct(s)
    ensures multiset(s)[x] <= 1
    decreases |s|
  {
    if s != [] {
      assert s == [s[0]] + s[1..];
      DistinctCountsOnce(s[1..], x);
      if s[0] == x {
        assert x !in s[1..];
      }
    }
  }

  /** The worker's reply: the keys ordered by descending score, cut to 20. */
  function Ranked(h: Histogram): seq<string>
    requires WellFormed(h)
  {
    var sorted := SortByScore(h.keys, h.score);
    if |sorted| <= TopColors then sorted else sorted[..TopColors]
  }

  /** Sorting the keys keeps them distinct, keeps their number and their
      presence in the map, and orders them by non-increasing score. */
  lemma SortedKeys(h: Histogram)
    requires WellFormed(h)
    ensures var sorted := SortByScore(h.keys, h.score);
      && |sorted| == |h.keys|
      && Distinct(sorted)
      && (forall k :: 0 <= k < |sorted| ==> sorted[k] in h.score)
      && (forall x :: x in h.score ==> x in sorted)
      && Descending(sorted, h.score)
  {
    var sorted := SortByScore(h.keys, h.score);
    SortDescending(h.keys, h.score);
    DistinctByMultiset(h.keys, sorted);
    assert |multiset(sorted)| == |multiset(h.keys)|;
    forall x | x in h.score ensures x in sorted {
      assert x in multiset(h.keys);
    }
  }

  /** The ranking holds at most 20 distinct colours of the histogram in
      non-increasing score order, and every colour it leaves out scores no
      more than any colour it keeps. */
  lemma RankedTop(h: Histogram)
    requires WellFormed(h)
    ensures var r := Ranked(h);
      && |r| == (if |h.keys| <= TopColors then |h.keys| else TopColors)
      && Distinct(r)
      && (forall k :: 0 <= k < |r| ==> r[k] in h.score)
      && Descending(r, h.score)
      && (forall x, k :: x in h.score && x !in r && 0 <= k < |r| ==> h.score[r[k]] >= h.score[x])
  {
    var sorted := SortByScore(h.keys, h.score);
    SortedKeys(h);
    TopOfSorted(sorted, h.score, if |sorted| <= TopColors then |sorted| else TopColors);
  }

  /** The first `n` elements of a distinct sequence ordered by
      non-increasing score are distinct and ordered, and score at least as
      much as every other element of the sequence. */
  lemma TopOfSorted(sorted: seq<string>, score: map<string, real>, n: nat)
    requires n <= |sorted| && Distinct(sorted)
    requires forall k :: 0 <= k < |sorted| ==> sorted[k] in score
    requires Descending(sorted, score)
    ensures var r := sorted[..n];
      && Distinct(r)
      && (forall k :: 0 <= k < |r| ==> r[k] in score)
      && Descending(r, score)
      && (forall x, k :: x in sorted && x !in r && 0 <= k < |r| ==> score[r[k]] >= score[x])
  {
    var r := sorted[..n];
    assert forall k :: 0 <= k < |r| ==> r[k] == sorted[k];
    forall x, k | x in sorted && x !in r && 0 <= k < |r| ensures score[r[k]] >= score[x] {
      var j :| 0 <= j < |sorted| && sorted[j] == x;
      assert j >= n;
    }
  }

  /** All-gray image: when no pixel of the image passes the thresholds,
      the histogram is empty, the worker replies with no colours and the
      palette is the default one. */
  lemma NothingRetainedGivesDefaults(pixels: seq<Byte>, width: nat, height: nat,
                                     retain: (Byte, Byte, Byte) -> bool, score: (Byte, Byte, Byte) -> real)
    requires |pixels| == width * height * 4
    requires forall i :: 0 <= i && i + 2 < |pixels| && i % 4 == 0 ==> !retain(pixels[i], pixels[i + 1], pixels[i + 2])
    ensures ColorHistogram(pixels, width, height, retain, score) == EmptyHistogram
    ensures Ranked(ColorHistogram(pixels, width, height, retain, score)) == []
    ensures PaletteOf(Ranked(ColorHistogram(pixels, width, height, retain, score))) == DefaultPalette
  {
    var ps := GridPositions(width, height, 0);
    SampledPositions(width, height, 0);
    forall k | 0 <= k < |ps| ensures !Retained(pixels, width, ps[k], retain) {
      PixelRead(pixels, width, height, ps[k].x, ps[k].y);
    }
    NothingRetainedKeeps(EmptyHistogram, pixels, width, ps, retain, score);
  }

  /** The pixel at `p` passes the thresholds. */
  predicate Retained(pixels: seq<Byte>, width: nat, p: Pos, retain: (Byte, Byte, Byte) -> bool)
  {
    var c := PixelAt(pixels, width, p);
    retain(c.r, c.g, c.b)
  }

  lemma {:induction false} NothingRetainedKeeps(h: Histogram, pixels: seq<Byte>, width: nat, ps: seq<Pos>,
                                                retain: (Byte, Byte, Byte) -> bool, score: (Byte, Byte, Byte) -> real)
    requires forall k :: 0 <= k < |ps| ==> !Retained(pixels, width, ps[k], retain)
    ensures Accumulate(h, pixels, width, ps, retain, score) == h
    decreases |ps|
  {
    if ps != [] {
      NothingRetainedKeeps(h, pixels, width, ps[1..], retain, score);
    }
  }
}
