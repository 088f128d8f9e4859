/**
 * `score_string` in `src/lib.rs`, the crate's first English-plaintext scorer.
 * The text (the UTF-8 bytes of a `&str`) is rejected unless it is printable
 * ASCII; otherwise the lower-cased bytes are counted into 95 slots (`b - 32`),
 * the counts are turned into per-mille frequencies, the letter weights are
 * subtracted and the absolute deviations are added up into `sum`; the score is
 * `1 / (sum + 1)`.
 *
 * The counts live in a `[i16; 95]` array. `I16` below is that type: every
 * operation on it must stay in range, which is how a debug build behaves (an
 * overflowing `+`, `-`, `*` or `abs` panics).
 */
module Cryptopals {
  import opened Bytes
  import opened Wrappers
  import opened Histogram

  newtype I16 = x: int | -32768 <= x < 32768

  /** The number of printable ASCII bytes, `' '..'~'`: the length of the count array. */
  const PRINTABLE: nat := 95

  /** Per-mille weight of each letter `a`..`z` in English text. */
  const WEIGHTS: seq<I16> := [82, 15, 28, 43, 130, 22, 20, 61, 70, 1, 8, 40, 24, 67, 75, 19, 1, 60, 63, 91, 28, 10, 24, 1, 20, 1]

  /** `str::is_ascii`: every byte is below 128. */
  predicate IsAscii(text: seq<u8>)
  {
    forall i | 0 <= i < |text| :: text[i] < 128
  }

  /** `u8::to_ascii_lowercase`: `A`..`Z` become `a`..`z`; every other byte is kept. */
  function ToAsciiLower(b: u8): u8
  {
    if 65 <= b <= 90 then b + 32 else b
  }

  function AsciiLower(s: seq<u8>): (r: seq<u8>)
    ensures |r| == |s| && forall i | 0 <= i < |s| :: r[i] == ToAsciiLower(s[i])
  {
    seq(|s|, i requires 0 <= i < |s| => ToAsciiLower(s[i]))
  }

  predicate PrintableByte(b: u8)
  {
    32 <= b <= 126
  }

  predicate Printable(text: seq<u8>)
  {
    forall i | 0 <= i < |text| :: PrintableByte(text[i])
  }

  /** The length of the longest printable prefix of `text`. */
  function PrintablePrefix(text: seq<u8>): (n: nat)
    ensures n <= |text| && Printable(text[..n])
    ensures n < |text| ==> !PrintableByte(text[n])
  {
    if text == [] || !PrintableByte(text[0]) then 0
    else
      var n := 1 + PrintablePrefix(text[1..]);
      assert text[..n] == [text[0]] + text[1..][..n - 1];
      n
  }

  /** The byte counted in slot `j`: `j + 32`. */
  function SlotKeys(): (r: seq<u8>)
    ensures |r| == PRINTABLE && forall j | 0 <= j < PRINTABLE :: r[j] as int == j + 32
  {
    seq(PRINTABLE, j requires 0 <= j < PRINTABLE => (j + 32) as u8)
  }

  /** The 95 counts of the lower-cased text, before normalisation. */
  function Counts(text: seq<u8>): (r: seq<nat>)
    ensures |r| == PRINTABLE
  {
    Tally(AsciiLower(text), SlotKeys())
  }

  /** The weight subtracted from slot `j`: a letter weight for `a`..`z` (slots 65..90), else 0. */
  function Weight(j: int): nat
  {
    if 65 <= j < 91 then WEIGHTS[j - 65] as nat else 0
  }

  lemma WeightBound(j: int)
    ensures Weight(j) <= 130
  {
    if 65 <= j < 91 {
      assert WEIGHTS[j - 65] <= 130;
    }
  }

  function WeightTable(): (r: seq<int>)
    ensures |r| == PRINTABLE && forall j | 0 <= j < PRINTABLE :: r[j] == Weight(j)
  {
    seq(PRINTABLE, j requires 0 <= j < PRINTABLE => Weight(j))
  }

  /** `counts[i] * 1000 / len`: ten times the percentage of slot `i`, rounded down. */
  function PerMille(text: seq<u8>): (r: seq<int>)
    requires |text| > 0
    ensures |r| == PRINTABLE
  {
    seq(PRINTABLE, j requires 0 <= j < PRINTABLE => Counts(text)[j] * 1000 / |text|)
  }

  function Abs(x: int): nat
  {
    if x < 0 then -x else x
  }

  /** The absolute differences of two sequences, position by position. */
  function AbsDiff(a: seq<int>, b: seq<int>): (r: seq<int>)
    requires |a| == |b|
    ensures |r| == |a| && forall i | 0 <= i < |a| :: r[i] == Abs(a[i] - b[i])
  {
    seq(|a|, i requires 0 <= i < |a| => Abs(a[i] - b[i]))
  }

  /** `sum`: the total absolute deviation of the per-mille frequencies from the weights. */
  function DeviationSum(text: seq<u8>): int
    requires |text| > 0
  {
    Sum(AbsDiff(PerMille(text), WeightTable()))
  }

  /** The returned score `1 / (sum + 1)`, on reals. */
  function Reciprocal(sum: nat): (r: real)
    ensures 0.0 < r <= 1.0
  {
    1.0 / (sum + 1) as real
  }

  /**
   * What `score_string` returns: `None` unless every byte is printable ASCII,
   * otherwise the reciprocal of the deviation sum plus one. The empty text is
   * excluded because it divides by zero.
   */
  function Score(text: seq<u8>): Option<real>
    requires Printable(text) ==> |text| > 0
  {
    if Printable(text) then
      DeviationSumBounds(text);
      Some(Reciprocal(DeviationSum(text)))
    else None
  }

  /**
   * The first loop of `score_string` increments an `i16` count for every byte
   * of the printable prefix of an ASCII text (a non-ASCII text is rejected
   * before the loop), so each of those counts must fit.
   */
  predicate CountsFit(text: seq<u8>)
  {
    IsAscii(text) ==>
      forall j | 0 <= j < PRINTABLE :: Counts(text[..PrintablePrefix(text)])[j] < 32768
  }

  /**
   * What `score_string` needs for its `i16` arithmetic not to overflow: the
   * counts fit, and a fully printable text also divides by its length (so it
   * must not be empty) and multiplies each count by 1000, which fits only when
   * every count is at most 32.
   */
  predicate FitsI16(text: seq<u8>)
  {
    CountsFit(text) &&
    (Printable(text) ==> 0 < |text| && forall j | 0 <= j < PRINTABLE :: Counts(text)[j] <= 32)
  }

  /**
   * `score_string(text)` as written, with `i16` counts. It returns the score the
   * reference `Score` describes whenever it does not overflow.
   */
  method ScoreString(text: seq<u8>) returns (r: Option<real>)
    requires FitsI16(text)
    ensures r == Score(text)
  {
    if !IsAscii(text) {
      return None;
    }
    var lower := AsciiLower(text);
    var counts := new I16[PRINTABLE](_ => 0);
    var printable := CountBytes(text, lower, counts);
    if !printable {
      return None;
    }
    CountsSumToLength(text);
    SumBounds(Counts(text), 32);
    var len := |text| as I16;
    ToPerMille(counts, len, text);
    SubtractWeights(counts, text);
    var sum := SumAbs(counts, text);
    DeviationSumBounds(text);
    return Some(1.0 / (sum + 1) as real);
  }

  /**
   * The first loop of `score_string`: counts each lower-cased byte into slot
   * `b - 32`, stopping at the first byte outside `32..=126`.
   */
  method CountBytes(text: seq<u8>, lower: seq<u8>, counts: array<I16>) returns (printable: bool)
    requires IsAscii(text) && CountsFit(text) && lower == AsciiLower(text)
    requires counts.Length == PRINTABLE && forall j | 0 <= j < PRINTABLE :: counts[j] == 0
    modifies counts
    ensures printable == Printable(text)
    ensures printable ==> forall j | 0 <= j < PRINTABLE :: counts[j] as int == Counts(text)[j]
  {
    for k := 0 to |lower|
      invariant Printable(text[..k])
      invariant forall j | 0 <= j < PRINTABLE :: counts[j] as int == Tally(lower[..k], SlotKeys())[j]
    {
      var b := lower[k];
      if b < 32 || b > 126 {
        assert !PrintableByte(text[k]);
        return false;
      }
      CountStep(text, lower, k);
      counts[(b - 32) as int] := counts[(b - 32) as int] + 1;
    }
    assert text[..|text|] == text && lower[..|lower|] == lower;
    return true;
  }

  /**
   * One step of the counting loop over a printable byte: the prefix stays
   * printable, only that byte's slot grows, and it does not overflow.
   */
  lemma CountStep(text: seq<u8>, lower: seq<u8>, k: nat)
    requires IsAscii(text) && CountsFit(text) && lower == AsciiLower(text)
    requires k < |lower| && Printable(text[..k]) && 32 <= lower[k] <= 126
    ensures Printable(text[..k + 1])
    ensures Tally(lower[..k], SlotKeys())[(lower[k] - 32) as int] < 32767
    ensures Tally(lower[..k + 1], SlotKeys())
      == Tally(lower[..k], SlotKeys())[(lower[k] - 32) as int := Tally(lower[..k], SlotKeys())[(lower[k] - 32) as int] + 1]
  {
    var b := lower[k];
    var n := PrintablePrefix(text);
    assert PrintableByte(text[k]);
    assert Printable(text[..k + 1]) by {
      assert forall i | 0 <= i < k + 1 :: text[..k + 1][i] == text[i];
    }
    assert k + 1 <= n;
    var prefix := lower[..k + 1];
    assert prefix == lower[..k] + [b];
    assert AsciiLower(text[..n]) == lower[..n];
    assert prefix == lower[..n][..k + 1];
    TallyStep(lower[..k], b, SlotKeys(), (b - 32) as int);
    OccurrencesPrefix(lower[..n], k + 1, b);
    assert Counts(text[..n])[(b - 32) as int] < 32768;
  }

  /** The second loop: each count becomes `count * 1000 / len` in place. */
  method ToPerMille(counts: array<I16>, len: I16, ghost text: seq<u8>)
    requires |text| > 0 && len as int == |text| && counts.Length == PRINTABLE
    requires forall j | 0 <= j < PRINTABLE :: counts[j] as int == Counts(text)[j] <= 32
    modifies counts
    ensures forall j | 0 <= j < PRINTABLE :: counts[j] as int == PerMille(text)[j]
  {
    for i := 0 to PRINTABLE
      invariant forall j | 0 <= j < i :: counts[j] as int == PerMille(text)[j]
      invariant forall j | i <= j < PRINTABLE :: counts[j] as int == Counts(text)[j] <= 32
    {
      PerMilleBounds(text, i);
      counts[i] := (counts[i] * 1000) / len;
    }
  }

  /** The third loop: the weight of letter `i` is subtracted from slot `i + 65`. */
  method SubtractWeights(counts: array<I16>, ghost text: seq<u8>)
    requires |text| > 0 && counts.Length == PRINTABLE
    requires forall j | 0 <= j < PRINTABLE :: counts[j] as int == PerMille(text)[j]
    modifies counts
    ensures forall j | 0 <= j < PRINTABLE :: counts[j] as int == PerMille(text)[j] - Weight(j)
  {
    for i := 0 to 26
      invariant forall j | 0 <= j < PRINTABLE ::
        counts[j] as int == PerMille(text)[j] - (if 65 <= j < 65 + i then Weight(j) else 0)
    {
      PerMilleBounds(text, i + 65);
      assert Weight(i + 65) == WEIGHTS[i] as int;
      counts[i + 65] := counts[i + 65] - WEIGHTS[i];
    }
  }

  /** The final `counts.iter().map(i16::abs).sum()`, added up from slot 0. */
  method SumAbs(counts: array<I16>, ghost text: seq<u8>) returns (sum: I16)
    requires |text| > 0 && counts.Length == PRINTABLE
    requires forall j | 0 <= j < PRINTABLE :: counts[j] as int == PerMille(text)[j] - Weight(j)
    ensures sum as int == DeviationSum(text)
  {
    ghost var deviations := AbsDiff(PerMille(text), WeightTable());
    DeviationSumBounds(text);
    sum := 0;
    for i := 0 to PRINTABLE
      invariant sum as int == Sum(deviations[..i])
    {
      assert deviations[..i + 1] == deviations[..i] + [deviations[i]];
      SumAppend(deviations[..i], deviations[i]);
      SumPrefix(deviations, i + 1);
      PerMilleBounds(text, i);
      WeightBound(i);
      var a := if counts[i] < 0 then -counts[i] else counts[i];
      assert a as int == deviations[i];
      sum := sum + a;
    }
    assert deviations[..PRINTABLE] == deviations;
  }

  /**
   * `score_string` with the normalisation `counts[i] * 1000 / len` computed in
   * a wider integer type: every printable non-empty text whose counts fit gets
   * its score.
   */
  method ScoreStringWide(text: seq<u8>) returns (r: Option<real>)
    requires CountsFit(text) && (Printable(text) ==> |text| > 0)
    ensures r == Score(text)
  {
    if !IsAscii(text) {
      return None;
    }
    var lower := AsciiLower(text);
    var counts := new I16[PRINTABLE](_ => 0);
    var printable := CountBytes(text, lower, counts);
    if !printable {
      return None;
    }
    ToPerMilleWide(counts, |text|, text);
    SubtractWeights(counts, text);
    var sum := SumAbs(counts, text);
    DeviationSumBounds(text);
    return Some(1.0 / (sum + 1) as real);
  }

  /** The second loop with the product and the quotient taken in `int`. */
  method ToPerMilleWide(counts: array<I16>, len: nat, ghost text: seq<u8>)
    requires |text| > 0 && len == |text| && counts.Length == PRINTABLE
    requires forall j | 0 <= j < PRINTABLE :: counts[j] as int == Counts(text)[j]
    modifies counts
    ensures forall j | 0 <= j < PRINTABLE :: counts[j] as int == PerMille(text)[j]
  {
    for i := 0 to PRINTABLE
      invariant forall j | 0 <= j < i :: counts[j] as int == PerMille(text)[j]
      invariant forall j | i <= j < PRINTABLE :: counts[j] as int == Counts(text)[j]
    {
      PerMilleBounds(text, i);
      counts[i] := ((counts[i] as int * 1000) / len) as I16;
    }
  }

  /**
   * Thirty-three `a`s are printable ASCII, yet `score_string` multiplies their
   * count by 1000 in `i16`: 33000 does not fit, so it panics (or, in a release
   * build, wraps) where a score was due.
   */
  lemma OverflowWitness()
    ensures var t := seq(33, _ => 97 as u8); Printable(t) && 0 < |t| && CountsFit(t) && !FitsI16(t)
  {
    var t := seq(33, _ => 97 as u8);
    assert AsciiLower(t) == t;
    OccurrencesConstant(33, 97 as u8);
    assert Counts(t)[65] == Occurrences(t, SlotKeys()[65]) == 33;
    assert PrintablePrefix(t) == 33 && t[..33] == t;
    forall j | 0 <= j < PRINTABLE ensures Counts(t)[j] < 32768 {
      assert Counts(t)[j] <= |AsciiLower(t)|;
    }
  }

  lemma {:induction false} OccurrencesConstant(n: nat, v: u8)
    ensures Occurrences(seq(n, _ => v), v) == n
  {
    if n > 0 {
      OccurrencesConstant(n - 1, v);
      assert seq(n, _ => v)[..n - 1] == seq(n - 1, _ => v);
    }
  }

  /** Before normalisation the counts of a printable text add up to its length. */
  lemma CountsSumToLength(text: seq<u8>)
    requires Printable(text)
    ensures Sum(Counts(text)) == |text|
  {
    var lower := AsciiLower(text);
    forall i | 0 <= i < |lower| ensures lower[i] in SlotKeys() {
      assert lower[i] == SlotKeys()[(lower[i] - 32) as int];
    }
    assert Distinct(SlotKeys());
    SumOverCovering(lower, SlotKeys());
    SumTally(lower, SlotKeys());
  }

  /** Every per-mille frequency lies in `[0, 1000]`. */
  lemma PerMilleBounds(text: seq<u8>, j: nat)
    requires |text| > 0 && j < PRINTABLE
    ensures 0 <= PerMille(text)[j] <= 1000
  {
    assert Counts(text)[j] <= |text|;
    DivBound(Counts(text)[j] * 1000, |text|, 1000);
  }

  lemma DivBound(a: int, d: int, m: int)
    requires 0 <= a <= d * m && d > 0
    ensures 0 <= a / d <= m
  {
    var q := a / d;
    assert a == q * d + a % d;
    assert q >= m + 1 ==> q * d >= (m + 1) * d;
  }

  /**
   * The deviation sum of a non-empty text lies in `[0, 2004]`: at most the
   * per-mille frequencies (which add up to at most 1000) plus the letter weights
   * (which add up to 1004). So the score lies in `[1/2005, 1]`.
   */
  lemma DeviationSumBounds(text: seq<u8>)
    requires |text| > 0
    ensures 0 <= DeviationSum(text) <= 2004
  {
    var pm := PerMille(text);
    forall j | 0 <= j < PRINTABLE ensures 0 <= pm[j] {
      PerMilleBounds(text, j);
    }
    SumNonnegative(AbsDiff(pm, WeightTable()));
    SumAbsDiff(pm, WeightTable());
    PerMilleSum(text);
    WeightTableSum();
  }

  /** The rounded-down per-mille frequencies add up to at most 1000. */
  lemma PerMilleSum(text: seq<u8>)
    requires |text| > 0
    ensures Sum(PerMille(text)) <= 1000
  {
    var c, l := Counts(text), |text|;
    CountsBelowLength(text);
    FloorSum(c, l);
    assert Floors(c, l) == PerMille(text);
    MulMonotone(l, Sum(PerMille(text)), 1000, Sum(c));
  }

  lemma MulMonotone(l: int, t: int, m: int, c: int)
    requires l > 0 && 0 <= m && l * t <= m * c && c <= l
    ensures t <= m
  {
    assert m * c <= m * l;
    assert t >= m + 1 ==> l * t >= l * (m + 1);
  }

  /** The counts of any text add up to at most its length. */
  lemma CountsBelowLength(text: seq<u8>)
    ensures Sum(Counts(text)) <= |text|
  {
    var lower := AsciiLower(text);
    SumTally(lower, SlotKeys());
    assert Distinct(SlotKeys());
    SumOverBelow(lower, SlotKeys());
  }

  lemma {:induction false} SumOverBelow(xs: seq<u8>, keys: seq<u8>)
    requires Distinct(keys)
    ensures SumOver(xs, keys) <= |xs|
  {
    if xs == [] {
      SumOverEmpty(keys);
    } else {
      var init := xs[..|xs| - 1];
      SumOverBelow(init, keys);
      SumOverAppend(init, xs[|xs| - 1], keys);
      assert init + [xs[|xs| - 1]] == xs;
    }
  }

  function Floors(c: seq<nat>, l: nat): (r: seq<int>)
    requires l > 0
    ensures |r| == |c|
  {
    seq(|c|, j requires 0 <= j < |c| => c[j] * 1000 / l)
  }

  /** Rounding down never gains: `l` times the sum of the quotients is at most the sum of the dividends. */
  lemma {:induction false} FloorSum(c: seq<nat>, l: nat)
    requires l > 0
    ensures l * Sum(Floors(c, l)) <= 1000 * Sum(c)
  {
    if c != [] {
      FloorSum(c[1..], l);
      assert Floors(c, l)[1..] == Floors(c[1..], l);
      var q := c[0] * 1000 / l;
      assert c[0] * 1000 == q * l + (c[0] * 1000) % l;
      assert l * Sum(Floors(c, l)) == l * q + l * Sum(Floors(c[1..], l));
    }
  }

  lemma {:induction false} SumAbsDiff(a: seq<int>, b: seq<int>)
    requires |a| == |b|
    requires forall i | 0 <= i < |a| :: 0 <= a[i] && 0 <= b[i]
    ensures Sum(AbsDiff(a, b)) <= Sum(a) + Sum(b)
  {
    if a != [] {
      assert AbsDiff(a, b)[1..] == AbsDiff(a[1..], b[1..]);
      SumAbsDiff(a[1..], b[1..]);
    }
  }

  /** The letter weights add up to 1004. */
  lemma WeightTableSum()
    ensures Sum(WeightTable()) == 1004
  {
    var letters := seq(26, i requires 0 <= i < 26 => WEIGHTS[i] as int);
    LettersSum(letters);
    var head, tail := seq(65, _ => 0), seq(4, _ => 0);
    assert WeightTable() == head + letters + tail;
    SumConcat(head + letters, tail);
    SumConcat(head, letters);
    SumBounds(head, 0);
    SumBounds(tail, 0);
  }

  lemma LettersSum(letters: seq<int>)
    requires letters == seq(26, i requires 0 <= i < 26 => WEIGHTS[i] as int)
    ensures Sum(letters) == 1004
  {
    var a, b, c, d := [82, 15, 28, 43, 130, 22, 20], [61, 70, 1, 8, 40, 24, 67], [75, 19, 1, 60, 63, 91], [28, 10, 24, 1, 20, 1];
    LettersInChunks(letters);
    ChunkSums();
    SumConcat(c, d);
    SumConcat(b, c + d);
    SumConcat(a, b + (c + d));
  }

  lemma LettersInChunks(letters: seq<int>)
    requires letters == seq(26, i requires 0 <= i < 26 => WEIGHTS[i] as int)
    ensures letters == [82, 15, 28, 43, 130, 22, 20] + ([61, 70, 1, 8, 40, 24, 67] + ([75, 19, 1, 60, 63, 91] + [28, 10, 24, 1, 20, 1]))
  {
    var w := [82, 15, 28, 43, 130, 22, 20] + ([61, 70, 1, 8, 40, 24, 67] + ([75, 19, 1, 60, 63, 91] + [28, 10, 24, 1, 20, 1]));
    assert |w| == 26;
    forall i | 0 <= i < 26 ensures letters[i] == w[i] {
    }
  }

  lemma ChunkSums()
    ensures Sum([82, 15, 28, 43, 130, 22, 20]) == 340 && Sum([61, 70, 1, 8, 40, 24, 67]) == 271
    ensures Sum([75, 19, 1, 60, 63, 91]) == 309 && Sum([28, 10, 24, 1, 20, 1]) == 84
  {
  }

  /** Changing the ASCII case of letters changes neither the verdict nor the score. */
  lemma CaseInvariant(t1: seq<u8>, t2: seq<u8>)
    requires AsciiLower(t1) == AsciiLower(t2)
    requires Printable(t1) ==> |t1| > 0
    ensures Printable(t2) ==> |t2| > 0
    ensures Score(t1) == Score(t2)
  {
    assert |t1| == |AsciiLower(t1)| == |t2|;
    forall i | 0 <= i < |t1| ensures PrintableByte(t1[i]) == PrintableByte(t2[i]) {
      assert ToAsciiLower(t1[i]) == AsciiLower(t1)[i] == ToAsciiLower(t2[i]);
    }
    assert Printable(t1) == Printable(t2);
    if |t1| > 0 {
      assert Counts(t1) == Counts(t2);
      forall j | 0 <= j < PRINTABLE ensures PerMille(t1)[j] == PerMille(t2)[j] {
      }
      assert PerMille(t1) == PerMille(t2);
    }
  }

  /**
   * A text gets a score exactly when it is printable ASCII: tab, LF, CR, the
   * other control bytes, DEL and every non-ASCII character give `None`.
   */
  lemma ScoreDefinedExactly(text: seq<u8>)
    requires Printable(text) ==> |text| > 0
    ensures Score(text).Some? <==> forall i | 0 <= i < |text| :: 32 <= text[i] <= 126
    ensures Score(text).Some? ==> IsAscii(text)
    ensures Score(text).Some? ==> 1.0 / 2005.0 <= Score(text).value <= 1.0
  {
    if Printable(text) {
      DeviationSumBounds(text);
      ReciprocalAtLeast(DeviationSum(text), 2004);
      assert forall i | 0 <= i < |text| :: text[i] < 128 by {
        forall i | 0 <= i < |text| ensures text[i] < 128 {
          assert PrintableByte(text[i]);
        }
      }
    } else {
      var i :| 0 <= i < |text| && !PrintableByte(text[i]);
      assert !(32 <= text[i] <= 126);
    }
  }

  /** A smaller sum gives a larger reciprocal. */
  lemma ReciprocalAtLeast(sum: nat, bound: nat)
    requires sum <= bound
    ensures 1.0 / (bound + 1) as real <= Reciprocal(sum)
  {
    var a, b := (sum + 1) as real, (bound + 1) as real;
    assert a <= b;
    assert 1.0 / b <= 1.0 / a by {
      assert (1.0 / b) * a <= (1.0 / b) * b;
      assert (1.0 / b) * b == 1.0;
    }
  }

  /**
   * A printable byte lands in slot `b - 32` after lower-casing; the weighted
   * slots 65..90 receive exactly the letters, and slot `65 + k` the `k`-th
   * letter in either case.
   */
  lemma LetterSlots(b: u8)
    requires PrintableByte(b)
    ensures PrintableByte(ToAsciiLower(b))
    ensures 65 <= ToAsciiLower(b) as int - 32 <= 90 <==> 65 <= b <= 90 || 97 <= b <= 122
    ensures 65 <= b <= 90 ==> ToAsciiLower(b) as int - 32 == 65 + (b as int - 65)
    ensures 97 <= b <= 122 ==> ToAsciiLower(b) as int - 32 == 65 + (b as int - 97)
  {
  }
}
