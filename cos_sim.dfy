/**
 * The integer part of `CharFreq::from_str` in `src/cos_sim.rs`: the text is
 * ASCII-upper-cased, every byte is binned into one of 70 character-class slots
 * (or rejected), and the slots are counted. The derived floating-point
 * frequencies, their magnitude and the cosine comparison are not modelled.
 */
module CosSim {
  import opened Bytes
  import opened Wrappers
  import opened Histogram

  /** The number of character-class slots of a `CharFreq`. */
  const SLOTS: nat := 70

  datatype CharFreqError = InvalidChar(b: u8)

  /** `u8::to_ascii_uppercase`: `a`..`z` become `A`..`Z`; every other byte is kept. */
  function ToAsciiUpper(b: u8): u8
  {
    if 97 <= b <= 122 then b - 32 else b
  }

  /** `str::to_ascii_uppercase`, bytewise. */
  function AsciiUpper(s: seq<u8>): (r: seq<u8>)
    ensures |r| == |s| && forall i | 0 <= i < |s| :: r[i] == ToAsciiUpper(s[i])
  {
    seq(|s|, i requires 0 <= i < |s| => ToAsciiUpper(s[i]))
  }

  /** The `match` of `from_str` on an upper-cased byte: tab and LF, `' '..'`'`, then `'{'..'~'`. */
  function Slot(b: u8): Option<nat>
  {
    if 9 <= b <= 10 then Some(b as nat - 9)
    else if 32 <= b <= 96 then Some(b as nat - 30)
    else if 123 <= b <= 126 then Some(b as nat - 57)
    else None
  }

  /** The bytes `from_str` accepts in its (not yet upper-cased) input: tab, LF and printable ASCII. */
  predicate Accepted(b: u8)
  {
    b == 9 || b == 10 || 32 <= b <= 126
  }

  /** The slot sequence of an upper-cased text; a byte outside the classes gives `None`. */
  function Slots(t: seq<u8>): (r: seq<Option<nat>>)
    ensures |r| == |t| && forall i | 0 <= i < |t| :: r[i] == Slot(t[i])
  {
    seq(|t|, i requires 0 <= i < |t| => Slot(t[i]))
  }

  /**
   * A byte is binned exactly when it is tab, LF or printable ASCII; the lower-case
   * letters only because upper-casing comes first. Every slot lies in `[0, 70)`.
   */
  lemma SlotOfAccepted(b: u8)
    ensures Slot(ToAsciiUpper(b)).Some? <==> Accepted(b)
    ensures Slot(ToAsciiUpper(b)).Some? ==> Slot(ToAsciiUpper(b)).value < SLOTS
    ensures !Accepted(b) ==> ToAsciiUpper(b) == b
    ensures 97 <= b <= 122 ==> Slot(b).None? && Slot(ToAsciiUpper(b)).Some?
  {
  }

  /**
   * The slot map is not injective: `` ` `` (0x60) and `{` (0x7B) share slot 66,
   * and no other two bytes share a slot.
   */
  lemma SlotCollision(b1: u8, b2: u8)
    ensures Slot(0x60) == Slot(0x7B) == Some(66)
    ensures b1 != b2 && Slot(b1).Some? && Slot(b1) == Slot(b2) ==> {b1, b2} == {0x60, 0x7B}
  {
  }

  /** The 70 slot counts of an upper-cased text, in array order. */
  function SlotCounts(t: seq<u8>): (r: seq<nat>)
    ensures |r| == SLOTS
  {
    seq(SLOTS, j requires 0 <= j < SLOTS => Occurrences(Slots(t), Some(j)))
  }

  /** The 70 slot counts of `s`: slot `j` counts the bytes of `s` binned to `j` after upper-casing. */
  function ClassCounts(s: seq<u8>): (r: seq<nat>)
    ensures |r| == SLOTS && forall j | 0 <= j < SLOTS :: r[j] == Occurrences(Slots(AsciiUpper(s)), Some(j))
  {
    SlotCounts(AsciiUpper(s))
  }

  /** Extending an upper-cased text by one binned byte adds one to that byte's slot and nothing else. */
  lemma SlotCountsStep(t: seq<u8>, i: nat, j: nat)
    requires i < |t| && Slot(t[i]) == Some(j) && j < SLOTS
    ensures SlotCounts(t[..i + 1]) == SlotCounts(t[..i])[j := SlotCounts(t[..i])[j] + 1]
  {
    var xs, ys := Slots(t[..i]), Slots(t[..i + 1]);
    assert ys == xs + [Slot(t[i])];
    var before, after := SlotCounts(t[..i]), SlotCounts(t[..i + 1]);
    forall k | 0 <= k < SLOTS
      ensures after[k] == before[j := before[j] + 1][k]
    {
      OccurrencesAppend(xs, Slot(t[i]), Some(k));
    }
  }

  /**
   * The integer part of `CharFreq::from_str(s)`: `Ok` with the 70 slot counts
   * when every byte is accepted, otherwise `Err(InvalidChar(b))` for the first
   * byte `b` that is not.
   */
  method FromStr(s: seq<u8>) returns (r: Result<seq<nat>, CharFreqError>)
    ensures r.Ok? <==> forall i | 0 <= i < |s| :: Accepted(s[i])
    ensures r.Ok? ==> r.value == ClassCounts(s)
    ensures r.Err? ==> exists i | 0 <= i < |s| ::
      (forall k | 0 <= k < i :: Accepted(s[k])) && !Accepted(s[i]) && r.error == InvalidChar(s[i])
  {
    var counts := new nat[SLOTS](_ => 0);
    var uppercase := AsciiUpper(s);
    assert Slots(uppercase[..0]) == [];
    for i := 0 to |uppercase|
      invariant forall k | 0 <= k < i :: Accepted(s[k])
      invariant counts[..] == SlotCounts(uppercase[..i])
    {
      var b := uppercase[i];
      SlotOfAccepted(s[i]);
      var j: nat;
      if 9 <= b <= 10 {
        j := b as nat - 9;
      } else if 32 <= b <= 96 {
        j := b as nat - 30;
      } else if 123 <= b <= 126 {
        j := b as nat - 57;
      } else {
        return Err(InvalidChar(b));
      }
      SlotCountsStep(uppercase, i, j);
      counts[j] := counts[j] + 1;
    }
    assert uppercase[..|uppercase|] == uppercase;
    return Ok(counts[..]);
  }

  /** On success the 70 counts add up to the byte length of the input. */
  lemma CountsSumToLength(s: seq<u8>)
    requires forall i | 0 <= i < |s| :: Accepted(s[i])
    ensures Sum(ClassCounts(s)) == |s|
  {
    var xs := Slots(AsciiUpper(s));
    forall i | 0 <= i < |xs| ensures xs[i] in SlotIds() {
      SlotOfAccepted(s[i]);
      assert xs[i] == SlotIds()[xs[i].value];
    }
    assert Distinct(SlotIds());
    SumOverCovering(xs, SlotIds());
    SumTally(xs, SlotIds());
    assert ClassCounts(s) == Tally(xs, SlotIds());
  }

  /** `Some(0), ..., Some(69)`: the slots in array order. */
  function SlotIds(): (r: seq<Option<nat>>)
    ensures |r| == SLOTS && forall j | 0 <= j < SLOTS :: r[j] == Some(j)
  {
    seq(SLOTS, j requires 0 <= j < SLOTS => Some(j))
  }

  /**
   * The counts depend only on the upper-cased input: `from_str(s)` and
   * `from_str(upper(s))` accept the same inputs, report the same byte and count
   * the same.
   */
  lemma UpperInvariant(s: seq<u8>)
    ensures AsciiUpper(AsciiUpper(s)) == AsciiUpper(s)
    ensures forall i | 0 <= i < |s| :: Accepted(AsciiUpper(s)[i]) == Accepted(s[i])
    ensures forall i | 0 <= i < |s| && !Accepted(s[i]) :: AsciiUpper(s)[i] == s[i]
    ensures ClassCounts(AsciiUpper(s)) == ClassCounts(s)
  {
  }
}
