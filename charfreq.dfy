/**
 * The counting part of the `charfreq` tool (`src/bin/charfreq.rs`, lines
 * 16-34 of `main`): every lower-cased character is normalised (typographic
 * dashes and quotes become their ASCII forms; CR and everything above `'z'`
 * is skipped), the kept characters are counted in a hash map, and the map is
 * collected into a list sorted by character.
 */
module CharFreqTool {
  import opened Wrappers
  import opened Histogram

  type Entry = (char, nat)

  /** The loop body's decision for one character: the character counted, or `None` to skip it. */
  function Normalize(chr: char): (r: Option<char>)
    ensures r.Some? ==> r.value <= 'z' && r.value != '\r'
  {
    if chr == '\U{2013}' || chr == '\U{2014}' then Some('-')
    else if chr == '\U{2018}' || chr == '\U{2019}' then Some('\'')
    else if chr == '\U{201C}' || chr == '\U{201D}' then Some('"')
    else if chr == '\r' || chr > 'z' then None
    else Some(chr)
  }

  /**
   * The three typographic pairs are counted as their ASCII forms although they
   * lie above `'z'`, because they are checked first; CR and every other
   * character above `'z'` is skipped; everything else is counted as itself.
   */
  lemma NormalizeCases(chr: char)
    ensures Normalize('\U{2013}') == Normalize('\U{2014}') == Some('-')
    ensures Normalize('\U{2018}') == Normalize('\U{2019}') == Some('\'')
    ensures Normalize('\U{201C}') == Normalize('\U{201D}') == Some('"')
    ensures chr !in {'\U{2013}', '\U{2014}', '\U{2018}', '\U{2019}', '\U{201C}', '\U{201D}'} ==>
      (Normalize(chr).None? <==> chr == '\r' || chr > 'z') &&
      (Normalize(chr).Some? ==> Normalize(chr) == Some(chr))
  {
  }

  /** The characters the loop counts, in input order. */
  function Kept(lowered: seq<char>): (r: seq<char>)
    ensures |r| <= |lowered|
    ensures forall i | 0 <= i < |r| :: r[i] <= 'z' && r[i] != '\r'
  {
    if lowered == [] then []
    else
      var last := Normalize(lowered[|lowered| - 1]);
      Kept(lowered[..|lowered| - 1]) + (if last.Some? then [last.value] else [])
  }

  predicate DistinctKeys(s: seq<Entry>)
  {
    forall i, j | 0 <= i < j < |s| :: s[i].0 != s[j].0
  }

  predicate StrictlyAscending(s: seq<Entry>)
  {
    forall i, j | 0 <= i < j < |s| :: s[i].0 < s[j].0
  }

  function CountColumn(s: seq<Entry>): (r: seq<int>)
    ensures |r| == |s|
  {
    seq(|s|, i requires 0 <= i < |s| => s[i].1)
  }

  function Keys(s: seq<Entry>): (r: seq<char>)
    ensures |r| == |s| && forall i | 0 <= i < |s| :: r[i] == s[i].0
  {
    seq(|s|, i requires 0 <= i < |s| => s[i].0)
  }

  /** The map the loop builds from the kept characters: one more for each occurrence, in order. */
  function CountMap(kept: seq<char>): map<char, nat>
  {
    if kept == [] then map[]
    else
      var m, c := CountMap(kept[..|kept| - 1]), kept[|kept| - 1];
      m[c := (if c in m then m[c] else 0) + 1]
  }

  /** The map holds exactly the kept characters, each with its number of occurrences. */
  lemma {:induction false} CountMapCounts(kept: seq<char>)
    ensures forall c :: c in CountMap(kept) <==> c in kept
    ensures forall c | c in CountMap(kept) :: CountMap(kept)[c] == Occurrences(kept, c)
  {
    if kept != [] {
      var init, last := kept[..|kept| - 1], kept[|kept| - 1];
      CountMapCounts(init);
      OccurrencesPositive(init, last);
      assert kept == init + [last];
      KeptStep(init, last);
    }
  }

  /**
   * The `for mut chr in ...` loop: builds the map from each kept character to
   * the number of times it is kept.
   */
  method CountChars(lowered: seq<char>) returns (counts: map<char, nat>)
    ensures counts == CountMap(Kept(lowered))
    ensures forall c :: c in counts <==> c in Kept(lowered)
    ensures forall c | c in counts :: counts[c] == Occurrences(Kept(lowered), c)
  {
    counts := map[];
    for i := 0 to |lowered|
      invariant counts == CountMap(Kept(lowered[..i]))
    {
      KeptPrefix(lowered, i);
      var chr := lowered[i];
      if chr == '\U{2013}' || chr == '\U{2014}' {
        chr := '-';
      } else if chr == '\U{2018}' || chr == '\U{2019}' {
        chr := '\'';
      } else if chr == '\U{201C}' || chr == '\U{201D}' {
        chr := '"';
      } else if chr == '\r' || chr > 'z' {
        continue;
      }
      assert Normalize(lowered[i]) == Some(chr);
      var x := if chr in counts then counts[chr] else 0;
      counts := counts[chr := x + 1];
    }
    assert lowered[..|lowered|] == lowered;
    CountMapCounts(Kept(lowered));
  }

  /** One more character of input adds its normalised form, if it is kept, to the end. */
  lemma KeptPrefix(lowered: seq<char>, i: nat)
    requires i < |lowered|
    ensures Normalize(lowered[i]).None? ==> CountMap(Kept(lowered[..i + 1])) == CountMap(Kept(lowered[..i]))
    ensures Normalize(lowered[i]).Some? ==>
      var m, c := CountMap(Kept(lowered[..i])), Normalize(lowered[i]).value;
      CountMap(Kept(lowered[..i + 1])) == m[c := (if c in m then m[c] else 0) + 1]
  {
    assert lowered[..i + 1][..i] == lowered[..i];
    var kept := Kept(lowered[..i + 1]);
    if Normalize(lowered[i]).Some? {
      assert kept[..|kept| - 1] == Kept(lowered[..i]);
    } else {
      assert kept == Kept(lowered[..i]);
    }
  }

  lemma KeptStep(kept: seq<char>, chr: char)
    ensures forall c :: c in kept + [chr] <==> c in kept || c == chr
    ensures forall c :: Occurrences(kept + [chr], c) == Occurrences(kept, c) + (if c == chr then 1 else 0)
  {
    forall c ensures Occurrences(kept + [chr], c) == Occurrences(kept, c) + (if c == chr then 1 else 0) {
      OccurrencesAppend(kept, chr, c);
    }
  }

  /** `counts.into_iter().collect()`: every map entry once, in some order the map chooses. */
  method Collect(counts: map<char, nat>) returns (entries: seq<Entry>)
    ensures DistinctKeys(entries)
    ensures forall i | 0 <= i < |entries| :: entries[i].0 in counts && entries[i].1 == counts[entries[i].0]
    ensures forall c | c in counts :: exists i | 0 <= i < |entries| :: entries[i].0 == c
  {
    entries := [];
    var remaining := counts.Keys;
    while remaining != {}
      invariant remaining <= counts.Keys
      invariant forall i | 0 <= i < |entries| ::
        entries[i].0 in counts && entries[i].0 !in remaining && entries[i].1 == counts[entries[i].0]
      invariant DistinctKeys(entries)
      invariant forall c | c in counts && c !in remaining :: exists i | 0 <= i < |entries| :: entries[i].0 == c
      decreases |remaining|
    {
      var c :| c in remaining;
      var next := entries + [(c, counts[c])];
      forall d | d in counts && d !in remaining - {c} ensures exists i | 0 <= i < |next| :: next[i].0 == d {
        if d == c {
          assert next[|entries|].0 == d;
        } else {
          var i :| 0 <= i < |entries| && entries[i].0 == d;
          assert next[i].0 == d;
        }
      }
      entries := next;
      remaining := remaining - {c};
    }
  }

  /** Exchanges the neighbours `a[j - 1]` and `a[j]`. */
  method SwapDown(a: array<Entry>, j: nat)
    requires 0 < j < a.Length
    modifies a
    ensures a[..] == old(a[..])[j - 1 := old(a[j])][j := old(a[j - 1])]
    ensures multiset(a[..]) == old(multiset(a[..]))
    ensures DistinctKeys(old(a[..])) ==> DistinctKeys(a[..])
  {
    a[j - 1], a[j] := a[j], a[j - 1];
  }

  /** The first `n` entries are strictly ascending by key. */
  predicate AscendingUpTo(s: seq<Entry>, n: nat)
    requires n <= |s|
  {
    forall p, q | 0 <= p < q < n :: s[p].0 < s[q].0
  }

  /**
   * `counts.sort_by_key(|x| x.0)`, as an insertion sort: with distinct keys
   * the result is strictly ascending by character and a permutation of the input.
   */
  method SortByKey(a: array<Entry>)
    requires DistinctKeys(a[..])
    modifies a
    ensures StrictlyAscending(a[..])
    ensures DistinctKeys(a[..])
    ensures multiset(a[..]) == old(multiset(a[..]))
  {
    if a.Length < 2 {
      return;
    }
    for i := 1 to a.Length
      invariant AscendingUpTo(a[..], i)
      invariant DistinctKeys(a[..])
      invariant multiset(a[..]) == old(multiset(a[..]))
    {
      Insert(a, i);
    }
  }

  /** Moves `a[i]` down into the ascending prefix `a[..i]`, extending it by one. */
  method Insert(a: array<Entry>, i: nat)
    requires 0 < i < a.Length && AscendingUpTo(a[..], i) && DistinctKeys(a[..])
    modifies a
    ensures AscendingUpTo(a[..], i + 1)
    ensures DistinctKeys(a[..])
    ensures multiset(a[..]) == old(multiset(a[..]))
    ensures multiset(a[..i + 1]) == old(multiset(a[..i + 1]))
    ensures a[i + 1..] == old(a[i + 1..])
  {
    var j := i;
    while j > 0 && a[j - 1].0 > a[j].0
      invariant 0 <= j <= i
      invariant AscendingBut(a[..], i, j)
      invariant DistinctKeys(a[..])
      invariant multiset(a[..]) == old(multiset(a[..]))
      invariant multiset(a[..i + 1]) == old(multiset(a[..i + 1]))
      invariant a[i + 1..] == old(a[i + 1..])
    {
      ghost var before := a[..];
      SwapDown(a, j);
      SwapKeepsOrder(before, a[..], i, j);
      SwapInPrefix(before, a[..], i, j);
      j := j - 1;
    }
    if j > 0 {
      assert a[..][j - 1].0 != a[..][j].0;
    }
  }

  /** A swap of neighbours inside the first `i + 1` entries permutes that prefix and keeps the rest. */
  lemma SwapInPrefix(before: seq<Entry>, after: seq<Entry>, i: nat, j: nat)
    requires 0 < j <= i < |before|
    requires after == before[j - 1 := before[j]][j := before[j - 1]]
    ensures multiset(after[..i + 1]) == multiset(before[..i + 1])
    ensures after[i + 1..] == before[i + 1..]
  {
    assert after[..i + 1] == before[..i + 1][j - 1 := before[j]][j := before[j - 1]];
  }

  /**
   * The insertion loop's invariant: apart from the moving entry at `j`, the
   * first `i + 1` entries are ascending, and the moving entry is below all
   * entries after it.
   */
  predicate AscendingBut(s: seq<Entry>, i: nat, j: nat)
    requires j <= i < |s|
  {
    (forall p, q | 0 <= p < q <= i && p != j && q != j :: s[p].0 < s[q].0) &&
    (forall q | j < q <= i :: s[j].0 < s[q].0)
  }

  /** Swapping the moving entry with a larger left neighbour keeps the insertion invariant. */
  lemma SwapKeepsOrder(before: seq<Entry>, after: seq<Entry>, i: nat, j: nat)
    requires 0 < j <= i < |before| && AscendingBut(before, i, j)
    requires before[j - 1].0 > before[j].0
    requires after == before[j - 1 := before[j]][j := before[j - 1]]
    ensures AscendingBut(after, i, j - 1)
  {
    forall p, q | 0 <= p < q <= i && p != j - 1 && q != j - 1 ensures after[p].0 < after[q].0 {
      if q == j {
        assert after[q] == before[j - 1];
        if p < j - 1 {
          assert before[p].0 < before[j - 1].0;
        }
      } else if p == j {
        assert after[p] == before[j - 1] && before[j - 1].0 < before[q].0;
      }
    }
    forall q | j - 1 < q <= i ensures after[j - 1].0 < after[q].0 {
      if q > j {
        assert before[j].0 < before[q].0;
      }
    }
  }

  /**
   * Lines 16-34 of `main`: the sorted table of (character, count) pairs for
   * the lower-cased text.
   */
  method Tabulate(lowered: seq<char>) returns (table: seq<Entry>)
    ensures StrictlyAscending(table)
    ensures forall i | 0 <= i < |table| ::
      table[i].0 <= 'z' && table[i].0 != '\r' && table[i].1 == Occurrences(Kept(lowered), table[i].0) > 0
    ensures forall c :: c in Kept(lowered) <==> c in Keys(table)
    ensures Sum(CountColumn(table)) == |Kept(lowered)|
  {
    var counts := CountChars(lowered);
    var entries := Collect(counts);
    var a := new Entry[|entries|](i requires 0 <= i < |entries| => entries[i]);
    assert a[..] == entries;
    SortByKey(a);
    table := a[..];
    ghost var kept := Kept(lowered);
    TableFacts(kept, counts, entries, table);
    forall i | 0 <= i < |table| ensures table[i].0 <= 'z' && table[i].0 != '\r' {
      var k :| 0 <= k < |kept| && kept[k] == table[i].0;
    }
  }

  /** What a sorted permutation of the collected map entries says about the kept characters. */
  lemma TableFacts(kept: seq<char>, counts: map<char, nat>, entries: seq<Entry>, table: seq<Entry>)
    requires forall c :: c in counts <==> c in kept
    requires forall c | c in counts :: counts[c] == Occurrences(kept, c)
    requires forall i | 0 <= i < |entries| :: entries[i].0 in counts && entries[i].1 == counts[entries[i].0]
    requires forall c | c in counts :: exists i | 0 <= i < |entries| :: entries[i].0 == c
    requires multiset(table) == multiset(entries) && DistinctKeys(table)
    ensures forall i | 0 <= i < |table| :: table[i].0 in kept && table[i].1 == Occurrences(kept, table[i].0) > 0
    ensures forall c :: c in kept <==> c in Keys(table)
    ensures Sum(CountColumn(table)) == |kept|
  {
    TableExact(kept, counts, entries, table);
    TableCovers(kept, counts, entries, table);
    TableSum(table, kept);
  }

  lemma TableExact(kept: seq<char>, counts: map<char, nat>, entries: seq<Entry>, table: seq<Entry>)
    requires forall c :: c in counts <==> c in kept
    requires forall c | c in counts :: counts[c] == Occurrences(kept, c)
    requires forall i | 0 <= i < |entries| :: entries[i].0 in counts && entries[i].1 == counts[entries[i].0]
    requires multiset(table) == multiset(entries)
    ensures forall i | 0 <= i < |table| :: table[i].0 in kept && table[i].1 == Occurrences(kept, table[i].0) > 0
    ensures forall c | c in Keys(table) :: c in kept
  {
    forall i | 0 <= i < |table| ensures table[i].0 in kept && table[i].1 == Occurrences(kept, table[i].0) > 0 {
      assert table[i] in multiset(entries);
      var k :| 0 <= k < |entries| && entries[k] == table[i];
      OccurrencesPositive(kept, table[i].0);
    }
    forall c | c in Keys(table) ensures c in kept {
      var m :| 0 <= m < |table| && Keys(table)[m] == c;
    }
  }

  lemma TableCovers(kept: seq<char>, counts: map<char, nat>, entries: seq<Entry>, table: seq<Entry>)
    requires forall c :: c in counts <==> c in kept
    requires forall c | c in counts :: exists i | 0 <= i < |entries| :: entries[i].0 == c
    requires multiset(table) == multiset(entries)
    ensures forall c | c in kept :: c in Keys(table)
  {
    forall c | c in kept ensures c in Keys(table) {
      var k :| 0 <= k < |entries| && entries[k].0 == c;
      assert entries[k] in multiset(table);
      var m :| 0 <= m < |table| && table[m] == entries[k];
      assert Keys(table)[m] == c;
    }
  }

  /** Counts that are exact for distinct keys covering every kept character add up to the number kept. */
  lemma TableSum(table: seq<Entry>, kept: seq<char>)
    requires DistinctKeys(table)
    requires forall i | 0 <= i < |table| :: table[i].1 == Occurrences(kept, table[i].0)
    requires forall c | c in kept :: c in Keys(table)
    ensures Sum(CountColumn(table)) == |kept|
  {
    var keys := Keys(table);
    assert CountColumn(table) == Tally(kept, keys);
    SumTally(kept, keys);
    SumOverCovering(kept, keys);
  }
}
