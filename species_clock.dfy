/**
 * The statistics panel of the seasonal clock: how many records there are,
 * how many are native and non-native, and the five categories with the most
 * records, counted in a dictionary and ranked by a stable sort.
 */
module SpeciesClock {
  import opened JsValues
  import opened JsObject
  import opened Records
  import opened SeqFacts

  /** The panel's `stats` state once computed. */
  datatype Stats = Stats(total: nat, native: nat, nonNative: nat, topCategories: seq<(string, nat)>)

  // ---------------------------------------------------------------------
  // Nativeness counts

  /** `species.filter(s => s.nativeness === value).length`. */
  function CountNativeness(species: seq<Species>, value: string): (count: nat)
    ensures count <= |species|
    decreases |species|
  {
    if species == [] then 0
    else
      var n: nat := |species| - 1;
      CountNativeness(species[..n], value) + (if species[n].nativeness == Text(value) then 1 else 0)
  }

  /** No record is counted both as native and as non-native. */
  lemma {:induction false} NativeAndNonNativeDisjoint(species: seq<Species>)
    ensures CountNativeness(species, "Native") + CountNativeness(species, "Not Native") <= |species|
    decreases |species|
  {
    if species != [] {
      NativeAndNonNativeDisjoint(species[..|species| - 1]);
    }
  }

  // ---------------------------------------------------------------------
  // Category counts

  /** How many records have category exactly `c`. */
  function CountCategory(species: seq<Species>, c: string): (count: nat)
    ensures count <= |species|
    decreases |species|
  {
    if species == [] then 0
    else
      var n: nat := |species| - 1;
      CountCategory(species[..n], c) + (if species[n].category == Text(c) then 1 else 0)
  }

  /** How many records have a non-empty category. */
  function CountWithCategory(species: seq<Species>): (count: nat)
    ensures count <= |species|
    decreases |species|
  {
    if species == [] then 0
    else
      var n: nat := |species| - 1;
      CountWithCategory(species[..n]) + (if Truthy(species[n].category) then 1 else 0)
  }

  function SumCounts(counts: seq<nat>): nat
  {
    if counts == [] then 0
    else SumCounts(counts[..|counts| - 1]) + counts[|counts| - 1]
  }

  lemma {:induction false} SumCountsAppend(counts: seq<nat>, x: nat)
    ensures SumCounts(counts + [x]) == SumCounts(counts) + x
  {
    assert (counts + [x])[..|counts|] == counts;
  }

  lemma {:induction false} SumCountsUpdate(counts: seq<nat>, p: nat, x: nat)
    requires p < |counts|
    ensures SumCounts(counts[p := x]) == SumCounts(counts) - counts[p] + x
    decreases |counts|
  {
    var n := |counts| - 1;
    if p < n {
      SumCountsUpdate(counts[..n], p, x);
      assert counts[p := x][..n] == counts[..n][p := x];
    } else {
      assert counts[p := x][..n] == counts[..n];
    }
  }

  /** One step of the counting loop: the count of `c` goes up by one, a new key entering at the end with 1. */
  function Bump(counts: Dict<nat>, c: string): Dict<nat>
  {
    if c !in Keys(counts) then counts + [(c, 1)]
    else seq(|counts|, p requires 0 <= p < |counts| =>
           if counts[p].0 == c then (c, counts[p].1 + 1) else counts[p])
  }

  /** Bumping a category that is already a key leaves every entry's name in place. */
  lemma BumpKeepsNames(counts: Dict<nat>, c: string)
    requires c in Keys(counts)
    ensures |Bump(counts, c)| == |counts|
    ensures forall p :: 0 <= p < |counts| ==> Bump(counts, c)[p].0 == counts[p].0
  {
  }

  /** The step adds `c` as a key if it is new and otherwise keeps the keys, so they stay distinct. */
  lemma BumpKeys(counts: Dict<nat>, c: string)
    ensures DistinctKeys(counts) ==> DistinctKeys(Bump(counts, c))
    ensures Keys(Bump(counts, c)) == if c in Keys(counts) then Keys(counts) else Keys(counts) + [c]
  {
    if c !in Keys(counts) {
      AppendKey<nat>(counts, c, 1);
    } else {
      SameKeys(counts, Bump(counts, c));
    }
  }

  /** `(counts[c] || 0)`: an absent key and a zero count both read as 0. */
  function CountOrZero(counts: Dict<nat>, c: string): (n: nat)
    ensures Get(counts, c).None? ==> n == 0
    ensures Get(counts, c).Some? ==> n == Get(counts, c).value
  {
    var v := Get(counts, c);
    if v.Some? && v.value != 0 then v.value else 0
  }

  /** Assigning one more than the count at `p0` to its key performs the step on an existing key. */
  lemma PutBumped(counts: Dict<nat>, c: string, p0: nat, v: nat)
    requires DistinctKeys(counts) && p0 < |counts| && counts[p0].0 == c && v == counts[p0].1 + 1
    ensures Put(counts, c, v) == Bump(counts, c)
  {
    var r := Put(counts, c, v);
    var after := Bump(counts, c);
    PutAt(counts, c, v, p0);
    BumpAt(counts, c, p0);
    SameButOne(r, after, counts, p0, (c, v));
  }

  /** Two dictionaries that both differ from `counts` at `p0` alone, by the same entry, are equal. */
  lemma SameButOne(r: Dict<nat>, s: Dict<nat>, counts: Dict<nat>, p0: nat, e: (string, nat))
    requires |r| == |counts| && |s| == |counts|
    requires forall p :: 0 <= p < |counts| ==> r[p] == if p == p0 then e else counts[p]
    requires forall p :: 0 <= p < |counts| ==> s[p] == if p == p0 then e else counts[p]
    ensures r == s
  {
    assert forall p :: 0 <= p < |r| ==> r[p] == s[p];
  }

  /** On a key at position `p0` the step bumps that entry alone. */
  lemma BumpAt(counts: Dict<nat>, c: string, p0: nat)
    requires DistinctKeys(counts) && p0 < |counts| && counts[p0].0 == c
    ensures |Bump(counts, c)| == |counts|
    ensures forall p :: 0 <= p < |counts| ==> Bump(counts, c)[p] == if p == p0 then (c, counts[p0].1 + 1) else counts[p]
  {
    assert Keys(counts)[p0] == c;
  }

  /** The assignment `counts[c] = (counts[c] || 0) + 1` performs that step. */
  lemma IncrementIsBump(counts: Dict<nat>, c: string)
    requires DistinctKeys(counts)
    ensures Put<nat>(counts, c, CountOrZero(counts, c) + 1) == Bump(counts, c)
  {
    if c !in Keys(counts) {
      IncrementNew(counts, c);
    } else {
      IncrementExisting(counts, c);
    }
  }

  /** On a key already present the assignment adds one to its count in place. */
  lemma IncrementExisting(counts: Dict<nat>, c: string)
    requires DistinctKeys(counts) && c in Keys(counts)
    ensures Put<nat>(counts, c, CountOrZero(counts, c) + 1) == Bump(counts, c)
  {
    var p0 := KeyIndex(counts, c);
    GetAt(counts, p0);
    PutBumped(counts, c, p0, CountOrZero(counts, c) + 1);
  }

  /** On a key not yet present the assignment appends it with count 1. */
  lemma IncrementNew(counts: Dict<nat>, c: string)
    requires c !in Keys(counts)
    ensures Put<nat>(counts, c, CountOrZero(counts, c) + 1) == Bump(counts, c)
  {
    var one: nat := 1;
    assert CountOrZero(counts, c) + 1 == one;
    PutNew<nat>(counts, c, one);
  }

  /** The `categoryCount` object once the counting loop has seen all of `species`. */
  function CategoryCounts(species: seq<Species>): (counts: Dict<nat>)
    ensures DistinctKeys(counts)
    decreases |species|
  {
    if species == [] then []
    else
      var n: nat := |species| - 1;
      var before := CategoryCounts(species[..n]);
      if Truthy(species[n].category) then BumpKeys(before, species[n].category.s); Bump(before, species[n].category.s)
      else before
  }

  /** Every record with a non-empty category has its category among the keys. */
  lemma {:induction false} CategoryCountsCover(species: seq<Species>, j: nat)
    requires j < |species| && Truthy(species[j].category)
    ensures species[j].category.s in Keys(CategoryCounts(species))
    decreases |species|
  {
    var n: nat := |species| - 1;
    if Truthy(species[n].category) {
      BumpKeys(CategoryCounts(species[..n]), species[n].category.s);
    }
    if j < n {
      assert species[..n][j] == species[j];
      CategoryCountsCover(species[..n], j);
    }
  }

  /** A non-empty category that is not a key has no records. */
  lemma {:induction false} CategoryCountsAbsent(species: seq<Species>, c: string)
    requires c != "" && c !in Keys(CategoryCounts(species))
    ensures CountCategory(species, c) == 0
    decreases |species|
  {
    if species != [] {
      var n: nat := |species| - 1;
      var before := CategoryCounts(species[..n]);
      if Truthy(species[n].category) {
        var k := species[n].category.s;
        BumpKeys(before, k);
        assert Keys(CategoryCounts(species)) == Keys(Bump(before, k));
        assert k in Keys(Bump(before, k));
        assert c !in Keys(before);
      }
      CategoryCountsAbsent(species[..n], c);
    }
  }

  /** Each key is a non-empty category, and its value is that category's record count, at least 1. */
  ghost predicate CountsExact(species: seq<Species>, counts: Dict<nat>)
  {
    forall p :: 0 <= p < |counts| ==>
      counts[p].0 != "" && counts[p].1 == CountCategory(species, counts[p].0) && counts[p].1 >= 1
  }

  lemma CountCategoryLast(species: seq<Species>, c: string)
    requires species != []
    ensures CountCategory(species, c) == CountCategory(species[..|species| - 1], c) +
      (if species[|species| - 1].category == Text(c) then 1 else 0)
  {
  }

  /** A counting step keeps every count exact. */
  lemma BumpExact(species: seq<Species>, before: Dict<nat>, c: string)
    requires species != [] && c != "" && species[|species| - 1].category == Text(c)
    requires DistinctKeys(before) && CountsExact(species[..|species| - 1], before)
    requires c !in Keys(before) ==> CountCategory(species[..|species| - 1], c) == 0
    ensures CountsExact(species, Bump(before, c))
  {
    var after := Bump(before, c);
    forall p | 0 <= p < |after|
      ensures after[p].0 != "" && after[p].1 == CountCategory(species, after[p].0) && after[p].1 >= 1
    {
      CountCategoryLast(species, after[p].0);
      if p < |before| {
        assert after[p].0 == before[p].0;
      }
    }
  }

  lemma {:induction false} CategoryCountsExact(species: seq<Species>)
    ensures CountsExact(species, CategoryCounts(species))
    decreases |species|
  {
    if species != [] {
      var n: nat := |species| - 1;
      var prefix := species[..n];
      var before := CategoryCounts(prefix);
      CategoryCountsExact(prefix);
      if Truthy(species[n].category) {
        var c := species[n].category.s;
        if c !in Keys(before) {
          CategoryCountsAbsent(prefix, c);
        }
        BumpExact(species, before, c);
      } else {
        forall p | 0 <= p < |before|
          ensures before[p].1 == CountCategory(species, before[p].0)
        {
          CountCategoryLast(species, before[p].0);
        }
      }
    }
  }

  /** A step of the counting loop adds one to the total of the counts. */
  lemma BumpSum(counts: Dict<nat>, c: string)
    requires DistinctKeys(counts)
    ensures SumCounts(Values(Bump(counts, c))) == SumCounts(Values(counts)) + 1
  {
    if c !in Keys(counts) {
      var one: nat := 1;
      AppendValue(counts, c, one);
      SumCountsAppend(Values(counts), one);
    } else {
      BumpExistingSum(counts, c);
    }
  }

  /** Bumping an existing key raises its count alone. */
  lemma BumpExistingSum(counts: Dict<nat>, c: string)
    requires DistinctKeys(counts) && c in Keys(counts)
    ensures SumCounts(Values(Bump(counts, c))) == SumCounts(Values(counts)) + 1
  {
    var after := Bump(counts, c);
    var p0 := KeyIndex(counts, c);
    var bumped: nat := counts[p0].1 + 1;
    var updated := Values(counts)[p0 := bumped];
    forall i | 0 <= i < |after|
      ensures Values(after)[i] == updated[i]
    {
      if i != p0 {
        assert counts[i].0 != counts[p0].0;
      }
    }
    assert Values(after) == updated;
    SumCountsUpdate(Values(counts), p0, bumped);
  }

  /** The counts add up to the number of records with a non-empty category. */
  lemma {:induction false} CategoryCountsSum(species: seq<Species>)
    ensures SumCounts(Values(CategoryCounts(species))) == CountWithCategory(species)
    decreases |species|
  {
    if species != [] {
      var n: nat := |species| - 1;
      var prefix := species[..n];
      CategoryCountsSum(prefix);
      if Truthy(species[n].category) {
        BumpSum(CategoryCounts(prefix), species[n].category.s);
      }
    }
  }

  // ---------------------------------------------------------------------
  // First occurrence of a category

  /** The position of the first record of category `c`, or the number of records when there is none. */
  function FirstOfCategory(species: seq<Species>, c: string): (j: nat)
    ensures j <= |species|
    ensures j < |species| ==> species[j].category == Text(c)
    ensures forall i :: 0 <= i < j ==> species[i].category != Text(c)
    decreases |species|
  {
    if species == [] then 0
    else
      var n: nat := |species| - 1;
      var f := FirstOfCategory(species[..n], c);
      assert forall i :: 0 <= i < f ==> species[..n][i] == species[i];
      if f < n then f
      else if species[n].category == Text(c) then n
      else |species|
  }

  /** Every entry's category has a record. */
  ghost predicate KeysSeen(species: seq<Species>, entries: seq<(string, nat)>)
  {
    forall p :: 0 <= p < |entries| ==> FirstOfCategory(species, entries[p].0) < |species|
  }

  /** The entries stand in the order in which their categories first occur. */
  ghost predicate InFirstSeenOrder(species: seq<Species>, entries: seq<(string, nat)>)
  {
    forall p, q :: 0 <= p < q < |entries| ==>
      FirstOfCategory(species, entries[p].0) < FirstOfCategory(species, entries[q].0)
  }

  /** A step that keeps the keys in place keeps them seen and in first-seen order. */
  lemma FirstSeenKept(species: seq<Species>, before: Dict<nat>, after: Dict<nat>)
    requires species != []
    requires KeysSeen(species[..|species| - 1], before) && InFirstSeenOrder(species[..|species| - 1], before)
    requires |after| == |before| && forall p :: 0 <= p < |before| ==> after[p].0 == before[p].0
    ensures KeysSeen(species, after) && InFirstSeenOrder(species, after)
  {
    var n := |species| - 1;
    assert forall p :: 0 <= p < |before| ==>
      FirstOfCategory(species, after[p].0) == FirstOfCategory(species[..n], before[p].0);
  }

  /** A step that appends a category first seen at the last record keeps the keys seen and in order. */
  lemma FirstSeenAppended(species: seq<Species>, before: Dict<nat>, c: string)
    requires species != [] && species[|species| - 1].category == Text(c)
    requires FirstOfCategory(species[..|species| - 1], c) == |species| - 1
    requires KeysSeen(species[..|species| - 1], before) && InFirstSeenOrder(species[..|species| - 1], before)
    ensures KeysSeen(species, before + [(c, 1)]) && InFirstSeenOrder(species, before + [(c, 1)])
  {
    var n := |species| - 1;
    var after := before + [(c, 1)];
    assert forall p :: 0 <= p < |before| ==>
      FirstOfCategory(species, after[p].0) == FirstOfCategory(species[..n], before[p].0);
    assert FirstOfCategory(species, after[|before|].0) == n;
  }

  /** A category that is not a key yet has no record in the prefix seen so far. */
  lemma NewCategoryUnseen(species: seq<Species>, c: string)
    requires c != "" && c !in Keys(CategoryCounts(species))
    ensures FirstOfCategory(species, c) == |species|
  {
    var f := FirstOfCategory(species, c);
    if f < |species| {
      CategoryCountsCover(species, f);
    }
  }

  /** One counting step keeps the keys seen and in first-seen order. */
  lemma CategoryCountsFirstSeenStep(species: seq<Species>)
    requires species != []
    requires KeysSeen(species[..|species| - 1], CategoryCounts(species[..|species| - 1]))
    requires InFirstSeenOrder(species[..|species| - 1], CategoryCounts(species[..|species| - 1]))
    ensures KeysSeen(species, CategoryCounts(species)) && InFirstSeenOrder(species, CategoryCounts(species))
  {
    var n: nat := |species| - 1;
    var before := CategoryCounts(species[..n]);
    if Truthy(species[n].category) {
      var c := species[n].category.s;
      assert CategoryCounts(species) == Bump(before, c);
      if c in Keys(before) {
        BumpKeepsNames(before, c);
        FirstSeenKept(species, before, Bump(before, c));
      } else {
        NewCategoryUnseen(species[..n], c);
        FirstSeenAppended(species, before, c);
      }
    } else {
      assert CategoryCounts(species) == before;
      FirstSeenKept(species, before, before);
    }
  }

  /** The categories are counted in the order in which they first occur. */
  lemma {:induction false} CategoryCountsFirstSeen(species: seq<Species>)
    ensures KeysSeen(species, CategoryCounts(species))
    ensures InFirstSeenOrder(species, CategoryCounts(species))
    decreases |species|
  {
    if species != [] {
      CategoryCountsFirstSeen(species[..|species| - 1]);
      CategoryCountsFirstSeenStep(species);
    }
  }

  // ---------------------------------------------------------------------
  // Ranking

  /** `(a, b) => b[1] - a[1]` orders entries by decreasing count. */
  predicate SortedByCount(entries: seq<(string, nat)>)
  {
    forall i, j :: 0 <= i < j < |entries| ==> entries[i].1 >= entries[j].1
  }

  /** Inserts `e` after every entry whose count is at least its own. */
  function InsertByCount(e: (string, nat), sorted: seq<(string, nat)>): (r: seq<(string, nat)>)
    ensures |r| == |sorted| + 1
    ensures multiset(r) == multiset(sorted) + multiset{e}
  {
    if sorted == [] then [e]
    else if sorted[0].1 < e.1 then [e] + sorted
    else
      assert sorted == [sorted[0]] + sorted[1..];
      [sorted[0]] + InsertByCount(e, sorted[1..])
  }

  /** The stable sort by decreasing count, as a sequence of stable insertions. */
  function SortByCount(entries: seq<(string, nat)>): (r: seq<(string, nat)>)
    ensures |r| == |entries|
    ensures multiset(r) == multiset(entries)
  {
    if entries == [] then []
    else
      var n := |entries| - 1;
      assert entries == entries[..n] + [entries[n]];
      InsertByCount(entries[n], SortByCount(entries[..n]))
  }

  lemma {:induction false} InsertByCountSorted(e: (string, nat), sorted: seq<(string, nat)>)
    requires SortedByCount(sorted)
    ensures SortedByCount(InsertByCount(e, sorted))
  {
    if sorted != [] && sorted[0].1 >= e.1 {
      var tail := sorted[1..];
      InsertByCountSorted(e, tail);
      var rest := InsertByCount(e, tail);
      forall x | x in rest
        ensures x.1 <= sorted[0].1
      {
        assert x in multiset(rest);
        if x != e {
          assert x in multiset(tail);
        }
      }
    }
  }

  lemma {:induction false} SortByCountSorted(entries: seq<(string, nat)>)
    ensures SortedByCount(SortByCount(entries))
  {
    if entries != [] {
      var n := |entries| - 1;
      SortByCountSorted(entries[..n]);
      InsertByCountSorted(entries[n], SortByCount(entries[..n]));
    }
  }

  /** The entries with count `c`, in order. */
  function WithCount(entries: seq<(string, nat)>, c: nat): (r: seq<(string, nat)>)
  {
    if entries == [] then []
    else (if entries[0].1 == c then [entries[0]] else []) + WithCount(entries[1..], c)
  }

  lemma {:induction false} WithCountAppend(a: seq<(string, nat)>, b: seq<(string, nat)>, c: nat)
    ensures WithCount(a + b, c) == WithCount(a, c) + WithCount(b, c)
  {
    if a == [] {
      ConcatEmpty(b);
    } else {
      TailOfConcat(a, b);
      WithCountAppend(a[1..], b, c);
      ConcatAssociative(if a[0].1 == c then [a[0]] else [], WithCount(a[1..], c), WithCount(b, c));
    }
  }

  lemma {:induction false} WithCountNone(entries: seq<(string, nat)>, c: nat)
    requires forall i :: 0 <= i < |entries| ==> entries[i].1 < c
    ensures WithCount(entries, c) == []
  {
    if entries != [] {
      WithCountNone(entries[1..], c);
    }
  }

  /** Filtering by count takes the first entry or drops it. */
  lemma WithCountCons(x: (string, nat), rest: seq<(string, nat)>, c: nat)
    ensures WithCount([x] + rest, c) == (if x.1 == c then [x] else []) + WithCount(rest, c)
  {
    assert ([x] + rest)[1..] == rest;
  }

  /** Inserting an entry puts it after every entry of equal count. */
  lemma {:induction false} InsertByCountStable(e: (string, nat), sorted: seq<(string, nat)>, c: nat)
    requires SortedByCount(sorted)
    ensures WithCount(InsertByCount(e, sorted), c) == WithCount(sorted, c) + (if e.1 == c then [e] else [])
  {
    if sorted == [] {
    } else if sorted[0].1 < e.1 {
      InsertAtFrontStable(e, sorted, c);
    } else {
      assert SortedByCount(sorted[1..]);
      InsertByCountStable(e, sorted[1..], c);
      InsertAfterHeadStable(e, sorted, c);
    }
  }

  /** An entry of higher count than the first goes in front, and no entry of its count precedes it. */
  lemma InsertAtFrontStable(e: (string, nat), sorted: seq<(string, nat)>, c: nat)
    requires SortedByCount(sorted) && sorted != [] && sorted[0].1 < e.1
    ensures WithCount(InsertByCount(e, sorted), c) == WithCount(sorted, c) + (if e.1 == c then [e] else [])
  {
    assert InsertByCount(e, sorted) == [e] + sorted;
    WithCountCons(e, sorted, c);
    if e.1 == c {
      WithCountNone(sorted, c);
    }
  }

  /** An entry that goes after the first keeps that first entry ahead of it. */
  lemma InsertAfterHeadStable(e: (string, nat), sorted: seq<(string, nat)>, c: nat)
    requires sorted != [] && sorted[0].1 >= e.1
    requires WithCount(InsertByCount(e, sorted[1..]), c) == WithCount(sorted[1..], c) + (if e.1 == c then [e] else [])
    ensures WithCount(InsertByCount(e, sorted), c) == WithCount(sorted, c) + (if e.1 == c then [e] else [])
  {
    var tail := sorted[1..];
    var head := if sorted[0].1 == c then [sorted[0]] else [];
    var last := if e.1 == c then [e] else [];
    var rest := InsertByCount(e, tail);
    assert InsertByCount(e, sorted) == [sorted[0]] + rest;
    WithCountCons(sorted[0], rest, c);
    assert WithCount(sorted, c) == head + WithCount(tail, c);
    ConcatAssociative(head, WithCount(tail, c), last);
  }

  /** Filtering by count splits off the last entry. */
  lemma WithCountLast(entries: seq<(string, nat)>, c: nat)
    requires entries != []
    ensures WithCount(entries, c) ==
      WithCount(entries[..|entries| - 1], c) + (if entries[|entries| - 1].1 == c then [entries[|entries| - 1]] else [])
  {
    var n := |entries| - 1;
    assert entries == entries[..n] + [entries[n]];
    WithCountAppend(entries[..n], [entries[n]], c);
  }

  /** Filtering by count keeps only entries of the list. */
  lemma {:induction false} WithCountIn(entries: seq<(string, nat)>, c: nat)
    ensures forall x :: x in WithCount(entries, c) ==> x in entries
  {
    if entries != [] {
      WithCountIn(entries[1..], c);
    }
  }

  /** In first-seen order the head's category occurs before that of every later entry, and the tail is in order too. */
  lemma HeadSeenFirst(species: seq<Species>, entries: seq<(string, nat)>)
    requires entries != [] && InFirstSeenOrder(species, entries)
    ensures forall x :: x in entries[1..] ==> FirstOfCategory(species, entries[0].0) < FirstOfCategory(species, x.0)
    ensures InFirstSeenOrder(species, entries[1..])
  {
    var tail := entries[1..];
    assert forall j :: 0 <= j < |tail| ==> tail[j] == entries[j + 1];
  }

  /** An entry whose category occurs before those of an ordered list, put in front of it, gives an ordered list. */
  lemma ConsSeenFirst(species: seq<Species>, e: (string, nat), rest: seq<(string, nat)>)
    requires InFirstSeenOrder(species, rest)
    requires forall x :: x in rest ==> FirstOfCategory(species, e.0) < FirstOfCategory(species, x.0)
    ensures InFirstSeenOrder(species, [e] + rest)
  {
    var w := [e] + rest;
    assert forall q :: 1 <= q < |w| ==> w[q] == rest[q - 1];
  }

  /** Filtering by count keeps first-seen order. */
  lemma {:induction false} WithCountOrdered(species: seq<Species>, entries: seq<(string, nat)>, c: nat)
    requires InFirstSeenOrder(species, entries)
    ensures InFirstSeenOrder(species, WithCount(entries, c))
  {
    if entries != [] {
      var tail := entries[1..];
      HeadSeenFirst(species, entries);
      WithCountOrdered(species, tail, c);
      if entries[0].1 == c {
        WithCountIn(tail, c);
        ConsSeenFirst(species, entries[0], WithCount(tail, c));
      }
    }
  }

  /** An entry of count `c` at position `q` stands in the filtered list right after the filtered prefix before it. */
  lemma WithCountAt(entries: seq<(string, nat)>, c: nat, q: nat) returns (r: nat)
    requires q < |entries| && entries[q].1 == c
    ensures r == |WithCount(entries[..q], c)|
    ensures r < |WithCount(entries, c)| && WithCount(entries, c)[r] == entries[q]
  {
    r := |WithCount(entries[..q], c)|;
    assert entries == entries[..q] + entries[q..];
    WithCountAppend(entries[..q], entries[q..], c);
    WithCountCons(entries[q], entries[q + 1..], c);
    assert entries[q..] == [entries[q]] + entries[q + 1..];
  }

  /** A counted entry at `p` makes the filtered prefix up to any later `q` longer than the one up to `p`. */
  lemma WithCountPrefixLonger(entries: seq<(string, nat)>, c: nat, p: nat, q: nat)
    requires p < q <= |entries| && entries[p].1 == c
    ensures |WithCount(entries[..p], c)| < |WithCount(entries[..q], c)|
  {
    assert entries[..q] == entries[..p] + entries[p..q];
    WithCountAppend(entries[..p], entries[p..q], c);
    WithCountCons(entries[p], entries[p + 1..q], c);
    assert entries[p..q] == [entries[p]] + entries[p + 1..q];
  }

  /** The sort is stable: entries of equal count keep their relative order. */
  lemma {:induction false} SortByCountStable(entries: seq<(string, nat)>, c: nat)
    ensures WithCount(SortByCount(entries), c) == WithCount(entries, c)
  {
    if entries != [] {
      var n := |entries| - 1;
      var sortedPrefix := SortByCount(entries[..n]);
      assert SortByCount(entries) == InsertByCount(entries[n], sortedPrefix);
      SortByCountStable(entries[..n], c);
      SortByCountSorted(entries[..n]);
      InsertByCountStable(entries[n], sortedPrefix, c);
      WithCountLast(entries, c);
    }
  }

  /** How many categories the panel lists. */
  const TopCount: nat := 5

  /** `Object.entries(counts).sort((a, b) => b[1] - a[1]).slice(0, 5)`. */
  function TopCategories(counts: Dict<nat>): (top: seq<(string, nat)>)
    ensures |top| == Min(|counts|, TopCount)
    ensures top == SortByCount(counts)[..|top|]
  {
    SortByCount(counts)[..Min(|counts|, TopCount)]
  }

  /** The kept categories are ranked by count, and none left out has a higher count than any kept one. */
  lemma TopCategoriesRanked(counts: Dict<nat>)
    ensures SortedByCount(TopCategories(counts))
    ensures var sorted := SortByCount(counts); var top := TopCategories(counts);
      forall k, i :: 0 <= k < |top| <= i < |sorted| ==> sorted[i].1 <= top[k].1
    ensures forall x :: x in TopCategories(counts) ==> x in counts
  {
    SortByCountSorted(counts);
    TopCategoriesListed(counts);
  }

  /** Every kept category is an entry of the counts. */
  lemma TopCategoriesListed(counts: Dict<nat>)
    ensures forall x :: x in TopCategories(counts) ==> x in counts
  {
    var sorted := SortByCount(counts);
    forall x | x in TopCategories(counts)
      ensures x in counts
    {
      assert x in multiset(sorted);
    }
  }

  /** Seeing one more record bumps its category alone. */
  lemma CategoryCountsStep(species: seq<Species>, i: nat)
    requires i < |species|
    ensures CategoryCounts(species[..i + 1]) ==
      if Truthy(species[i].category) then Bump(CategoryCounts(species[..i]), species[i].category.s)
      else CategoryCounts(species[..i])
  {
    assert species[..i + 1][..i] == species[..i];
  }

  /** `categoryCount[c] = (categoryCount[c] || 0) + 1`. */
  method IncrementCategory(counts: Dict<nat>, c: string) returns (r: Dict<nat>)
    requires DistinctKeys(counts)
    ensures r == Bump(counts, c)
  {
    r := Put<nat>(counts, c, CountOrZero(counts, c) + 1);
    IncrementIsBump(counts, c);
  }

  /** The statistics `calculateStats` stores for `species`. */
  function Summary(species: seq<Species>): (stats: Stats)
    ensures stats.total == |species|
    ensures stats.native + stats.nonNative <= stats.total
    ensures |stats.topCategories| <= TopCount
  {
    NativeAndNonNativeDisjoint(species);
    Stats(|species|, CountNativeness(species, "Native"), CountNativeness(species, "Not Native"),
          TopCategories(CategoryCounts(species)))
  }

  /** Two shown categories with equal counts appear in the order in which they first occur among the records. */
  lemma TopCategoriesTiesFirstSeen(species: seq<Species>, k: nat, l: nat)
    requires k < l < |Summary(species).topCategories|
    requires Summary(species).topCategories[k].1 == Summary(species).topCategories[l].1
    ensures FirstOfCategory(species, Summary(species).topCategories[k].0) <
            FirstOfCategory(species, Summary(species).topCategories[l].0)
  {
    var counts := CategoryCounts(species);
    var sorted := SortByCount(counts);
    var top := TopCategories(counts);
    assert top == Summary(species).topCategories;
    assert top[k] == sorted[k] && top[l] == sorted[l];
    var c := sorted[k].1;
    var pk := WithCountAt(sorted, c, k);
    var pl := WithCountAt(sorted, c, l);
    WithCountPrefixLonger(sorted, c, k, l);
    SortByCountStable(counts, c);
    CategoryCountsFirstSeen(species);
    WithCountOrdered(species, counts, c);
    assert WithCount(sorted, c)[pk] == top[k] && WithCount(sorted, c)[pl] == top[l];
  }

  /** What the summary promises, collected. */
  lemma SummaryFacts(species: seq<Species>)
    ensures var stats := Summary(species);
      && stats.total == |species|
      && stats.native + stats.nonNative <= stats.total
      && |stats.topCategories| <= TopCount
      && SortedByCount(stats.topCategories)
      && (forall x :: x in stats.topCategories ==>
            x.0 != "" && x.1 >= 1 && x.1 == CountCategory(species, x.0))
  {
    NativeAndNonNativeDisjoint(species);
    var counts := CategoryCounts(species);
    TopCategoriesRanked(counts);
    CategoryCountsExact(species);
    forall x | x in Summary(species).topCategories
      ensures x.0 != "" && x.1 >= 1 && x.1 == CountCategory(species, x.0)
    {
      assert x in counts;
      var p :| 0 <= p < |counts| && counts[p] == x;
    }
  }

  /** A category with a record has a record that shows it. */
  lemma {:induction false} CountCategoryWitness(species: seq<Species>, c: string)
    requires CountCategory(species, c) > 0
    ensures exists j :: 0 <= j < |species| && species[j].category == Text(c)
    decreases |species|
  {
    var n: nat := |species| - 1;
    if species[n].category != Text(c) {
      CountCategoryWitness(species[..n], c);
      var j :| 0 <= j < n && species[..n][j].category == Text(c);
      assert species[j] == species[..n][j];
    }
  }

  /** An entry left out of the top entries has a count no higher than any kept one. */
  lemma TopCategoriesOmitted(counts: Dict<nat>, e: (string, nat))
    requires e in counts && e !in TopCategories(counts)
    ensures forall x :: x in TopCategories(counts) ==> e.1 <= x.1
  {
    var sorted := SortByCount(counts);
    assert e in multiset(sorted);
    var i :| 0 <= i < |sorted| && sorted[i] == e;
    var top := TopCategories(counts);
    SortByCountSorted(counts);
    assert i >= |top|;
    forall x | x in top
      ensures e.1 <= x.1
    {
      var k :| 0 <= k < |top| && top[k] == x;
      assert top[k] == sorted[k];
    }
  }

  /** A category left out of the panel has no more records than any category shown. */
  lemma TopCategoriesAreTop(species: seq<Species>, c: string)
    requires c != "" && CountCategory(species, c) > 0
    requires (c, CountCategory(species, c)) !in Summary(species).topCategories
    ensures forall x :: x in Summary(species).topCategories ==> CountCategory(species, c) <= x.1
  {
    var counts := CategoryCounts(species);
    CountCategoryWitness(species, c);
    var j :| 0 <= j < |species| && species[j].category == Text(c);
    CategoryCountsCover(species, j);
    CategoryCountsExact(species);
    var p := KeyIndex(counts, c);
    assert counts[p] == (c, CountCategory(species, c));
    TopCategoriesOmitted(counts, counts[p]);
  }

  /** `calculateStats`. */
  method CalculateStats(species: seq<Species>) returns (stats: Stats)
    ensures stats == Summary(species)
  {
    var nativeCount := CountNativeness(species, "Native");
    var nonNativeCount := CountNativeness(species, "Not Native");
    var counts: Dict<nat> := [];
    var i: nat := 0;
    while i < |species|
      invariant i <= |species|
      invariant counts == CategoryCounts(species[..i])
    {
      CategoryCountsStep(species, i);
      var s := species[i];
      if Truthy(s.category) {
        counts := IncrementCategory(counts, s.category.s);
      }
      i := i + 1;
    }
    assert species[..i] == species;
    var topCategories := SortByCount(counts)[..Min(|counts|, TopCount)];
    stats := Stats(|species|, nativeCount, nonNativeCount, topCategories);
  }

  /** The clock's statistics state. */
  class ClockState {
    /** `None` for the initial empty object. */
    var stats: Option<Stats>

    constructor()
      ensures stats == None
    {
      stats := None;
    }

    /** The effect run when the `species` prop changes: nothing happens for an empty list. */
    method OnSpeciesChanged(species: seq<Species>)
      modifies this
      ensures species == [] ==> stats == old(stats)
      ensures species != [] ==> stats == Some(Summary(species))
    {
      if |species| == 0 {
        return;
      }
      var computed := CalculateStats(species);
      stats := Some(computed);
    }
  }
}
