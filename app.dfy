/**
 * The view state of the application: the parks sorted by name, every species
 * record, the selected park, the working set of that park's records (at most
 * 500) and the galaxy graph built from exactly that working set.
 */
module App {
  import opened JsValues
  import opened Records
  import opened DataLoader
  import opened SeqFacts

  // ---------------------------------------------------------------------
  // Park ordering

  /** The order `localeCompare` puts names in, taken here as lexicographic order on characters. */
  predicate NameLe(a: string, b: string)
    decreases |a|
  {
    if a == [] then true
    else if b == [] then false
    else if a[0] != b[0] then a[0] < b[0]
    else NameLe(a[1..], b[1..])
  }

  lemma {:induction false} NameLeTotal(a: string, b: string)
    ensures NameLe(a, b) || NameLe(b, a)
    decreases |a|
  {
    if a != [] && b != [] && a[0] == b[0] {
      NameLeTotal(a[1..], b[1..]);
    }
  }

  lemma {:induction false} NameLeTransitive(a: string, b: string, c: string)
    requires NameLe(a, b) && NameLe(b, c)
    ensures NameLe(a, c)
    decreases |a|
  {
    if a != [] && b != [] && c != [] && a[0] == b[0] && b[0] == c[0] {
      NameLeTransitive(a[1..], b[1..], c[1..]);
    }
  }

  /** Two names that each sort no later than the other are the same name. */
  lemma {:induction false} NameLeAntisymmetric(a: string, b: string)
    requires NameLe(a, b) && NameLe(b, a)
    ensures a == b
    decreases |a|
  {
    if a != [] {
      NameLeAntisymmetric(a[1..], b[1..]);
      assert a == [a[0]] + a[1..] && b == [b[0]] + b[1..];
    }
  }

  predicate SortedByName(parks: seq<Park>)
  {
    forall i, j :: 0 <= i < j < |parks| ==> NameLe(parks[i].name, parks[j].name)
  }

  /** Inserts `p` before the first park whose name sorts strictly after its own. */
  function InsertByName(p: Park, sorted: seq<Park>): (r: seq<Park>)
    ensures |r| == |sorted| + 1
    ensures multiset(r) == multiset(sorted) + multiset{p}
  {
    if sorted == [] then [p]
    else if !NameLe(sorted[0].name, p.name) then [p] + sorted
    else
      assert sorted == [sorted[0]] + sorted[1..];
      [sorted[0]] + InsertByName(p, sorted[1..])
  }

  /** `parks.sort((a, b) => a.name.localeCompare(b.name))`, a stable sort. */
  function SortParksByName(parks: seq<Park>): (r: seq<Park>)
    ensures |r| == |parks|
    ensures multiset(r) == multiset(parks)
  {
    if parks == [] then []
    else
      var n := |parks| - 1;
      assert parks == parks[..n] + [parks[n]];
      InsertByName(parks[n], SortParksByName(parks[..n]))
  }

  lemma {:induction false} InsertByNameSorted(p: Park, sorted: seq<Park>)
    requires SortedByName(sorted)
    ensures SortedByName(InsertByName(p, sorted))
  {
    var r := InsertByName(p, sorted);
    if sorted == [] {
    } else if !NameLe(sorted[0].name, p.name) {
      NameLeTotal(sorted[0].name, p.name);
      forall j | 1 <= j < |r|
        ensures NameLe(p.name, r[j].name)
      {
        if j > 1 {
          NameLeTransitive(p.name, sorted[0].name, r[j].name);
        }
      }
    } else {
      var tail := sorted[1..];
      InsertByNameSorted(p, tail);
      var rest := InsertByName(p, tail);
      forall x | x in rest
        ensures NameLe(sorted[0].name, x.name)
      {
        assert x in multiset(rest);
        if x != p {
          assert x in multiset(tail);
        }
      }
    }
  }

  lemma {:induction false} SortParksByNameSorted(parks: seq<Park>)
    ensures SortedByName(SortParksByName(parks))
  {
    if parks != [] {
      var n := |parks| - 1;
      SortParksByNameSorted(parks[..n]);
      InsertByNameSorted(parks[n], SortParksByName(parks[..n]));
    }
  }

  /** The parks named `name`, in order. */
  function WithName(parks: seq<Park>, name: string): seq<Park>
  {
    if parks == [] then []
    else (if parks[0].name == name then [parks[0]] else []) + WithName(parks[1..], name)
  }

  lemma {:induction false} WithNameAppend(a: seq<Park>, b: seq<Park>, name: string)
    ensures WithName(a + b, name) == WithName(a, name) + WithName(b, name)
  {
    if a == [] {
      ConcatEmpty(b);
    } else {
      TailOfConcat(a, b);
      WithNameAppend(a[1..], b, name);
      ConcatAssociative(if a[0].name == name then [a[0]] else [], WithName(a[1..], name), WithName(b, name));
    }
  }

  /** Filtering by name takes the first park or drops it. */
  lemma WithNameCons(x: Park, rest: seq<Park>, name: string)
    ensures WithName([x] + rest, name) == (if x.name == name then [x] else []) + WithName(rest, name)
  {
    assert ([x] + rest)[1..] == rest;
  }

  /** No park of a name sorting strictly before the first one's follows it in sorted order. */
  lemma {:induction false} WithNameNone(sorted: seq<Park>, name: string)
    requires SortedByName(sorted) && sorted != [] && !NameLe(sorted[0].name, name)
    ensures WithName(sorted, name) == []
    decreases |sorted|
  {
    if sorted[0].name == name {
      NameLeTotal(name, name);
    }
    if |sorted| > 1 {
      if !NameLe(sorted[1].name, name) {
        WithNameNone(sorted[1..], name);
      } else {
        NameLeTransitive(sorted[0].name, sorted[1].name, name);
      }
    }
  }

  /** Inserting a park puts it after every park of the same name. */
  lemma {:induction false} InsertByNameStable(p: Park, sorted: seq<Park>, name: string)
    requires SortedByName(sorted)
    ensures WithName(InsertByName(p, sorted), name) == WithName(sorted, name) + (if p.name == name then [p] else [])
  {
    if sorted == [] {
    } else if !NameLe(sorted[0].name, p.name) {
      InsertInFrontStable(p, sorted, name);
    } else {
      assert SortedByName(sorted[1..]);
      InsertByNameStable(p, sorted[1..], name);
      InsertAfterFirstStable(p, sorted, name);
    }
  }

  /** A park that goes in front has no park of its own name after it. */
  lemma InsertInFrontStable(p: Park, sorted: seq<Park>, name: string)
    requires SortedByName(sorted) && sorted != [] && !NameLe(sorted[0].name, p.name)
    ensures WithName(InsertByName(p, sorted), name) == WithName(sorted, name) + (if p.name == name then [p] else [])
  {
    assert InsertByName(p, sorted) == [p] + sorted;
    WithNameCons(p, sorted, name);
    if p.name == name {
      WithNameNone(sorted, name);
      ConcatEmpty([p]);
    } else {
      ConcatEmpty(WithName(sorted, name));
    }
  }

  /** A park that goes after the first keeps that first park ahead of it. */
  lemma InsertAfterFirstStable(p: Park, sorted: seq<Park>, name: string)
    requires sorted != [] && NameLe(sorted[0].name, p.name)
    requires WithName(InsertByName(p, sorted[1..]), name) == WithName(sorted[1..], name) + (if p.name == name then [p] else [])
    ensures WithName(InsertByName(p, sorted), name) == WithName(sorted, name) + (if p.name == name then [p] else [])
  {
    var tail := sorted[1..];
    var head := if sorted[0].name == name then [sorted[0]] else [];
    var last := if p.name == name then [p] else [];
    var rest := InsertByName(p, tail);
    assert InsertByName(p, sorted) == [sorted[0]] + rest;
    WithNameCons(sorted[0], rest, name);
    assert WithName(sorted, name) == head + WithName(tail, name);
    ConcatAssociative(head, WithName(tail, name), last);
  }

  /** Filtering by name splits off the last park. */
  lemma WithNameLast(parks: seq<Park>, name: string)
    requires parks != []
    ensures WithName(parks, name) ==
      WithName(parks[..|parks| - 1], name) + (if parks[|parks| - 1].name == name then [parks[|parks| - 1]] else [])
  {
    var n := |parks| - 1;
    assert parks == parks[..n] + [parks[n]];
    WithNameAppend(parks[..n], [parks[n]], name);
  }

  /** The sort is stable: parks of the same name keep their relative order. */
  lemma {:induction false} SortParksByNameStable(parks: seq<Park>, name: string)
    ensures WithName(SortParksByName(parks), name) == WithName(parks, name)
  {
    if parks != [] {
      var n := |parks| - 1;
      var sortedPrefix := SortParksByName(parks[..n]);
      assert SortParksByName(parks) == InsertByName(parks[n], sortedPrefix);
      SortParksByNameStable(parks[..n], name);
      SortParksByNameSorted(parks[..n]);
      InsertByNameStable(parks[n], sortedPrefix, name);
      WithNameLast(parks, name);
    }
  }

  /** The park selected by default, the first of the sorted list, has a name no later than any park's. */
  lemma FirstParkIsLeast(parks: seq<Park>)
    requires parks != []
    ensures forall p :: p in parks ==> NameLe(SortParksByName(parks)[0].name, p.name)
  {
    var sorted := SortParksByName(parks);
    SortParksByNameSorted(parks);
    forall p | p in parks
      ensures NameLe(sorted[0].name, p.name)
    {
      assert p in multiset(sorted);
      var i :| 0 <= i < |sorted| && sorted[i] == p;
      if i == 0 {
        NameLeTotal(p.name, p.name);
      }
    }
  }

  // ---------------------------------------------------------------------
  // Park selection

  /** Position `i` holds the first park named `name`. */
  predicate FirstNamed(parks: seq<Park>, name: string, i: int)
  {
    0 <= i < |parks| && parks[i].name == name && forall j :: 0 <= j < i ==> parks[j].name != name
  }

  /** `parks.find(p => p.name === name)`: the first park with that name. */
  function FindPark(parks: seq<Park>, name: string): (r: Option<Park>)
    ensures r.None? <==> forall i :: 0 <= i < |parks| ==> parks[i].name != name
    ensures r.Some? ==> r.value.name == name && r.value in parks
  {
    if parks == [] then None
    else if parks[0].name == name then Some(parks[0])
    else FindPark(parks[1..], name)
  }

  /** The park found is the one at the first position holding that name. */
  lemma {:induction false} FindParkFirst(parks: seq<Park>, name: string, i: int)
    requires FirstNamed(parks, name, i)
    ensures FindPark(parks, name) == Some(parks[i])
  {
    if i > 0 {
      FindParkFirst(parks[1..], name, i - 1);
    }
  }

  /** The graph is limited to this many records. */
  const MaxWorkingSet: nat := 500

  /** `filterSpeciesByPark(allSpecies, name).slice(0, 500)`. */
  function WorkingSet(allSpecies: seq<Species>, name: string): (ws: seq<Species>)
    ensures |ws| == Min(|FilterSpeciesByPark(allSpecies, Text(name))|, MaxWorkingSet)
    ensures forall i :: 0 <= i < |ws| ==> ws[i].parkName == Text(name)
  {
    var matching := FilterSpeciesByPark(allSpecies, Text(name));
    assert forall i :: 0 <= i < |matching| ==> matching[i] in matching;
    matching[..Min(|matching|, MaxWorkingSet)]
  }

  /** A prefix of a subsequence is a subsequence. */
  lemma {:induction false} PrefixOfSubsequence<T>(sub: seq<T>, s: seq<T>, k: nat)
    requires IsSubsequence(sub, s) && k <= |sub|
    ensures IsSubsequence(sub[..k], s)
    decreases |s|
  {
    if k > 0 && s != [] {
      if sub[0] == s[0] {
        assert sub[..k][1..] == sub[1..][..k - 1];
        PrefixOfSubsequence(sub[1..], s[1..], k - 1);
      } else {
        PrefixOfSubsequence(sub, s[1..], k);
      }
    }
  }

  /** The working set keeps the park's records in their order in the full list. */
  lemma WorkingSetOrdered(allSpecies: seq<Species>, name: string)
    ensures IsSubsequence(WorkingSet(allSpecies, name), allSpecies)
  {
    var matching := FilterSpeciesByPark(allSpecies, Text(name));
    PrefixOfSubsequence(matching, allSpecies, Min(|matching|, MaxWorkingSet));
  }

  // ---------------------------------------------------------------------
  // The state

  class AppState {
    var parks: seq<Park>
    var allSpecies: seq<Species>
    /** `None` for `null` (before loading) and `undefined` (no park of the chosen name). */
    var selectedPark: Option<Park>
    var filteredSpecies: seq<Species>
    var graphData: Option<GraphData>

    /** The derived views agree with each other and with the selection. */
    ghost predicate Valid()
      reads this
    {
      && |filteredSpecies| <= MaxWorkingSet
      && (graphData == None ==> filteredSpecies == [])
      && (graphData.Some? ==> graphData.value == Graph(filteredSpecies))
      && (selectedPark.Some? && |allSpecies| > 0 ==>
            filteredSpecies == WorkingSet(allSpecies, selectedPark.value.name))
    }

    constructor()
      ensures Valid()
      ensures parks == [] && allSpecies == [] && selectedPark == None
      ensures filteredSpecies == [] && graphData == None
    {
      parks := [];
      allSpecies := [];
      selectedPark := None;
      filteredSpecies := [];
      graphData := None;
    }

    /** The effect on `[selectedPark, allSpecies]`: rebuild the working set and its graph. */
    method RecomputeViews()
      modifies this
      ensures parks == old(parks) && allSpecies == old(allSpecies) && selectedPark == old(selectedPark)
      ensures selectedPark.Some? && |allSpecies| > 0 ==>
                filteredSpecies == WorkingSet(allSpecies, selectedPark.value.name) &&
                graphData == Some(Graph(filteredSpecies))
      ensures !(selectedPark.Some? && |allSpecies| > 0) ==>
                filteredSpecies == old(filteredSpecies) && graphData == old(graphData)
    {
      if selectedPark.Some? && |allSpecies| > 0 {
        var parkSpecies := FilterSpeciesByPark(allSpecies, Text(selectedPark.value.name));
        var limitedSpecies := parkSpecies[..Min(|parkSpecies|, MaxWorkingSet)];
        filteredSpecies := limitedSpecies;
        var graph := TransformToGraphData(limitedSpecies);
        graphData := Some(graph);
      }
    }

    /** What loading does with the two parsed tables. */
    method LoadData(parksData: seq<Park>, speciesData: seq<Species>)
      requires Valid()
      modifies this
      ensures Valid()
      ensures parks == SortParksByName(parksData) && allSpecies == speciesData
      ensures selectedPark == if parksData != [] then Some(parks[0]) else old(selectedPark)
      ensures selectedPark.Some? && speciesData != [] ==>
                filteredSpecies == WorkingSet(speciesData, selectedPark.value.name) &&
                graphData == Some(Graph(filteredSpecies))
      ensures !(selectedPark.Some? && speciesData != []) ==>
                filteredSpecies == old(filteredSpecies) && graphData == old(graphData)
    {
      parks := SortParksByName(parksData);
      allSpecies := speciesData;
      if |parksData| > 0 {
        selectedPark := Some(parks[0]);
      }
      RecomputeViews();
    }

    /** `handleParkChange`: select the first park of the chosen name, or none. */
    method HandleParkChange(parkName: string)
      requires Valid()
      modifies this
      ensures Valid()
      ensures parks == old(parks) && allSpecies == old(allSpecies)
      ensures selectedPark == FindPark(parks, parkName)
      ensures selectedPark.Some? && |allSpecies| > 0 ==>
                filteredSpecies == WorkingSet(allSpecies, parkName) &&
                graphData == Some(Graph(filteredSpecies))
      ensures !(selectedPark.Some? && |allSpecies| > 0) ==>
                filteredSpecies == old(filteredSpecies) && graphData == old(graphData)
    {
      selectedPark := FindPark(parks, parkName);
      RecomputeViews();
    }
  }

  /** In a consistent state the graph on screen has one node per record of the working set, in order. */
  lemma GraphMatchesWorkingSet(state: AppState)
    requires state.Valid()
    ensures state.graphData.Some? ==>
      |state.graphData.value.nodes| == |state.filteredSpecies| <= MaxWorkingSet &&
      forall i :: 0 <= i < |state.filteredSpecies| ==>
        state.graphData.value.nodes[i].id == state.filteredSpecies[i].id
  {
    GraphNodes(state.filteredSpecies);
  }
}
