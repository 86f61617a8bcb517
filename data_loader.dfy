/**
 * The synchronous transforms of the species pipeline: the park filter, the
 * graph builder (one node per record, chains of edges inside each family),
 * the seasonality histogram and the three visual-encoding tables.
 */
module DataLoader {
  import opened JsValues
  import opened JsObject
  import opened Records
  import opened SeqFacts

  // ---------------------------------------------------------------------
  // Park filter

  /** `sub` is made of elements of `s`, kept in their original relative order. */
  predicate IsSubsequence<T(==)>(sub: seq<T>, s: seq<T>)
    decreases |s|
  {
    if sub == [] then true
    else if s == [] then false
    else if sub[0] == s[0] then IsSubsequence(sub[1..], s[1..])
    else IsSubsequence(sub, s[1..])
  }

  /** `species.filter(s => s.parkName === parkName)`: the records of one park, in order. */
  function FilterSpeciesByPark(species: seq<Species>, parkName: Field): (r: seq<Species>)
    ensures forall x :: x in r ==> x.parkName == parkName
    ensures forall x :: multiset(r)[x] == if x.parkName == parkName then multiset(species)[x] else 0
    ensures IsSubsequence(r, species)
  {
    if species == [] then []
    else
      assert species == [species[0]] + species[1..];
      if species[0].parkName == parkName then [species[0]] + FilterSpeciesByPark(species[1..], parkName)
      else FilterSpeciesByPark(species[1..], parkName)
  }

  // ---------------------------------------------------------------------
  // Graph: nodes

  /** The display name of a node: `s.commonNames || s.scientificName`. */
  function NodeName(s: Species): (name: Field)
    ensures !Truthy(s.commonNames) ==> name == s.scientificName
    ensures Truthy(s.commonNames) ==> name == s.commonNames
    ensures Truthy(name) <==> Truthy(s.commonNames) || Truthy(s.scientificName)
  {
    Or(s.commonNames, s.scientificName)
  }

  function ToNode(s: Species): Node
  {
    Node(s.id, NodeName(s), s.scientificName, s.category, s.family, s.order,
         s.nativeness, s.abundance, s.seasonality, s.conservationStatus)
  }

  /** `species.map(s => ({ ... }))`. */
  function ToNodes(species: seq<Species>): (nodes: seq<Node>)
    ensures |nodes| == |species|
    ensures forall i :: 0 <= i < |species| ==> nodes[i].id == species[i].id && nodes[i].name == NodeName(species[i])
  {
    seq(|species|, i requires 0 <= i < |species| => ToNode(species[i]))
  }

  /** Mapping works record by record: the nodes of two joined lists are their nodes joined. */
  lemma ToNodesAppend(a: seq<Species>, b: seq<Species>)
    ensures ToNodes(a + b) == ToNodes(a) + ToNodes(b)
  {
  }

  // ---------------------------------------------------------------------
  // Graph: family groups

  /** The positions of the records whose family is exactly `f`. */
  function IndicesOf(species: seq<Species>, f: string): (r: seq<nat>)
    ensures forall i :: 0 <= i < |r| ==> r[i] < |species| && species[r[i]].family == Text(f)
    ensures forall i, j :: 0 <= i < j < |r| ==> r[i] < r[j]
    decreases |species|
  {
    if species == [] then []
    else
      var n: nat := |species| - 1;
      assert forall j :: 0 <= j < n ==> species[..n][j] == species[j];
      IndicesOf(species[..n], f) + (if species[n].family == Text(f) then [n] else [])
  }

  /** Conversely, every record of family `f` is listed. */
  lemma {:induction false} IndicesOfComplete(species: seq<Species>, f: string, j: nat)
    requires j < |species| && species[j].family == Text(f)
    ensures j in IndicesOf(species, f)
    decreases |species|
  {
    var n: nat := |species| - 1;
    if j < n {
      assert species[..n][j] == species[j];
      IndicesOfComplete(species[..n], f, j);
    }
  }

  /** How many records have a non-empty family. */
  function CountWithFamily(species: seq<Species>): (count: nat)
    ensures count <= |species|
    decreases |species|
  {
    if species == [] then 0
    else
      var n: nat := |species| - 1;
      CountWithFamily(species[..n]) + (if Truthy(species[n].family) then 1 else 0)
  }

  function SumLengths(groups: seq<seq<nat>>): nat
  {
    if groups == [] then 0
    else SumLengths(groups[..|groups| - 1]) + |groups[|groups| - 1]|
  }

  lemma {:induction false} SumLengthsAppend(groups: seq<seq<nat>>, g: seq<nat>)
    ensures SumLengths(groups + [g]) == SumLengths(groups) + |g|
  {
    assert (groups + [g])[..|groups|] == groups;
  }

  lemma {:induction false} SumLengthsUpdate(groups: seq<seq<nat>>, p: nat, g: seq<nat>)
    requires p < |groups|
    ensures SumLengths(groups[p := g]) == SumLengths(groups) - |groups[p]| + |g|
    decreases |groups|
  {
    var n := |groups| - 1;
    if p < n {
      SumLengthsUpdate(groups[..n], p, g);
      assert groups[p := g][..n] == groups[..n][p := g];
    } else {
      assert groups[p := g][..n] == groups[..n];
    }
  }

  predicate InRange(indices: seq<nat>, n: nat)
  {
    forall i :: 0 <= i < |indices| ==> indices[i] < n
  }

  /** One step of the grouping loop: record `i` joins the group of family `f`, opening it at the end if new. */
  function AddToGroup(groups: Dict<seq<nat>>, f: string, i: nat): Dict<seq<nat>>
  {
    if f !in Keys(groups) then groups + [(f, [i])] else AppendAt(groups, f, i)
  }

  /** Appends `i` to the group of family `f`, wherever it stands. */
  function AppendAt(groups: Dict<seq<nat>>, f: string, i: nat): (r: Dict<seq<nat>>)
    ensures |r| == |groups|
  {
    seq(|groups|, p requires 0 <= p < |groups| =>
      if groups[p].0 == f then (f, groups[p].1 + [i]) else groups[p])
  }

  /** The step adds `f` as a key if it is new and otherwise keeps the keys, so they stay distinct. */
  lemma AddToGroupKeys(groups: Dict<seq<nat>>, f: string, i: nat)
    ensures DistinctKeys(groups) ==> DistinctKeys(AddToGroup(groups, f, i))
    ensures Keys(AddToGroup(groups, f, i)) == if f in Keys(groups) then Keys(groups) else Keys(groups) + [f]
  {
    if f !in Keys(groups) {
      AppendKey(groups, f, [i]);
    } else {
      SameKeys(groups, AppendAt(groups, f, i));
    }
  }

  /** `familyGroups[f] = []` on a family not yet seen opens an empty group at the end. */
  lemma OpenGroup(groups: Dict<seq<nat>>, f: string)
    requires DistinctKeys(groups) && f !in Keys(groups)
    ensures Put(groups, f, []) == groups + [(f, [])]
    ensures DistinctKeys(groups + [(f, [])])
    ensures f in Keys(groups + [(f, [])])
  {
    PutNew(groups, f, []);
    PutDistinct(groups, f, []);
    assert Keys(groups + [(f, [])])[|groups|] == f;
  }

  /** Assigning the group at `p0` extended by `i` to its key appends `i` to that group alone. */
  lemma PutAppended(groups: Dict<seq<nat>>, f: string, p0: nat, i: nat, v: seq<nat>)
    requires DistinctKeys(groups) && p0 < |groups| && groups[p0].0 == f && v == groups[p0].1 + [i]
    ensures Put(groups, f, v) == AppendAt(groups, f, i)
  {
    assert Keys(groups)[p0] == f;
    PutExisting(groups, f, v);
    var r := Put(groups, f, v);
    var after := AppendAt(groups, f, i);
    forall p | 0 <= p < |r|
      ensures r[p] == after[p]
    {
      if p != p0 {
        assert groups[p].0 != groups[p0].0;
      }
    }
  }

  /** `familyGroups[f].push(i)` on the group just found or opened completes the step. */
  lemma PushIndex(before: Dict<seq<nat>>, groups: Dict<seq<nat>>, f: string, i: nat)
    requires DistinctKeys(before)
    requires groups == if f in Keys(before) then before else before + [(f, [])]
    requires DistinctKeys(groups) && f in Keys(groups)
    ensures Get(groups, f).Some?
    ensures Put(groups, f, Get(groups, f).value + [i]) == AddToGroup(before, f, i)
  {
    var p0 := KeyIndex(groups, f);
    GetAt(groups, p0);
    PutAppended(groups, f, p0, i, Get(groups, f).value + [i]);
    if f !in Keys(before) {
      AppendToOpened(before, f, i);
    }
  }

  /** Appending to a group just opened at the end gives the one-member group. */
  lemma AppendToOpened(before: Dict<seq<nat>>, f: string, i: nat)
    requires f !in Keys(before)
    ensures AppendAt(before + [(f, [])], f, i) == before + [(f, [i])]
  {
    var groups := before + [(f, [])];
    var pushed := AppendAt(groups, f, i);
    forall p | 0 <= p < |before|
      ensures pushed[p] == before[p]
    {
      assert before[p].0 == Keys(before)[p];
    }
    assert [] + [i] == [i];
    assert pushed[|before|] == (f, [i]);
  }

  /** The `familyGroups` object once the grouping loop has seen all of `species`. */
  function FamilyGroups(species: seq<Species>): (groups: Dict<seq<nat>>)
    ensures DistinctKeys(groups)
    decreases |species|
  {
    if species == [] then []
    else
      var n: nat := |species| - 1;
      var before := FamilyGroups(species[..n]);
      if Truthy(species[n].family) then AddToGroupKeys(before, species[n].family.s, n); AddToGroup(before, species[n].family.s, n)
      else before
  }

  /** Every record with a non-empty family is filed under that family. */
  ghost predicate GroupsCover(species: seq<Species>, groups: Dict<seq<nat>>)
  {
    forall j :: 0 <= j < |species| && Truthy(species[j].family) ==> species[j].family.s in Keys(groups)
  }

  /** Each group is keyed by a non-empty family and holds the positions of exactly that family's records. */
  ghost predicate GroupsIndexed(species: seq<Species>, groups: Dict<seq<nat>>)
  {
    forall p :: 0 <= p < |groups| ==>
      groups[p].0 != "" && groups[p].1 != [] && groups[p].1 == IndicesOf(species, groups[p].0)
  }

  /** The groups stand in the order in which their families were first seen. */
  ghost predicate GroupsFirstSeen(groups: Dict<seq<nat>>)
  {
    forall p, q :: 0 <= p < q < |groups| && groups[p].1 != [] && groups[q].1 != [] ==>
      groups[p].1[0] < groups[q].1[0]
  }

  /**
   * What the family groups of `species` are: one group per non-empty family,
   * holding the positions of that family's records in increasing order, the
   * groups in the order their families were first seen, every record with a
   * family in exactly one group.
   */
  ghost predicate GroupsOf(species: seq<Species>, groups: Dict<seq<nat>>)
  {
    && DistinctKeys(groups)
    && GroupsCover(species, groups)
    && GroupsIndexed(species, groups)
    && GroupsFirstSeen(groups)
    && SumLengths(Values(groups)) == CountWithFamily(species)
  }

  /** A record with a non-empty family is filed under that family. */
  lemma {:induction false} FamilyGroupsCoverAt(species: seq<Species>, j: nat)
    requires j < |species| && Truthy(species[j].family)
    ensures species[j].family.s in Keys(FamilyGroups(species))
    decreases |species|
  {
    var n: nat := |species| - 1;
    if Truthy(species[n].family) {
      AddToGroupKeys(FamilyGroups(species[..n]), species[n].family.s, n);
    }
    if j < n {
      assert species[..n][j] == species[j];
      FamilyGroupsCoverAt(species[..n], j);
    }
  }

  lemma FamilyGroupsCover(species: seq<Species>)
    ensures GroupsCover(species, FamilyGroups(species))
  {
    forall j | 0 <= j < |species| && Truthy(species[j].family)
      ensures species[j].family.s in Keys(FamilyGroups(species))
    {
      FamilyGroupsCoverAt(species, j);
    }
  }

  /** A family not yet filed has no records in the prefix seen so far. */
  lemma NewFamilyHasNoIndices(species: seq<Species>, f: string)
    requires f != "" && f !in Keys(FamilyGroups(species))
    ensures IndicesOf(species, f) == []
  {
    var r := IndicesOf(species, f);
    if r != [] {
      FamilyGroupsCoverAt(species, r[0]);
    }
  }

  /** The positions of family `f` in `species` extend those in all but its last record. */
  lemma IndicesOfLast(species: seq<Species>, f: string)
    requires species != []
    ensures IndicesOf(species, f) == IndicesOf(species[..|species| - 1], f) +
      (if species[|species| - 1].family == Text(f) then [|species| - 1] else [])
  {
  }

  /** A grouping step keeps every group equal to the positions of its family. */
  lemma AddToGroupIndexed(species: seq<Species>, before: Dict<seq<nat>>, f: string)
    requires species != [] && f != "" && species[|species| - 1].family == Text(f)
    requires DistinctKeys(before) && GroupsIndexed(species[..|species| - 1], before)
    requires f !in Keys(before) ==> IndicesOf(species[..|species| - 1], f) == []
    ensures GroupsIndexed(species, AddToGroup(before, f, |species| - 1))
  {
    var n := |species| - 1;
    var after := AddToGroup(before, f, n);
    forall p | 0 <= p < |after|
      ensures after[p].0 != "" && after[p].1 != [] && after[p].1 == IndicesOf(species, after[p].0)
    {
      IndicesOfLast(species, after[p].0);
      if p < |before| {
        assert after[p].0 == before[p].0;
      }
    }
  }

  lemma {:induction false} FamilyGroupsIndexed(species: seq<Species>)
    ensures GroupsIndexed(species, FamilyGroups(species))
    decreases |species|
  {
    if species != [] {
      FamilyGroupsIndexed(species[..|species| - 1]);
      FamilyGroupsIndexedStep(species);
    }
  }

  /** One grouping step keeps every group equal to the positions of its family. */
  lemma FamilyGroupsIndexedStep(species: seq<Species>)
    requires species != []
    requires GroupsIndexed(species[..|species| - 1], FamilyGroups(species[..|species| - 1]))
    ensures GroupsIndexed(species, FamilyGroups(species))
  {
    var n: nat := |species| - 1;
    var prefix := species[..n];
    var before := FamilyGroups(prefix);
    if Truthy(species[n].family) {
      var f := species[n].family.s;
      assert FamilyGroups(species) == AddToGroup(before, f, n);
      if f !in Keys(before) {
        NewFamilyHasNoIndices(prefix, f);
      }
      AddToGroupIndexed(species, before, f);
    } else {
      assert FamilyGroups(species) == before;
      SkipIndexed(species, before);
    }
  }

  /** A record without a family leaves every group equal to the positions of its family. */
  lemma SkipIndexed(species: seq<Species>, groups: Dict<seq<nat>>)
    requires species != [] && !Truthy(species[|species| - 1].family)
    requires GroupsIndexed(species[..|species| - 1], groups)
    ensures GroupsIndexed(species, groups)
  {
    forall p | 0 <= p < |groups|
      ensures groups[p].1 == IndicesOf(species, groups[p].0)
    {
      IndicesOfLast(species, groups[p].0);
    }
  }

  /** Every group is non-empty and starts before position `n`. */
  ghost predicate GroupsStartBefore(groups: Dict<seq<nat>>, n: nat)
  {
    forall p :: 0 <= p < |groups| ==> groups[p].1 != [] && groups[p].1[0] < n
  }

  lemma FamilyGroupsBounded(species: seq<Species>)
    ensures GroupsStartBefore(FamilyGroups(species), |species|)
  {
    FamilyGroupsIndexed(species);
  }

  /** A grouping step with a position past all earlier ones keeps the groups in first-seen order. */
  lemma AddToGroupFirstSeen(groups: Dict<seq<nat>>, f: string, i: nat)
    requires GroupsFirstSeen(groups) && GroupsStartBefore(groups, i)
    ensures GroupsFirstSeen(AddToGroup(groups, f, i))
  {
    var after := AddToGroup(groups, f, i);
    if f in Keys(groups) {
      assert forall p :: 0 <= p < |after| ==> after[p].1 != [] && after[p].1[0] == groups[p].1[0];
    }
  }

  lemma {:induction false} FamilyGroupsFirstSeen(species: seq<Species>)
    ensures GroupsFirstSeen(FamilyGroups(species))
    decreases |species|
  {
    if species != [] {
      var n: nat := |species| - 1;
      var prefix := species[..n];
      FamilyGroupsFirstSeen(prefix);
      if Truthy(species[n].family) {
        FamilyGroupsBounded(prefix);
        AddToGroupFirstSeen(FamilyGroups(prefix), species[n].family.s, n);
      }
    }
  }

  /** A grouping step files exactly one more position. */
  lemma AddToGroupSum(groups: Dict<seq<nat>>, f: string, i: nat)
    requires DistinctKeys(groups)
    ensures SumLengths(Values(AddToGroup(groups, f, i))) == SumLengths(Values(groups)) + 1
  {
    if f !in Keys(groups) {
      AppendValue(groups, f, [i]);
      SumLengthsAppend(Values(groups), [i]);
    } else {
      AppendAtSum(groups, f, i);
    }
  }

  /** Appending to an existing group lengthens that group alone. */
  lemma AppendAtSum(groups: Dict<seq<nat>>, f: string, i: nat)
    requires DistinctKeys(groups) && f in Keys(groups)
    ensures SumLengths(Values(AppendAt(groups, f, i))) == SumLengths(Values(groups)) + 1
  {
    var after := AppendAt(groups, f, i);
    var p0 := KeyIndex(groups, f);
    var updated := Values(groups)[p0 := groups[p0].1 + [i]];
    forall p | 0 <= p < |after|
      ensures Values(after)[p] == updated[p]
    {
      if p != p0 {
        assert groups[p].0 != groups[p0].0;
      }
    }
    assert Values(after) == updated;
    SumLengthsUpdate(Values(groups), p0, groups[p0].1 + [i]);
  }

  lemma {:induction false} FamilyGroupsSum(species: seq<Species>)
    ensures SumLengths(Values(FamilyGroups(species))) == CountWithFamily(species)
    decreases |species|
  {
    if species != [] {
      var n: nat := |species| - 1;
      var prefix := species[..n];
      FamilyGroupsSum(prefix);
      if Truthy(species[n].family) {
        AddToGroupSum(FamilyGroups(prefix), species[n].family.s, n);
      }
    }
  }

  /** The grouping loop builds exactly the family groups of its input. */
  lemma FamilyGroupsSpec(species: seq<Species>)
    ensures GroupsOf(species, FamilyGroups(species))
  {
    FamilyGroupsCover(species);
    FamilyGroupsIndexed(species);
    FamilyGroupsFirstSeen(species);
    FamilyGroupsSum(species);
  }

  /** `if (!familyGroups[f]) familyGroups[f] = []; familyGroups[f].push(i)`. */
  method PushToGroup(groups: Dict<seq<nat>>, f: string, i: nat) returns (r: Dict<seq<nat>>)
    requires DistinctKeys(groups)
    ensures r == AddToGroup(groups, f, i)
  {
    r := groups;
    if Get(r, f).None? {
      OpenGroup(r, f);
      r := Put(r, f, []);
    }
    PushIndex(groups, r, f, i);
    r := Put(r, f, Get(r, f).value + [i]);
  }

  /** Seeing one more record extends the groups by that record alone. */
  lemma FamilyGroupsStep(species: seq<Species>, i: nat)
    requires i < |species|
    ensures FamilyGroups(species[..i + 1]) ==
      if Truthy(species[i].family) then AddToGroup(FamilyGroups(species[..i]), species[i].family.s, i)
      else FamilyGroups(species[..i])
  {
    assert species[..i + 1][..i] == species[..i];
  }

  /** The grouping loop of `transformToGraphData`. */
  method GroupByFamily(species: seq<Species>) returns (groups: Dict<seq<nat>>)
    ensures groups == FamilyGroups(species)
  {
    groups := [];
    var i: nat := 0;
    while i < |species|
      invariant 0 <= i <= |species|
      invariant groups == FamilyGroups(species[..i])
    {
      FamilyGroupsStep(species, i);
      var s := species[i];
      if Truthy(s.family) {
        groups := PushToGroup(groups, s.family.s, i);
      }
      i := i + 1;
    }
    assert species[..i] == species;
  }

  // ---------------------------------------------------------------------
  // Graph: links

  /** Groups of this size or more get no edges. */
  const MaxFamilySize: nat := 50
  /** No group gets more edges than this. */
  const MaxLinksPerFamily: nat := 5

  /** How many edges a family group of `size` members contributes. */
  function EdgeCount(size: nat): (count: nat)
    ensures count <= MaxLinksPerFamily
    ensures size >= 1 ==> count <= size - 1
    ensures count > 0 <==> 1 < size < MaxFamilySize
  {
    if 1 < size < MaxFamilySize then Min(size - 1, MaxLinksPerFamily) else 0
  }

  /** The edges one family group contributes: member i to member i + 1. */
  function ChainLinks(species: seq<Species>, indices: seq<nat>): seq<Link>
    requires InRange(indices, |species|)
  {
    seq(EdgeCount(|indices|), i requires 0 <= i < EdgeCount(|indices|) =>
      Link(species[indices[i]].id, species[indices[i + 1]].id))
  }

  /** `link` runs from member `i` of the group to member `i + 1`. */
  predicate JoinsMembers(species: seq<Species>, indices: seq<nat>, link: Link, i: nat)
    requires InRange(indices, |species|)
  {
    i + 1 < |indices| && link == Link(species[indices[i]].id, species[indices[i + 1]].id)
  }

  /** A family of k members gets min(k - 1, 5) edges when 1 < k < 50 and none otherwise; edge i joins member i to member i + 1. */
  lemma ChainLinksShape(species: seq<Species>, indices: seq<nat>)
    requires InRange(indices, |species|)
    ensures |ChainLinks(species, indices)| ==
      (if 1 < |indices| < MaxFamilySize then Min(|indices| - 1, MaxLinksPerFamily) else 0)
    ensures forall i :: 0 <= i < |ChainLinks(species, indices)| ==> JoinsMembers(species, indices, ChainLinks(species, indices)[i], i)
  {
  }

  /** The `links` array once the link loop has walked all of `groups`. */
  function FamilyLinks(species: seq<Species>, groups: seq<seq<nat>>): seq<Link>
    requires forall k :: 0 <= k < |groups| ==> InRange(groups[k], |species|)
  {
    if groups == [] then []
    else FamilyLinks(species, groups[..|groups| - 1]) + ChainLinks(species, groups[|groups| - 1])
  }

  /** Links are emitted family by family: the links of two joined group lists are their links joined. */
  lemma {:induction false} FamilyLinksAppend(species: seq<Species>, g1: seq<seq<nat>>, g2: seq<seq<nat>>)
    requires forall k :: 0 <= k < |g1| ==> InRange(g1[k], |species|)
    requires forall k :: 0 <= k < |g2| ==> InRange(g2[k], |species|)
    ensures forall k :: 0 <= k < |g1 + g2| ==> InRange((g1 + g2)[k], |species|)
    ensures FamilyLinks(species, g1 + g2) == FamilyLinks(species, g1) + FamilyLinks(species, g2)
    decreases |g2|
  {
    assert forall k :: 0 <= k < |g1 + g2| ==> (g1 + g2)[k] == if k < |g1| then g1[k] else g2[k - |g1|];
    if g2 == [] {
      assert g1 + g2 == g1;
      ConcatEmpty(FamilyLinks(species, g1));
    } else {
      var n := |g2| - 1;
      var last := g2[n];
      assert (g1 + g2)[..|g1 + g2| - 1] == g1 + g2[..n];
      FamilyLinksAppend(species, g1, g2[..n]);
      ConcatAssociative(FamilyLinks(species, g1), FamilyLinks(species, g2[..n]), ChainLinks(species, last));
    }
  }

  /** The body of the link loop: push the edges of one family group onto `links`. */
  method AppendChain(species: seq<Species>, indices: seq<nat>, links0: seq<Link>) returns (links: seq<Link>)
    requires InRange(indices, |species|)
    ensures links == links0 + ChainLinks(species, indices)
  {
    links := links0;
    if |indices| > 1 && |indices| < MaxFamilySize {
      var i := 0;
      while i < Min(|indices| - 1, MaxLinksPerFamily)
        invariant 0 <= i <= EdgeCount(|indices|)
        invariant links == links0 + ChainLinks(species, indices)[..i]
      {
        links := links + [Link(species[indices[i]].id, species[indices[i + 1]].id)];
        i := i + 1;
      }
    }
    assert ChainLinks(species, indices)[..EdgeCount(|indices|)] == ChainLinks(species, indices);
  }

  /** The link loop of `transformToGraphData`, over `Object.values(familyGroups)`. */
  method LinkFamilies(species: seq<Species>, groups: seq<seq<nat>>) returns (links: seq<Link>)
    requires forall k :: 0 <= k < |groups| ==> InRange(groups[k], |species|)
    ensures links == FamilyLinks(species, groups)
  {
    links := [];
    var k := 0;
    while k < |groups|
      invariant 0 <= k <= |groups|
      invariant links == FamilyLinks(species, groups[..k])
    {
      var indices := groups[k];
      assert groups[..k + 1][..k] == groups[..k];
      links := AppendChain(species, indices, links);
      k := k + 1;
    }
    assert groups[..k] == groups;
  }

  /** `b` is the next record after `a` with the same non-empty family. */
  predicate ConsecutiveKin(species: seq<Species>, a: int, b: int)
  {
    && 0 <= a < b < |species|
    && Truthy(species[a].family)
    && species[b].family == species[a].family
    && forall j :: a < j < b ==> species[j].family != species[a].family
  }

  /** The edges of non-empty groups number at most the members beyond the first of each group. */
  lemma {:induction false} FamilyLinksCount(species: seq<Species>, groups: seq<seq<nat>>)
    requires forall k :: 0 <= k < |groups| ==> InRange(groups[k], |species|) && groups[k] != []
    ensures |FamilyLinks(species, groups)| + |groups| <= SumLengths(groups)
    decreases |groups|
  {
    if groups != [] {
      FamilyLinksCount(species, groups[..|groups| - 1]);
    }
  }

  /** Every edge of a family chain joins a record to the next record of its family. */
  lemma ChainLinkKin(species: seq<Species>, f: string, i: nat)
    requires f != "" && i < EdgeCount(|IndicesOf(species, f)|)
    ensures ConsecutiveKin(species, IndicesOf(species, f)[i], IndicesOf(species, f)[i + 1])
  {
    var indices := IndicesOf(species, f);
    var a, b := indices[i], indices[i + 1];
    forall j | a < j < b
      ensures species[j].family != species[a].family
    {
      forall t | 0 <= t < |indices|
        ensures indices[t] != j
      {
        if t <= i {
          assert indices[t] <= indices[i];
        } else {
          assert indices[i + 1] <= indices[t];
        }
      }
      if species[j].family == Text(f) {
        IndicesOfComplete(species, f, j);
      }
    }
  }

  /** `g` holds the positions of the records of some non-empty family. */
  ghost predicate IsFamilyIndices(species: seq<Species>, g: seq<nat>)
  {
    exists f :: f != "" && g == IndicesOf(species, f)
  }

  /** `e` joins some record to the next record of the same non-empty family. */
  ghost predicate KinLink(species: seq<Species>, e: Link)
  {
    exists a, b :: ConsecutiveKin(species, a, b) && e == Link(species[a].id, species[b].id)
  }

  /** The chain of one family stays in range and joins each record to the next of its family. */
  lemma ChainLinksKin(species: seq<Species>, f: string)
    requires f != ""
    ensures InRange(IndicesOf(species, f), |species|)
    ensures forall e :: e in ChainLinks(species, IndicesOf(species, f)) ==> KinLink(species, e)
  {
    var indices := IndicesOf(species, f);
    var chain := ChainLinks(species, indices);
    forall i | 0 <= i < |chain|
      ensures KinLink(species, chain[i])
    {
      ChainLinkKin(species, f, i);
      assert chain[i] == Link(species[indices[i]].id, species[indices[i + 1]].id);
    }
  }

  /** Appending the chain of one family to edges that join kin keeps every edge joining kin. */
  lemma KinLinksJoin(species: seq<Species>, earlier: seq<Link>, g: seq<nat>)
    requires IsFamilyIndices(species, g) && InRange(g, |species|)
    requires forall e :: e in earlier ==> KinLink(species, e)
    ensures forall e :: e in earlier + ChainLinks(species, g) ==> KinLink(species, e)
  {
    var f :| f != "" && g == IndicesOf(species, f);
    ChainLinksKin(species, f);
  }

  lemma {:induction false} FamilyLinksKin(species: seq<Species>, groups: seq<seq<nat>>)
    requires forall k :: 0 <= k < |groups| ==> IsFamilyIndices(species, groups[k]) && InRange(groups[k], |species|)
    ensures forall e :: e in FamilyLinks(species, groups) ==> KinLink(species, e)
    decreases |groups|
  {
    if groups != [] {
      var n := |groups| - 1;
      var prefix := groups[..n];
      assert forall k :: 0 <= k < n ==> prefix[k] == groups[k];
      FamilyLinksKin(species, prefix);
      KinLinksJoin(species, FamilyLinks(species, prefix), groups[n]);
    }
  }

  /** The graph `transformToGraphData` returns. */
  function Graph(species: seq<Species>): GraphData
  {
    FamilyGroupsSpec(species);
    GraphData(ToNodes(species), FamilyLinks(species, Values(FamilyGroups(species))))
  }

  /** One node per record, in input order, carrying the record's id and display name. */
  lemma GraphNodes(species: seq<Species>)
    ensures |Graph(species).nodes| == |species|
    ensures forall i :: 0 <= i < |species| ==>
      Graph(species).nodes[i].id == species[i].id && Graph(species).nodes[i].name == NodeName(species[i])
  {
  }

  /** No record has a non-empty family: no group is opened. */
  lemma {:induction false} FamilyGroupsNone(species: seq<Species>)
    requires forall j :: 0 <= j < |species| ==> !Truthy(species[j].family)
    ensures FamilyGroups(species) == []
    decreases |species|
  {
    if species != [] {
      FamilyGroupsNone(species[..|species| - 1]);
    }
  }

  /** Records without a family are drawn as isolated nodes: the graph has no edges. */
  lemma GraphNoFamilies(species: seq<Species>)
    requires forall j :: 0 <= j < |species| ==> !Truthy(species[j].family)
    ensures Graph(species).links == []
  {
    FamilyGroupsNone(species);
  }

  /** A graph over n records has at most max(n - 1, 0) edges. */
  lemma GraphLinksBound(species: seq<Species>)
    ensures |Graph(species).links| <= Max(|species| - 1, 0)
  {
    var groups := FamilyGroups(species);
    FamilyGroupsSpec(species);
    FamilyLinksCount(species, Values(groups));
  }

  /** Every edge joins a record to the next record of the same non-empty family. */
  lemma GraphLinksKin(species: seq<Species>)
    ensures forall e :: e in Graph(species).links ==> KinLink(species, e)
  {
    var groups := FamilyGroups(species);
    FamilyGroupsSpec(species);
    var values := Values(groups);
    forall k | 0 <= k < |values|
      ensures IsFamilyIndices(species, values[k])
    {
      assert groups[k].0 != "" && values[k] == IndicesOf(species, groups[k].0);
    }
    FamilyLinksKin(species, values);
  }

  /** `transformToGraphData`. */
  method TransformToGraphData(species: seq<Species>) returns (graph: GraphData)
    ensures graph == Graph(species)
    ensures |graph.nodes| == |species|
    ensures forall i :: 0 <= i < |species| ==>
              graph.nodes[i].id == species[i].id && graph.nodes[i].name == NodeName(species[i])
    ensures |graph.links| <= Max(|species| - 1, 0)
    ensures forall e :: e in graph.links ==>
              exists a, b :: ConsecutiveKin(species, a, b) && e == Link(graph.nodes[a].id, graph.nodes[b].id)
  {
    var nodes := ToNodes(species);
    var groups := GroupByFamily(species);
    FamilyGroupsSpec(species);
    var links := LinkFamilies(species, Values(groups));
    graph := GraphData(nodes, links);
    GraphLinksBound(species);
    GraphLinksKin(species);
  }

  // ---------------------------------------------------------------------
  // Seasonality histogram

  /** The presence pattern a seasonality text selects; `Unlisted` is the fallback for every other text. */
  datatype Season = Resident | Breeder | Migratory | Summer | Winter | Vagrant | Unlisted

  /** The keyword rules in the order they are tried: the first keyword found in the text decides. */
  const SeasonRules: seq<(string, Season)> := [
    ("resident", Resident),
    ("breeder", Breeder),
    ("migratory", Migratory),
    ("summer", Summer),
    ("winter", Winter),
    ("vagrant", Vagrant)
  ]

  function FirstMatch(text: string, rules: seq<(string, Season)>): (season: Season)
  {
    if rules == [] then Unlisted
    else if Includes(text, rules[0].0) then rules[0].1
    else FirstMatch(text, rules[1..])
  }

  /** The rule that decides is the first one whose keyword occurs in the text. */
  lemma {:induction false} FirstMatchIsFirst(text: string, rules: seq<(string, Season)>, i: nat)
    requires i < |rules| && Includes(text, rules[i].0)
    requires forall k :: 0 <= k < i ==> !Includes(text, rules[k].0)
    ensures FirstMatch(text, rules) == rules[i].1
  {
    if i > 0 {
      FirstMatchIsFirst(text, rules[1..], i - 1);
    }
  }

  /** A text containing none of the keywords falls back to `Unlisted`. */
  lemma {:induction false} FirstMatchNone(text: string, rules: seq<(string, Season)>)
    requires forall k :: 0 <= k < |rules| ==> !Includes(text, rules[k].0)
    ensures FirstMatch(text, rules) == Unlisted
  {
    if rules != [] {
      FirstMatchNone(text, rules[1..]);
    }
  }

  function Classify(text: string): Season
  {
    FirstMatch(text, SeasonRules)
  }

  /** The rule table agrees with the chain of `includes` tests of `getSeasonalityData`. */
  lemma ClassifyChain(text: string)
    ensures Classify(text) ==
      if Includes(text, "resident") then Resident
      else if Includes(text, "breeder") then Breeder
      else if Includes(text, "migratory") then Migratory
      else if Includes(text, "summer") then Summer
      else if Includes(text, "winter") then Winter
      else if Includes(text, "vagrant") then Vagrant
      else Unlisted
  {
    var r := SeasonRules;
    if Includes(text, "resident") {
      FirstMatchIsFirst(text, r, 0);
    } else if Includes(text, "breeder") {
      FirstMatchIsFirst(text, r, 1);
    } else if Includes(text, "migratory") {
      FirstMatchIsFirst(text, r, 2);
    } else if Includes(text, "summer") {
      FirstMatchIsFirst(text, r, 3);
    } else if Includes(text, "winter") {
      FirstMatchIsFirst(text, r, 4);
    } else if Includes(text, "vagrant") {
      FirstMatchIsFirst(text, r, 5);
    } else {
      FirstMatchNone(text, r);
    }
  }

  /** The months (0 for January) in which a species of this pattern is counted. */
  predicate ActiveIn(season: Season, month: int)
  {
    && 0 <= month < 12
    && match season
       case Resident => true
       case Breeder => 3 <= month < 8
       case Migratory => 2 <= month < 5 || 8 <= month < 11
       case Summer => 5 <= month < 8
       case Winter => month == 11 || month == 0 || month == 1
       case Vagrant => false
       case Unlisted => true
  }

  /** How many of the months before `upto` a pattern is counted in. */
  function ActiveCount(season: Season, upto: nat): nat
  {
    if upto == 0 then 0 else ActiveCount(season, upto - 1) + (if ActiveIn(season, upto - 1) then 1 else 0)
  }

  /** Resident and unlisted records count all twelve months. */
  lemma YearRoundMonths()
    ensures ActiveCount(Resident, 12) == 12 && ActiveCount(Unlisted, 12) == 12
  {
  }

  /** Breeders count five months (April to August), migrants six (March to May, September to November). */
  lemma BreederMigratoryMonths()
    ensures ActiveCount(Breeder, 12) == 5 && ActiveCount(Migratory, 12) == 6
  {
  }

  /** Summer and winter visitors count three months each, vagrants none. */
  lemma VisitorMonths()
    ensures ActiveCount(Summer, 12) == 3 && ActiveCount(Winter, 12) == 3 && ActiveCount(Vagrant, 12) == 0
  {
  }

  /** `s.seasonality?.toLowerCase() || ''`. */
  function LoweredSeasonality(s: Species): (text: string)
    ensures Truthy(s.seasonality) <==> text != ""
  {
    if s.seasonality.Text? then ToLower(s.seasonality.s) else ""
  }

  function SeasonOf(s: Species): Season
  {
    Classify(LoweredSeasonality(s))
  }

  /** A record without a seasonality text counts in every month. */
  lemma MissingSeasonalityYearRound(s: Species)
    requires !Truthy(s.seasonality)
    ensures forall m :: 0 <= m < 12 ==> ActiveIn(SeasonOf(s), m)
  {
    ClassifyChain("");
  }

  /** The number of records counted in `month`. */
  function Tally(species: seq<Species>, month: int): (count: nat)
    ensures count <= |species|
    ensures !(0 <= month < 12) ==> count == 0
    decreases |species|
  {
    if species == [] then 0
    else
      var n: nat := |species| - 1;
      Tally(species[..n], month) + Counted(species[n], month)
  }

  /** 1 when the record is counted in `month`, else 0. */
  function Counted(s: Species, month: int): nat
  {
    if ActiveIn(SeasonOf(s), month) then 1 else 0
  }

  /** One more record adds its own pattern to the counts. */
  lemma TallyStep(species: seq<Species>, k: nat)
    requires k < |species|
    ensures forall m ::
      Tally(species[..k + 1], m) == Tally(species[..k], m) + Counted(species[k], m)
  {
    assert species[..k + 1][..k] == species[..k];
  }

  /** The histogram of a concatenation is the sum of the histograms. */
  lemma {:induction false} TallyAppend(a: seq<Species>, b: seq<Species>, month: int)
    ensures Tally(a + b, month) == Tally(a, month) + Tally(b, month)
    decreases |b|
  {
    if b != [] {
      var n: nat := |b| - 1;
      DropLastOfConcat(a, b);
      TallyAppend(a, b[..n], month);
    } else {
      ConcatEmpty(a);
    }
  }

  /** Records with the year-round patterns are counted in every month, so every month counts at least them. */
  lemma {:induction false} TallyYearRound(species: seq<Species>, month: int)
    requires 0 <= month < 12
    requires forall i :: 0 <= i < |species| ==> SeasonOf(species[i]) in {Resident, Unlisted}
    ensures Tally(species, month) == |species|
  {
    forall i | 0 <= i < |species|
      ensures Counted(species[i], month) == 1
    {
      YearRoundCounted(species[i], month);
    }
    TallyAllCounted(species, month);
  }

  /** When every record is counted in `month`, the month counts them all. */
  lemma {:induction false} TallyAllCounted(species: seq<Species>, month: int)
    requires forall i :: 0 <= i < |species| ==> Counted(species[i], month) == 1
    ensures Tally(species, month) == |species|
    decreases |species|
  {
    if species != [] {
      var n: nat := |species| - 1;
      var prefix := species[..n];
      assert forall i :: 0 <= i < n ==> prefix[i] == species[i];
      TallyAllCounted(prefix, month);
    }
  }

  /** A record with a year-round pattern is counted in every month. */
  lemma YearRoundCounted(s: Species, month: int)
    requires 0 <= month < 12 && SeasonOf(s) in {Resident, Unlisted}
    ensures Counted(s, month) == 1
  {
  }

  /** `for (let i = lo; i < hi; i++) monthlyData[i]++`. */
  method IncrementMonths(data: array<nat>, lo: nat, hi: nat)
    requires lo <= hi <= data.Length
    modifies data
    ensures forall m :: 0 <= m < data.Length ==> data[m] == old(data[m]) + (if lo <= m < hi then 1 else 0)
  {
    var i := lo;
    while i < hi
      invariant lo <= i <= hi
      invariant forall m :: 0 <= m < data.Length ==> data[m] == old(data[m]) + (if lo <= m < i then 1 else 0)
    {
      data[i] := data[i] + 1;
      i := i + 1;
    }
  }

  /** The `forEach` callback of `getSeasonalityData`: adds one record's pattern to the twelve counters. */
  method CountSeasonality(data: array<nat>, text: string)
    requires data.Length == 12
    modifies data
    ensures forall m :: 0 <= m < 12 ==> data[m] == old(data[m]) + (if ActiveIn(Classify(text), m) then 1 else 0)
  {
    ClassifyChain(text);
    if Includes(text, "resident") {
      IncrementMonths(data, 0, 12);
    } else if Includes(text, "breeder") {
      IncrementMonths(data, 3, 8);
    } else if Includes(text, "migratory") {
      IncrementMonths(data, 2, 5);
      IncrementMonths(data, 8, 11);
    } else if Includes(text, "summer") {
      IncrementMonths(data, 5, 8);
    } else if Includes(text, "winter") {
      data[11] := data[11] + 1;
      data[0] := data[0] + 1;
      data[1] := data[1] + 1;
    } else if Includes(text, "vagrant") {
    } else {
      IncrementMonths(data, 0, 12);
    }
  }

  /** The twelve monthly counts, January first. */
  function Histogram(species: seq<Species>): (h: seq<nat>)
    ensures |h| == 12
    ensures forall m :: 0 <= m < 12 ==> h[m] <= |species|
  {
    seq(12, m requires 0 <= m < 12 => Tally(species, m))
  }

  /** The histogram of two lists joined together is the sum of their histograms, month by month. */
  lemma HistogramAppend(a: seq<Species>, b: seq<Species>)
    ensures forall m :: 0 <= m < 12 ==> Histogram(a + b)[m] == Histogram(a)[m] + Histogram(b)[m]
  {
    forall m | 0 <= m < 12
      ensures Histogram(a + b)[m] == Histogram(a)[m] + Histogram(b)[m]
    {
      TallyAppend(a, b, m);
    }
  }

  /** `getSeasonalityData`: how many of the records are present in each month. */
  method GetSeasonalityData(species: seq<Species>) returns (monthly: seq<nat>)
    ensures monthly == Histogram(species)
  {
    var data := new nat[12](_ => 0);
    var k: nat := 0;
    while k < |species|
      invariant k <= |species|
      invariant forall m :: 0 <= m < 12 ==> data[m] == Tally(species[..k], m)
    {
      CountSeasonality(data, LoweredSeasonality(species[k]));
      TallyStep(species, k);
      k := k + 1;
    }
    assert species[..k] == species;
    monthly := data[..];
    assert forall m :: 0 <= m < 12 ==> monthly[m] == Histogram(species)[m];
  }

  // ---------------------------------------------------------------------
  // Visual encodings

  /** `table[key]` on an object literal; an absent field is looked up as `"undefined"`, which no table lists. */
  function Lookup<V>(table: map<string, V>, key: Field): (r: Option<V>)
    ensures r.Some? <==> key.Text? && key.s in table
    ensures r.Some? ==> r.value == table[key.s]
  {
    if key.Text? && key.s in table then Some(table[key.s]) else None
  }

  const AbundanceSizes: map<string, nat> := map[
    "Abundant" := 20,
    "Common" := 15,
    "Occasional" := 12,
    "Uncommon" := 10,
    "Rare" := 7,
    "Unknown" := 8
  ]
  const DefaultAbundanceSize: nat := 8

  /** `getAbundanceSize`: the node radius for an abundance value, `sizes[abundance] || 8`. */
  function GetAbundanceSize(abundance: Field): (size: nat)
    ensures size in {7, 8, 10, 12, 15, 20}
    ensures abundance.Text? && abundance.s in AbundanceSizes ==> size == AbundanceSizes[abundance.s]
    ensures !(abundance.Text? && abundance.s in AbundanceSizes) ==> size == DefaultAbundanceSize
  {
    var v := Lookup(AbundanceSizes, abundance);
    if v.Some? && v.value != 0 then v.value else DefaultAbundanceSize
  }

  /** A CSS colour written `#rrggbb`. */
  predicate IsHexColor(c: string)
  {
    |c| == 7 && c[0] == '#' &&
    forall i :: 1 <= i < 7 ==> c[i] in "0123456789abcdef"
  }

  const NativenessColors: map<string, string> := map[
    "Native" := "#22c55e",
    "Not Native" := "#ef4444",
    "Unknown" := "#94a3b8",
    "Not Checked" := "#64748b",
    "Probably Native" := "#84cc16",
    "Probably Not Native" := "#f97316"
  ]
  const DefaultNativenessColor: string := "#94a3b8"

  /** `getNativenessColor`: `colors[nativeness] || '#94a3b8'`. */
  function GetNativenessColor(nativeness: Field): (color: string)
    ensures IsHexColor(color)
    ensures color in NativenessColors.Values
    ensures nativeness.Text? && nativeness.s in NativenessColors ==> color == NativenessColors[nativeness.s]
    ensures !(nativeness.Text? && nativeness.s in NativenessColors) ==> color == DefaultNativenessColor
  {
    var v := Lookup(NativenessColors, nativeness);
    assert NativenessColors["Unknown"] == DefaultNativenessColor;
    if v.Some? && v.value != "" then v.value else DefaultNativenessColor
  }

  const CategoryColors: map<string, string> := map[
    "Mammal" := "#f59e0b",
    "Bird" := "#3b82f6",
    "Reptile" := "#84cc16",
    "Amphibian" := "#10b981",
    "Fish" := "#06b6d4",
    "Invertebrate" := "#8b5cf6",
    "Insect" := "#a855f7",
    "Spider/Scorpion" := "#ec4899",
    "Slug/Snail" := "#f43f5e",
    "Crab/Lobster/Shrimp" := "#14b8a6",
    "Vascular Plant" := "#22c55e",
    "Nonvascular Plant" := "#65a30d",
    "Fungi" := "#d946ef",
    "Algae" := "#0ea5e9"
  ]
  const DefaultCategoryColor: string := "#64748b"

  /** `getCategoryColor`: `colors[category] || '#64748b'`. */
  function GetCategoryColor(category: Field): (color: string)
    ensures IsHexColor(color)
    ensures category.Text? && category.s in CategoryColors ==> color == CategoryColors[category.s]
    ensures !(category.Text? && category.s in CategoryColors) ==> color == DefaultCategoryColor
  {
    var v := Lookup(CategoryColors, category);
    if v.Some? && v.value != "" then v.value else DefaultCategoryColor
  }

  /** The fallback category colour is not the colour of any listed category. */
  lemma DefaultCategoryColorDistinct(category: Field)
    ensures GetCategoryColor(category) == DefaultCategoryColor <==>
      !(category.Text? && category.s in CategoryColors)
  {
  }
}
