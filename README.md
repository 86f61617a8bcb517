# Species galaxy: a verified model of the data pipeline

The application shows the species records of one national park as a "galaxy":
one node per species record, with short chains of edges linking records of the
same taxonomic family. Beside it, a "seasonal clock" shows in which months the
park's species are present, along with a statistics panel. This project models
the synchronous core of that application and proves properties about it.

Modules:

- **`JsValues`, `JsObject`, `Records`**: the JavaScript values the pipeline
  works on.
  - A parsed CSV column is a `Field`, either absent or a string. Its
    truthiness and the `||` fallback are modelled explicitly.
  - A plain object used as a dictionary is a `Dict`: a sequence of
    (key, value) entries with distinct keys, in insertion order.
  - The `Park`, `Species`, `Node`, `Link` and `GraphData` records.
- **`DataLoader`** (`src/utils/dataLoader.js`):
  - The park filter.
  - The graph builder. It makes one node per record, files records into
    family groups with an imperative loop over a dictionary, then builds a
    capped chain of edges inside each group.
  - The twelve-month seasonality histogram. Its loop runs over an `array` of
    counters, driven by the keyword `if`/`else` chain.
  - The three visual-encoding tables.
- **`SpeciesClock`** (`src/components/SpeciesClock.jsx`):
  - `calculateStats`: the native and non-native counts, a category-count
    dictionary built by a loop, and its top five entries under a stable sort
    by decreasing count.
  - The guard that skips an empty species list, as a small `ClockState`
    class.
- **`App`** (`src/App.jsx`):
  - The view state as an `AppState` class: the parks, sorted by name; the
    default selection of the first park; the working set of at most 500
    records of the selected park; and the graph built from that working set.
  - Park selection by name.
- **`SeqFacts`**: a few identities of sequence concatenation shared by the
  proofs.

Each loop of the source is a method. Its `ensures` clause ties the result to a
recursive specification function over the input, and lemmas state what that
function means.

Highlights of what is proved:

- The graph has exactly one node per record.
- Every edge joins a record to the next record of the same non-empty family.
- There are at most n - 1 edges.
- The family groups hold exactly the positions of each family's records, in
  the order the families first appear.
- The keyword table used for seasonality agrees with the source's `if` chain.
- The month counts are additive over concatenated record lists.
- The category counts are exact.
- The top-five list is sorted and stable, and no category left out has a
  higher count than one shown.
- The parks are sorted, and the default park is the least by name.
- Each state change keeps the working set and the graph consistent.

## Model

| member | source | states |
|---|---|---|
| DataLoader.FilterSpeciesByPark | src/utils/dataLoader.js:58-60 | the result holds exactly the records whose `parkName` equals the given name, each as often as in the input, in input order (a subsequence) |
| DataLoader.NodeName | src/utils/dataLoader.js:66-66 | a node is named by the common name when that is non-empty, otherwise by the scientific name; the name is empty only when both are |
| DataLoader.GraphNodes | src/utils/dataLoader.js:64-75 | the graph has one node per record, in input order, carrying the record's id and display name |
| DataLoader.ToNodes | src/utils/dataLoader.js:64-75 | `species.map` yields one node per record, in order, each carrying its record's id and display name |
| DataLoader.ToNodesAppend | src/utils/dataLoader.js:64-75 | the map works record by record: the nodes of two joined lists are the two node lists joined |
| DataLoader.IndicesOf | src/utils/dataLoader.js:81-88 | the positions filed under family `f` are strictly increasing and each holds a record of family `f` |
| DataLoader.IndicesOfComplete | src/utils/dataLoader.js:81-88 | every record of family `f` has its position listed under `f` |
| DataLoader.FamilyGroups | src/utils/dataLoader.js:81-88 | the `familyGroups` object never holds a key twice |
| DataLoader.AddToGroupKeys | src/utils/dataLoader.js:83-86 | a grouping step adds the family as the last key when it is new and otherwise leaves the keys alone |
| DataLoader.FamilyGroupsCover | src/utils/dataLoader.js:81-88 | every record with a non-empty family is filed under that family |
| DataLoader.FamilyGroupsIndexed | src/utils/dataLoader.js:81-88 | every group is keyed by a non-empty family, is non-empty and holds exactly the positions of that family's records |
| DataLoader.FamilyGroupsIndexedStep | src/utils/dataLoader.js:82-87 | one step of the grouping loop keeps every group equal to the positions of its family |
| DataLoader.FamilyGroupsFirstSeen | src/utils/dataLoader.js:81-88 | the groups stand in the order in which their families first occur |
| DataLoader.FamilyGroupsSum | src/utils/dataLoader.js:81-88 | the groups together hold one position per record with a non-empty family |
| DataLoader.FamilyGroupsSpec | src/utils/dataLoader.js:81-88 | all of the above at once: distinct keys, cover, exact positions, first-seen order and total size |
| DataLoader.PushToGroup | src/utils/dataLoader.js:83-86 | opening an empty group for a new family and pushing the position performs exactly one grouping step |
| DataLoader.GroupByFamily | src/utils/dataLoader.js:79-88 | the grouping loop builds exactly the family groups of the whole input |
| DataLoader.EdgeCount | src/utils/dataLoader.js:92-94 | a group contributes at most 5 edges and at most one fewer than its size, and some edge exactly when it has between 2 and 49 members |
| DataLoader.ChainLinksShape | src/utils/dataLoader.js:92-98 | a family of k members gets min(k - 1, 5) edges when 1 < k < 50 and none otherwise; edge i runs from member i to member i + 1 |
| DataLoader.FamilyLinksAppend | src/utils/dataLoader.js:91-101 | links are emitted family by family in the order of `Object.values`: the links of two joined group lists are their links joined |
| DataLoader.AppendChain | src/utils/dataLoader.js:94-99 | the inner loop appends exactly the chain links of one group to the links built so far |
| DataLoader.LinkFamilies | src/utils/dataLoader.js:78-101 | the nested link loops produce exactly the chains of the groups, group after group |
| DataLoader.FamilyLinksCount | src/utils/dataLoader.js:91-101 | the edges of non-empty groups plus the number of groups never exceed the positions filed |
| DataLoader.ChainLinkKin | src/utils/dataLoader.js:94-98 | the i-th edge of a family chain joins a record to the very next record of the same family |
| DataLoader.ChainLinksKin | src/utils/dataLoader.js:94-98 | a family's positions are in range and every edge of its chain joins consecutive records of that family |
| DataLoader.KinLinksJoin | src/utils/dataLoader.js:91-101 | appending one family's chain to edges that join kin keeps every edge joining kin |
| DataLoader.FamilyLinksKin | src/utils/dataLoader.js:91-101 | every edge built from groups of family positions joins consecutive records of one non-empty family |
| DataLoader.GraphLinksBound | src/utils/dataLoader.js:78-101 | a graph over n records has at most max(n - 1, 0) edges |
| DataLoader.GraphLinksKin | src/utils/dataLoader.js:78-101 | every edge of the graph joins a record to the next record of the same non-empty family |
| DataLoader.GraphNoFamilies | src/utils/dataLoader.js:78-103 | when no record has a family, the graph has no edges |
| DataLoader.TransformToGraphData | src/utils/dataLoader.js:62-104 | the method returns the specified graph: one node per record with its id and name, at most n - 1 edges, each edge between the ids of consecutive records of one family |
| DataLoader.FirstMatchIsFirst | src/utils/dataLoader.js:113-131 | the keyword that decides is the first of the ordered keywords found in the text |
| DataLoader.FirstMatchNone | src/utils/dataLoader.js:133-136 | a text containing none of the keywords falls to the year-round fallback |
| DataLoader.ClassifyChain | src/utils/dataLoader.js:113-136 | the keyword table classifies every text as the `includes` chain does, branch by branch |
| DataLoader.LoweredSeasonality | src/utils/dataLoader.js:111-111 | the lowered text is empty exactly when the seasonality field is absent or empty |
| DataLoader.MissingSeasonalityYearRound | src/utils/dataLoader.js:111-135 | a record without a seasonality text is counted in all twelve months |
| DataLoader.Tally | src/utils/dataLoader.js:106-140 | a month's count never exceeds the number of records, and indices outside 0..11 count nothing |
| DataLoader.TallyStep | src/utils/dataLoader.js:110-137 | one more record adds its own pattern to every month's count |
| DataLoader.TallyAppend | src/utils/dataLoader.js:110-137 | the histogram of two lists joined together is the sum of their histograms |
| DataLoader.TallyYearRound | src/utils/dataLoader.js:113-135 | when every record is resident or unlisted, every month counts all records |
| DataLoader.TallyAllCounted | src/utils/dataLoader.js:110-137 | when every record is counted in a month, that month counts them all |
| DataLoader.YearRoundCounted | src/utils/dataLoader.js:113-135 | a resident or unlisted record is counted in every month |
| DataLoader.YearRoundMonths | src/utils/dataLoader.js:113-115 | resident records, and records matching no keyword (lines 133-135), are counted in all twelve months |
| DataLoader.BreederMigratoryMonths | src/utils/dataLoader.js:116-122 | breeders are counted in five months (April to August), migrants in six (March to May, September to November) |
| DataLoader.VisitorMonths | src/utils/dataLoader.js:123-132 | summer visitors are counted in three months (June to August), winter visitors in three (December to February), vagrants in none |
| DataLoader.IncrementMonths | src/utils/dataLoader.js:115-125 | a `for` loop adds one to each counter in [lo, hi) and leaves the others unchanged |
| DataLoader.CountSeasonality | src/utils/dataLoader.js:111-136 | one record adds one to exactly the months of its pattern (April-August breeder, March-May and September-November migratory, June-August summer, December-February winter, none vagrant, all for resident or other text) |
| DataLoader.Histogram | src/utils/dataLoader.js:106-140 | the twelve monthly counts, each at most the number of records |
| DataLoader.HistogramAppend | src/utils/dataLoader.js:110-137 | month by month, the histogram of two lists joined together is the sum of their histograms |
| DataLoader.GetSeasonalityData | src/utils/dataLoader.js:106-140 | the array filled record by record equals the histogram: twelve entries, entry m the number of records present in month m |
| DataLoader.Lookup | src/utils/dataLoader.js:151-151 | looking up an object literal finds a value exactly when the field is a listed key |
| DataLoader.GetAbundanceSize | src/utils/dataLoader.js:142-152 | a listed abundance gets its size, anything else (absent included) gets 8; every size is one of 7, 8, 10, 12, 15, 20 |
| DataLoader.GetNativenessColor | src/utils/dataLoader.js:154-164 | a listed nativeness gets its colour, anything else gray `#94a3b8`; every result is a `#rrggbb` colour from the table |
| DataLoader.GetCategoryColor | src/utils/dataLoader.js:166-184 | a listed category gets its colour, anything else slate `#64748b`; every result is a `#rrggbb` colour |
| DataLoader.DefaultCategoryColorDistinct | src/utils/dataLoader.js:166-184 | a category gets the fallback colour exactly when it is not listed, since no listed category uses it |
| JsObject.Get | src/utils/dataLoader.js:83-83 | reading a key finds a value exactly when the key is present |
| JsObject.Keys | src/utils/dataLoader.js:83-83 | the own keys of an object, one per entry, in insertion order; membership in them is the own-key test behind `!familyGroups[s.family]` here and `categoryCount[s.category] or 0` at SpeciesClock.jsx line 117 |
| JsObject.Values | src/utils/dataLoader.js:91-91 | the values of an object, one per entry, in insertion order, as `Object.values(familyGroups)` lists them |
| JsObject.Put | src/components/SpeciesClock.jsx:117-117 | after an assignment the key reads back the assigned value |
| JsObject.PutNew | src/utils/dataLoader.js:83-84 | assigning to a key not yet present appends it after every existing key |
| JsObject.PutExisting | src/components/SpeciesClock.jsx:117-117 | assigning to a present key replaces its value in place and keeps every other entry |
| JsObject.PutDistinct | src/components/SpeciesClock.jsx:117-117 | assignment keeps the keys distinct |
| JsValues.Or | src/utils/dataLoader.js:66-66 | the logical-or fallback is truthy exactly when either operand is; a truthy left operand is kept, a falsy one yields the right operand |
| JsValues.ToLower | src/utils/dataLoader.js:111-111 | lower-casing keeps the length of the text |
| JsValues.ToLowerLowers | src/utils/dataLoader.js:111-111 | lower-casing leaves no ASCII capital behind and changes no other character |
| JsValues.ToLowerIdempotent | src/utils/dataLoader.js:111-111 | lower-casing twice is the same as lower-casing once |
| JsValues.IncludesOccurs | src/utils/dataLoader.js:113-131 | `includes` holds exactly when the keyword occurs in the text at some position |
| SpeciesClock.CountNativeness | src/components/SpeciesClock.jsx:111-112 | the count of records with one nativeness value never exceeds the number of records |
| SpeciesClock.NativeAndNonNativeDisjoint | src/components/SpeciesClock.jsx:111-112 | the native and non-native counts together never exceed the total |
| SpeciesClock.IncrementIsBump | src/components/SpeciesClock.jsx:117-117 | `counts[c] = (counts[c] \|\| 0) + 1` adds a new category at the end with 1, or adds one to an existing count in place |
| SpeciesClock.IncrementNew | src/components/SpeciesClock.jsx:117-117 | on a category not yet counted the assignment appends it with count 1 |
| SpeciesClock.IncrementExisting | src/components/SpeciesClock.jsx:117-117 | on a category already counted the assignment adds one to its count in place |
| SpeciesClock.IncrementCategory | src/components/SpeciesClock.jsx:117-117 | the assignment performs exactly one counting step |
| SpeciesClock.CountOrZero | src/components/SpeciesClock.jsx:117-117 | reading a count with a fallback of 0 gives the stored count of a key and 0 for an absent one |
| SpeciesClock.BumpKeys | src/components/SpeciesClock.jsx:115-119 | a counting step adds the category as the last key when it is new, keeping keys distinct |
| SpeciesClock.CategoryCounts | src/components/SpeciesClock.jsx:113-119 | the `categoryCount` object never holds a key twice |
| SpeciesClock.CategoryCountsCover | src/components/SpeciesClock.jsx:115-119 | every record with a non-empty category has its category among the keys |
| SpeciesClock.CategoryCountsAbsent | src/components/SpeciesClock.jsx:115-119 | a non-empty category that is not a key has no records |
| SpeciesClock.CategoryCountsExact | src/components/SpeciesClock.jsx:113-119 | every key is a non-empty category whose value is its exact number of records, at least 1 |
| SpeciesClock.CategoryCountsSum | src/components/SpeciesClock.jsx:113-119 | the counts add up to the number of records with a non-empty category |
| SpeciesClock.CategoryCountsStep | src/components/SpeciesClock.jsx:115-119 | one more record bumps its own category alone |
| SpeciesClock.FirstOfCategory | src/components/SpeciesClock.jsx:115-119 | the position of the first record of a category: that record has the category and no earlier one does, or the number of records when none has it |
| SpeciesClock.CategoryCountsFirstSeen | src/components/SpeciesClock.jsx:115-119 | every key of the counts has a record, and the keys stand in the order in which their categories first occur among the records |
| SpeciesClock.WithCountOrdered | src/components/SpeciesClock.jsx:121-122 | picking the entries of one count keeps first-occurrence order |
| SpeciesClock.InsertByCount | src/components/SpeciesClock.jsx:121-122 | inserting an entry adds exactly that entry |
| SpeciesClock.SortByCount | src/components/SpeciesClock.jsx:121-122 | the sort is a permutation of the entries |
| SpeciesClock.InsertByCountSorted | src/components/SpeciesClock.jsx:122-122 | inserting into a list ordered by decreasing count keeps it ordered |
| SpeciesClock.SortByCountSorted | src/components/SpeciesClock.jsx:121-122 | the sorted entries are in decreasing order of count |
| SpeciesClock.InsertByCountStable | src/components/SpeciesClock.jsx:122-122 | an inserted entry lands after every entry of equal count |
| SpeciesClock.SortByCountStable | src/components/SpeciesClock.jsx:121-122 | the sort is stable: entries of equal count keep their order of first insertion |
| SpeciesClock.TopCategories | src/components/SpeciesClock.jsx:121-123 | the list keeps the first min(n, 5) entries of the sorted entries |
| SpeciesClock.TopCategoriesRanked | src/components/SpeciesClock.jsx:121-123 | the kept entries are in decreasing order, none left out outranks a kept one, and every kept entry is one of the counts |
| SpeciesClock.TopCategoriesListed | src/components/SpeciesClock.jsx:121-123 | every kept entry is an entry of the counts |
| SpeciesClock.TopCategoriesOmitted | src/components/SpeciesClock.jsx:121-123 | an entry left out has a count no higher than any kept entry |
| SpeciesClock.CountCategoryWitness | src/components/SpeciesClock.jsx:115-119 | a category with a positive count has a record that shows it |
| SpeciesClock.TopCategoriesAreTop | src/components/SpeciesClock.jsx:113-123 | a category with records that is not shown has no more records than any category shown |
| SpeciesClock.TopCategoriesTiesFirstSeen | src/components/SpeciesClock.jsx:115-123 | two shown categories with equal counts are listed in the order in which they first occur among the records |
| SpeciesClock.SummaryFacts | src/components/SpeciesClock.jsx:110-131 | the stats count every record as the total, native plus non-native at most the total, at most five top categories in decreasing order, each a non-empty category with its exact positive count |
| SpeciesClock.Summary | src/components/SpeciesClock.jsx:125-130 | the stats object: the total is the number of records, native plus non-native is at most the total, and at most five categories are kept |
| SpeciesClock.CalculateStats | src/components/SpeciesClock.jsx:110-131 | the method computes exactly the specified statistics |
| SpeciesClock.ClockState.constructor | src/components/SpeciesClock.jsx:8-8 | the panel starts with no statistics |
| SpeciesClock.ClockState.OnSpeciesChanged | src/components/SpeciesClock.jsx:15-108 | an empty species list leaves the statistics untouched; any other list replaces them with its statistics |
| App.NameLeTotal | src/App.jsx:31-31 | any two park names are ordered one way or the other |
| App.NameLeTransitive | src/App.jsx:31-31 | the name order is transitive |
| App.NameLeAntisymmetric | src/App.jsx:31-31 | two names that each sort no later than the other are equal, so the order is total on names |
| App.InsertByName | src/App.jsx:31-31 | inserting a park adds exactly that park |
| App.SortParksByName | src/App.jsx:31-31 | sorting the parks is a permutation |
| App.InsertByNameSorted | src/App.jsx:31-31 | inserting into a name-ordered list keeps it ordered |
| App.SortParksByNameSorted | src/App.jsx:31-31 | the sorted parks are in name order |
| App.InsertByNameStable | src/App.jsx:31-31 | an inserted park lands after every park of the same name |
| App.SortParksByNameStable | src/App.jsx:31-31 | the sort is stable: parks with the same name keep their input order |
| App.FirstParkIsLeast | src/App.jsx:31-37 | the park selected by default has a name no later than any park's |
| App.FindPark | src/App.jsx:65-65 | no park is found exactly when no park has the name; a found park has the name and is one of the parks |
| App.FindParkFirst | src/App.jsx:65-65 | the park found is the first park holding that name |
| App.WorkingSet | src/App.jsx:52-55 | the working set has min(matching records, 500) records, all of the selected park |
| App.WorkingSetOrdered | src/App.jsx:52-55 | the working set keeps the park's records in their order in the full list |
| App.AppState.constructor | src/App.jsx:13-17 | the state starts empty, with no park selected and no graph, and consistent |
| App.AppState.RecomputeViews | src/App.jsx:50-61 | with a park selected and records loaded, the working set and its graph are rebuilt; otherwise both are left as they were |
| App.AppState.LoadData | src/App.jsx:22-48 | loading stores the parks sorted by name and every record, selects the first sorted park when there is one, rebuilds the views and keeps the state consistent |
| App.AppState.HandleParkChange | src/App.jsx:63-67 | choosing a name selects the first park of that name (or none) and rebuilds the views, keeping the state consistent |
| App.GraphMatchesWorkingSet | src/App.jsx:50-61 | in a consistent state the graph on screen has one node per working-set record, in order, and at most 500 nodes |

## Left out

- Loading: `loadParks` and `loadSpecies` read CSV files over the network and parse them with Papa Parse. This is I/O. The model starts from the parsed rows (`LoadData` takes them as parameters), and `parseFloat` of the coordinates is not modelled.
- The load error path: the `try`/`catch` that sets the error message and the `loading` flag. This is React UI state around the I/O.
- Rendering: the D3 drawing in `GalaxyVisualization` and in the clock, the month selection, the `colorMode` toggle, and the use of the monthly counts for drawing. None of this computes data the model keeps.
- React effect scheduling: effects run when their dependencies change. `RecomputeViews` is called explicitly after each state change, and React's bail-out for an unchanged value is not modelled.
- App.NameLe: `localeCompare` is taken as plain lexicographic order on characters. Locale collation rules (accents, case) are not modelled.
- JsValues.ToLower: only ASCII letters are lower-cased; JavaScript's full Unicode lower-casing is not modelled.
- App.SortParksByName, SpeciesClock.SortByCount: the engine's `Array.prototype.sort` is modelled as a stable insertion sort. Modern engines sort stably. Ordering, permutation and stability are proved, and these three fix the result, but the engine's own algorithm is not modelled.
- App.AppState.LoadData: the source sorts the parsed parks array in place and then reads its first element. The model keeps a sorted copy and selects its first park, which is the same park. Aliasing of the array is not modelled.
- SpeciesClock.TopCategoriesTiesFirstSeen: the first-occurrence order of tied categories follows from insertion order, so it does not hold in JavaScript for integer-like category names (next line).
- JsObject.Put: the dictionary keeps keys in insertion order. JavaScript lists integer-like keys (such as a category named "12") first, in numeric order; that ordering is not modelled.
- DataLoader.Lookup: inherited object properties are not modelled. In JavaScript, a category named, say, "constructor" would find `Object.prototype.constructor` in the colour table or in the count object. The same holds for `familyGroups[s.family]` in `transformToGraphData` (src/utils/dataLoader.js:83-86): for a family named "constructor" or "toString", the inherited property is truthy, so `= []` is skipped and `.push(i)` throws a TypeError. `PushToGroup` opens a new group for such a family instead.
- Records: a park or species record whose `name`, or any other field, is not a string, and a `null` or missing `species` prop, are outside the model. Only absent and string fields are modelled.

