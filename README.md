# d3 treemap: a Dafny model of its own computations

The repository is a single browser script, `main.js`, that draws a treemap of
video game sales, movie sales or Kickstarter pledges with d3. Most of the work
(building the hierarchy, summing values, sorting, squarified tiling, colours,
SVG output) is done by d3. This project models the small deterministic
computations the script performs itself, and proves what each of them
promises:

- **Dataset selection** (`Datasets`): the `data` query parameter, defaulting
  to `videogames` when missing or empty, looked up in the three-entry table.
- **Dotted-path ids** (`Hierarchy`): the `eachBefore` callback that gives the
  root its name as id and every other node `parent.id + "." + name`. The
  rule is stated on the tree as the labelling `Label`, whose ids read in
  pre-order are `PreorderIds` (`PreorderIdsAreLabelIds`). The callback
  itself is an in-place pass over the nodes in visiting order that writes
  an array of ids (`AssignIds`), and `PathIdsOfTree`, used by
  `AssignTreeIds`, proves that the pass writes exactly those pre-order ids.
  The module also defines `root.leaves()` (`Leaves`).
- **Sibling comparator** (`SiblingOrder`): `b.height - a.height || b.value - a.value`.
- **Legend categories** (`Categories`): the leaves' categories deduplicated
  by the `indexOf(x) === index` filter.
- **Tile labels** (`TileLabels`): `name.split(/(?=[A-Z][^A-Z])/g)` and the
  stacked `tspan` lines.
- **Legend grid** (`Legend`): three items per row, placed 150 apart across
  and 25 apart down.

Trees are the datatype `Hierarchy.Node` (name, optional category, value,
children). Strings are `seq<char>`. Values and heights are integers. A node is
a leaf when its children sequence is empty. The fetched JSON, the URL and the
DOM are not modelled. Their results come in as parameters: the query
parameter is an `Option<string>`, and the sorted tree and d3's node heights
and values are inputs.

The default key is held in a constant named `DEFAULT_DATASET`, but the code
falls back to it only when the parameter is missing or empty, not when the
key is unknown. The model follows the code, and the gap is recorded under
"## Findings".

## Model

| member | source | states |
|---|---|---|
| `Datasets.Registry` | main.js:3-23 | the table has exactly the keys videogames, movies and kickstarter, and the default key maps to the Video Game Sales entry |
| `Datasets.SelectedKey` | main.js:26-28 | a missing or empty parameter gives the default key `videogames`; any other string is used unchanged |
| `Datasets.Select` | main.js:26-28 | a missing or empty parameter selects the videogames entry; a non-empty key selects an entry exactly when it is in the table, and then exactly its own entry; an unknown key selects nothing, with no fallback |
| `Datasets.PageHeading` | main.js:28-31 | the title and description are shown exactly when a dataset was selected, and they are that dataset's; otherwise reading `TITLE` fails |
| `Datasets.UnknownKeyHasNoHeading` | main.js:28-31 | every non-empty key outside the table selects nothing, and the heading step fails |
| `Datasets.MisspeltKeyExample` | main.js:28-30 | the concrete key `movie` makes the heading step fail |
| `Datasets.SelectOrDefault` | main.js:27-28 | corrected selection: a key in the table selects its own entry, and every other parameter selects videogames, so some table entry is always chosen |
| `Datasets.CorrectedPageHeading` | main.js:27-31 | with the corrected selection a heading is always shown, and it agrees with the as-written heading whenever that one succeeds |
| `Hierarchy.Label` | main.js:70-72 | definition of the id tree: each node's id is its parent's id, a dot and its name, or its name alone at the root; its properties are proved in `LabelIsWellLabelled` and `WellLabelledIsLabel` |
| `Hierarchy.LabelIsWellLabelled` | main.js:70-72 | the root's id is its own name, a node below a parent gets the parent's id plus "." plus its name, and at every node each child's id is the parent's id plus "." plus the child's name |
| `Hierarchy.WellLabelledIsLabel` | main.js:70-72 | any labelling that follows that rule at every node and starts from the root's name is exactly the computed labelling, so ids depend only on the names along the path |
| `Hierarchy.SameNamedSiblingsCollide` | main.js:71 | ids are not made unique: two siblings with the same name get the same id |
| `Hierarchy.PreorderIds` | main.js:70-72 | one id per node in visiting order; the first is the subtree root's id (its name, or the parent's id, a dot and its name) |
| `Hierarchy.PreorderIdsAreLabelIds` | main.js:70-72 | the ids in visiting order are exactly the ids of the labelling `Label`, read in pre-order |
| `Hierarchy.Flatten` | main.js:70 | the pre-order visiting sequence of a subtree holds one entry per node |
| `Hierarchy.PathId` | main.js:71 | the id the callback writes for a visited node: its name alone when it has no parent, and otherwise something strictly longer than its name (the parent's id and a dot come first); `AssignIds` proves it is what the pass writes |
| `Hierarchy.AssignIds` | main.js:70-72 | writing ids in visiting order gives each node its path id: a node without a parent gets its name, and any other node gets its parent's already-written id, a dot and its name |
| `Hierarchy.FlattenParentsFirst` | main.js:70 | in the pre-order visiting sequence every parent comes before its children, which is what lets `eachBefore` read the parent's id |
| `Hierarchy.PathIdsOfTree` | main.js:70-72 | where a subtree's entries sit in a run of slots, the ids written there are, slot by slot, the subtree's `PreorderIds`, and so (by `PreorderIdsAreLabelIds`) the labelling's ids in pre-order |
| `Hierarchy.FlattenOccupies` | main.js:70 | a subtree's pre-order entries, wherever they sit in the visiting order, give each node its name and its parent's slot |
| `Hierarchy.PathIdsOfForest` | main.js:70-72 | the ids written for a run of siblings and their subtrees are the siblings' pre-order ids |
| `Hierarchy.AssignTreeIds` | main.js:69-72 | the whole `eachBefore` pass over a tree yields the tree's pre-order ids, which are the ids of the labelling `Label` read in pre-order |
| `Hierarchy.PreorderNodes` | main.js:70 | pre-order holds one entry per node and starts at the root |
| `Hierarchy.Leaves` | main.js:166 | `root.leaves()`: there is at least one leaf, and no listed node has children; `LeavesArePreorderChildless` ties it to d3's walk |
| `Hierarchy.LeavesArePreorderChildless` | main.js:166 | `root.leaves()` lists exactly the childless nodes of a pre-order walk, in walk order; there is at least one, and none has children |
| `Hierarchy.ChildlessAppend` | main.js:166 | filtering childless nodes distributes over concatenation |
| `Categories.IndexOf` | main.js:170 | `indexOf` returns -1 exactly when the element is absent; otherwise it returns an index holding the element, with no earlier occurrence |
| `Categories.KeepFirsts` | main.js:169-171 | the filter applied to the first `n` elements keeps at most `n` of them, each taken from that prefix; `KeepFirstsFacts` states the rest |
| `Categories.Dedup` | main.js:169-171 | the `indexOf(x) === index` filter keeps at most as many elements as it is given, each from its input; `DedupFacts` and `DedupIsUnique` state the rest |
| `Categories.DedupFacts` | main.js:169-171 | the filter's result is no longer than its input, has no repeated element, holds exactly the input's elements, and lists them in order of first occurrence |
| `Categories.KeepFirstsFacts` | main.js:169-171 | the same facts for the filter applied to a prefix |
| `Categories.DedupIsUnique` | main.js:169-171 | the `indexOf` filter equals the left-to-right walk that appends each element not seen before |
| `Categories.DedupIdempotent` | main.js:169-171 | deduplicating the result again changes nothing |
| `Categories.DistinctKeptWhole` | main.js:169-171 | a list without repetitions passes the filter unchanged |
| `Categories.LeafCategories` | main.js:166-168 | definition: the leaves' categories, one per leaf in leaf order; what the legend draws from it is proved in `LegendCategoriesFacts` |
| `Categories.LegendCategories` | main.js:166-171 | the legend's `categories` array has no more entries than there are leaves; `LegendCategoriesFacts` states the rest |
| `Categories.LegendCategoriesFacts` | main.js:166-171 | every leaf's category is listed; every listed category is some leaf's; nothing is listed twice; the order is first occurrence among the leaves; the list has between one entry and as many entries as there are leaves |
| `Categories.LegendListsEveryLeaf` | main.js:166-171 | every leaf's category appears in the legend list |
| `Categories.LegendListsOnlyLeaves` | main.js:166-171 | every entry of the legend list is the category of some leaf |
| `Categories.LegendCategoriesStable` | main.js:166-171 | recomputing the legend list from itself gives the same list |
| `SiblingOrder.Before` | main.js:75 | definition of the order the comparator is meant to produce: higher first, then greater value first; `Compare`'s contract ties the comparator's sign to it |
| `SiblingOrder.Compare` | main.js:74-76 | the result is negative exactly when `a` is higher, or as high with a greater value; positive exactly in the mirrored case; zero exactly when both heights and both values are equal |
| `SiblingOrder.CompareIsConsistent` | main.js:75 | swapping the arguments flips the sign, and "not after" and "tied" are both transitive |
| `SiblingOrder.SortedIffDescending` | main.js:74-76 | siblings have no neighbouring pair out of order under the comparator exactly when heights are non-increasing and, within equal heights, values are non-increasing |
| `SiblingOrder.SortedPairwise` | main.js:74-76 | in a sequence with no neighbouring pair out of order, every earlier element compares at most 0 against every later one |
| `TileLabels.NextCut` | main.js:142 | the first position at or after `q` where the lookahead matches, or the end of the name, with no match in between |
| `TileLabels.Split` | main.js:142 | the split always yields at least one fragment |
| `TileLabels.SplitStep` | main.js:142 | cutting at the first cut point and splitting the rest keeps the split's properties |
| `TileLabels.SplitIsCamelSplit` | main.js:142 | the fragments rebuild the name; none is empty except the single fragment of the empty name; every fragment after the first starts with an A-Z letter followed by a non-A-Z character; no fragment contains a cut point |
| `TileLabels.CamelSplitIsUnique` | main.js:142 | any splitting with those properties is the split, so they define it |
| `TileLabels.NoBoundaryOneFragment` | main.js:142 | a name with no cut point after its first character yields one fragment, itself |
| `TileLabels.SplitTitleExample` | main.js:142 | "Wii Sports" splits into "Wii " and "Sports" |
| `TileLabels.SplitCapitalsExample` | main.js:142 | "NBA 2K17" splits into "NB", "A 2", "K17" |
| `TileLabels.LabelLines` | main.js:141-149 | one tspan per fragment |
| `TileLabels.LineTexts` | main.js:150-152 | definition: the texts of the lines in order; `LabelLinesLayout` proves they are the fragments |
| `TileLabels.LabelLinesLayout` | main.js:141-152 | there is one line per fragment, and line `i` is at (4, 13 + 10 * i) and carries fragment `i`; so the first line is at (4, 13), each line is 10 below the previous one, the texts are the fragments in order, and read together they give back the name |
| `Legend.ElemsPerRow` | main.js:154-163 | `floor(500 / 150)` is 3: three items fit in the 500-wide legend and a fourth does not |
| `Legend.ItemPosition` | main.js:180-188 | an item's offset is never negative, and an item's 150-wide column fits inside the 500-wide legend; `ItemPositionClosedForm` gives the exact position |
| `Legend.ItemPositionClosedForm` | main.js:180-188 | item `i` is at ((i mod 3) * 150, floor(i / 3) * 25), so x is 0, 150 or 300 and y is a non-negative multiple of 25 |
| `Legend.ItemPositionInjective` | main.js:180-188 | distinct items never share a position |
| `Legend.ItemPositionNext` | main.js:180-188 | the next item is 150 to the right in the same row, or at x = 0 one row (25) lower when it starts a new row |
| `Legend.LabelPosition` | main.js:202-203 | the label sits right of the 15 by 15 swatch, with its baseline inside the swatch's height |

## Left out

- Fetching the dataset (`Promise.all`, `d3.json`), the `.catch` that logs the error, `URLSearchParams` parsing, the `innerHTML` writes and `console.log`: all are I/O or DOM. The parsed parameter is an input.
- Keys inherited by every JavaScript object (`toString`, `constructor`, `__proto__`, ...): such a `data` value reads a prototype member and not `undefined`. The model treats every key outside the table as unknown.
- `d3.hierarchy`, `.sum` and `d3.treemap`: value summation, height computation, the sorting algorithm and the squarified tiling are d3 code and are not part of this model. The comparator is modelled on given heights and values, and `Leaves` works on an already sorted tree. No value-conservation or tiling property is stated.
- A children array that is present but empty: d3 treats that node as a leaf. The datatype does not tell an absent children key from an empty one, and treats both as a leaf.
- `d3.scaleOrdinal`, `d3.schemeCategory10` and `d3.interpolateRgb`: these colour calls are foreign library code, and the fading is floating-point blending. This includes the colour domain taken from the top-level names at main.js:53.
- SVG creation, attribute strings, and the tooltip `mousemove`/`mouseout` handlers: all are UI. The tile transform at main.js:89 joins `d.x0` and `margin.left` as strings and not as numbers. Modelling it would require JavaScript's number-to-string conversion, so it is not modelled.
- The legend group's fixed `translate(60, 10)` and the swatch rectangles: these are constant attribute strings.
- Floating-point sales values and tile sizes: values and heights are integers, so no NaN or rounding behaviour is modelled.
- `Hierarchy.AssignIds`, `Hierarchy.AssignTreeIds`: the ids are written into an array indexed by visiting order. They are not written into the JSON node objects (`d.data.id`). Aliasing between the JSON objects is not modelled.

## Findings

| source | as written | input that shows it | evidently intended | confidence | as-written member | corrected member |
|---|---|---|---|---|---|---|
| main.js:28-30 | a non-empty `data` value that is not a table key selects `undefined`; line 30 then reads `TITLE` of `undefined` and the script stops before drawing anything | `?data=movie` | fall back to the `DEFAULT_DATASET` entry, as that constant's name suggests | medium; not executed | `Datasets.UnknownKeyHasNoHeading` | `Datasets.SelectOrDefault` |
