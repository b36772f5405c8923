# Food web maker: a Dafny model of the creature editor and the graph builder

This project models the two cores of the food web maker.

- The **creature list editor** (`app/page.tsx`) keeps a list of creature records
  `{name, eats, color}`, three form fields and an edit cursor. Its handlers add,
  start editing, save an edit, cancel an edit and delete by index. It is modelled as the
  class `Editor.FoodWebApp`. That class has one field per piece of React state. The
  list updates the handlers use are pure functions: append, `ReplaceAt` for the `map` and
  `RemoveAt` for the `filter`.
- The **graph builder** (`components/GraphVisualization.tsx`) makes one pass over the
  list. It adds a node for each creature name and each non-empty food name, but only when
  no node with that id exists yet. So the first writer wins, in list order. It also adds one
  edge `eats → name` for every creature that has a food. It is modelled as the method
  `GraphBuilder.BuildGraph`, a loop over a map and a growing sequence. That method is
  proved equal to the pure fold `GraphBuilder.Build`, and the lemmas state the properties
  of the fold.

The module `Text` models `String.prototype.trim`: it strips ECMAScript whitespace and line
terminators from both ends. `Creatures` holds the shared record type and `Option`, which
models `number | null`.

The model follows the code:
- `eats` is one string. It is trimmed and never split on commas.
- Adding a creature does not check that its name is unique.
- The builder has no text-colour rule.
- There are no layout modes, no import or export, and no "reorganize" signal.

Two behaviours of the code as written are stated as lemmas:
- Deleting a record while another one is being edited does not move the edit cursor.
  Saving then overwrites whichever record has moved into the cursor's position
  (`DeleteBeforeEditRetargets`).
- If the cursor now points past the end of the list, saving changes no record
  (`DeleteThenSaveLast`).

## Model

| member | source | states |
|---|---|---|
| Text.IsWhitespace | app/page.tsx:25 | the set of characters trim strips: ECMAScript whitespace and line terminators; every one of them lies in the Basic Multilingual Plane |
| Text.SkipLeading | app/page.tsx:25 | the returned index `r` ends the whitespace run that starts at `i`: every character in `[i, r)` is whitespace, and `r` is the end of the string or a non-whitespace character |
| Text.SkipTrailing | app/page.tsx:25 | the returned index `r` starts the whitespace run that ends just before `j`, going no lower than `lo`: every character in `[r, j)` is whitespace, and `r` is `lo` or follows a non-whitespace character |
| Text.Trim | app/page.tsx:28-29 | the trimmed string is no longer than the input and has no whitespace at either end |
| Text.TrimIsInfix | app/page.tsx:28-29 | the trimmed string is a contiguous middle part of the input, and only whitespace was cut on each side |
| Text.TrimFixedPoint | app/page.tsx:49-50 | a string trims to itself exactly when it has no whitespace at either end |
| Text.TrimIdempotent | app/page.tsx:49-50 | trimming twice gives the same string as trimming once |
| Text.TrimBlank | app/page.tsx:25 | a string counts as blank for the name check (trims to empty) exactly when every character is whitespace |
| Editor.WellFormedIsTrimmed | app/page.tsx:25-28 | a well-formed record has a non-empty name, and its name and food each equal their own trim (both directions) |
| Editor.Record | app/page.tsx:27-31 | when the form's name is not blank, the record built from the form is well formed: its name is non-empty, and its name and food have no whitespace at either end |
| Editor.RecordOfWellFormed | app/page.tsx:37-43 | rebuilding a well-formed record from its own fields gives back the same record |
| Editor.ReplaceAt | app/page.tsx:48-52 | the index-wise `map` is the sequence with that one index updated when the index is in range, and the unchanged list otherwise |
| Editor.KeepUnlessAt | app/page.tsx:140 | the index-wise `filter`, started at offset `from`, removes exactly the element at position `index` when that position lies in its range, and keeps everything otherwise |
| Editor.RemoveAt | app/page.tsx:140 | delete by index gives the list before the index joined to the list after it; an out-of-range index removes nothing |
| Editor.AppendKeepsWellFormed | app/page.tsx:27-31 | appending a well-formed record to a list of well-formed records keeps every record well formed |
| Editor.RemoveAtShifts | app/page.tsx:140 | deleting an in-range index shortens the list by one, keeps the earlier records and moves each later record down by one position |
| Editor.RemoveAtKeepsWellFormed | app/page.tsx:140 | deleting keeps every remaining record well formed |
| Editor.EditRoundTrip | app/page.tsx:37-58 | loading a stored record into the form and saving it unchanged leaves the list equal to what it was |
| Editor.DeleteBeforeEditRetargets | app/page.tsx:45-58 | after a delete before the edited index, saving overwrites the record that moved into that index; the record being edited is kept unchanged one position earlier |
| Editor.DeleteThenSaveLast | app/page.tsx:48-52 | after any delete while the last record is being edited, saving replaces nothing |
| Editor.FoodWebApp.constructor | app/page.tsx:18-22 | starts with an empty list, no cursor, an empty name and an empty food, and the default colour `#f0f0f0` |
| Editor.FoodWebApp.SetCreatureName | app/page.tsx:76 | sets the name field and nothing else |
| Editor.FoodWebApp.SetEats | app/page.tsx:86 | sets the food field and nothing else |
| Editor.FoodWebApp.SetColor | app/page.tsx:95 | sets the colour field and nothing else |
| Editor.FoodWebApp.AddCreature | app/page.tsx:24-35 | a blank name changes nothing. Otherwise exactly one record, `{trim(name), trim(eats), color}`, is appended, even when its name is already in the list. The earlier records and the cursor stay unchanged, and the form is reset. The new graph is one more builder step on the old graph. Well-formedness is preserved |
| Editor.FoodWebApp.StartEditing | app/page.tsx:37-43 | copies the record at that index into the form and sets the cursor to that index; the list is unchanged |
| Editor.FoodWebApp.EditCreature | app/page.tsx:45-58 | a blank name or an unset cursor changes nothing. Otherwise the record at the cursor is replaced by the trimmed form record, the length and every other index stay the same, the form is reset and the cursor is cleared. Well-formedness is preserved |
| Editor.FoodWebApp.CancelEdit | app/page.tsx:103-108 | clears the cursor and resets the form; the list is unchanged |
| Editor.FoodWebApp.DeleteCreature | app/page.tsx:140 | the list becomes `RemoveAt(list, index)`; the form and the cursor are unchanged; well-formedness is preserved |
| Editor.FoodWebApp.Submit | app/page.tsx:99-101 | the main button saves the edit when a cursor is set and adds a record otherwise, with the effects of those two handlers |
| Editor.DuplicateNamesAccepted | app/page.tsx:25-31 | adding the name `Fox` twice stores two records, both named `Fox` |
| GraphBuilder.BuildGraph | components/GraphVisualization.tsx:24-51 | the loop's nodes and edges equal the fold `Build` over the list. The node ids are exactly the creature names together with the non-empty foods. There is one edge per creature that has a food, and every edge endpoint is a node |
| GraphBuilder.AddIfAbsent | components/GraphVisualization.tsx:30-37 | the guarded `nodes.add`: the key set gains `id`, every existing node is kept, and a new node is labelled `id` and takes the given colour only when `id` was absent |
| GraphBuilder.Step | components/GraphVisualization.tsx:29-50 | one creature's step: the new keys are its name and its non-empty food, existing nodes are unchanged, and the edge `eats → name` is appended exactly when the food is non-empty |
| GraphBuilder.BuildFrom | components/GraphVisualization.tsx:28-51 | the pass over the list in order only grows the tables: no key is lost and the earlier edges stay as a prefix |
| GraphBuilder.Feeders | components/GraphVisualization.tsx:39 | the creatures that have a food, in list order; there are no more of them than creatures, and each has a non-empty food |
| GraphBuilder.FeedersMembership | components/GraphVisualization.tsx:39 | a record is among the feeders exactly when it is in the list and has a non-empty food |
| GraphBuilder.NodeIdsMembership | components/GraphVisualization.tsx:28-47 | an id is in the reference id set exactly when some creature has it as its name or as its non-empty food |
| GraphBuilder.BuildAppend | components/GraphVisualization.tsx:28-51 | rebuilding after one creature is appended equals one more step of the pass on the old graph |
| GraphBuilder.Build | components/GraphVisualization.tsx:24-51 | the pass starts from empty node and edge sets. The node table's key set is exactly the set of creature names together with the non-empty foods. There is one edge per creature that has a food |
| GraphBuilder.NodeIdsBound | components/GraphVisualization.tsx:28-47 | there are at most two distinct ids per creature |
| GraphBuilder.NodeCount | components/GraphVisualization.tsx:28-47 | the node count equals the number of distinct ids and is at most twice the number of creatures |
| GraphBuilder.FirstWriterWins | components/GraphVisualization.tsx:30-46 | an id first mentioned at creature `k` takes creature `k`'s colour if it is that creature's name, and `#f0f0f0` if it is only its food; its id and label are that id |
| GraphBuilder.LaterNeverChange | components/GraphVisualization.tsx:30-46 | a node that exists in the graph of a prefix of the list is the same node in the graph of the whole list |
| GraphBuilder.LabelsAreIds | components/GraphVisualization.tsx:32-33 | every node's id and label both equal the key it is stored under |
| GraphBuilder.EdgesFollowFeeders | components/GraphVisualization.tsx:39-50 | the edge count equals the number of creatures that have a food, counting duplicates and self-loops; the k-th edge goes from the food to the name of the k-th such creature |
| GraphBuilder.EndpointsAreNodes | components/GraphVisualization.tsx:30-49 | both endpoints of every edge are node ids |
| GraphBuilder.NoFoodNoEdge | components/GraphVisualization.tsx:39 | a creature with an empty food adds no edge and no node other than its own |
| GraphBuilder.SelfFeeding | components/GraphVisualization.tsx:40-49 | a creature that eats itself adds a self-edge and no node other than its own |
| GraphBuilder.WolfScenario | components/GraphVisualization.tsx:28-51 | the list `[Wolf eats Wolf, #ffffff]` gives one node, coloured `#ffffff`, and the self-edge `Wolf → Wolf` |
| GraphBuilder.FoxRabbitScenario | components/GraphVisualization.tsx:28-51 | Fox eats Rabbit, then Rabbit eats Grass: three nodes and the edges `Rabbit → Fox`, `Grass → Rabbit`. Rabbit keeps the food colour because it was first met as a food |

## Left out

- The JSX markup, the UI components and the list rendering (app/page.tsx:60-167): these are presentation only.
- React mechanics: `useState` batching, `useEffect` and `useRef`. Every handler reads the state as it was before the handler ran, which is what `old(...)` expresses. The effect is modelled as the graph being a function of the list (`FoodWebApp.WebGraph`), rebuilt on every change.
- vis-network itself: the `options` object (components/GraphVisualization.tsx:58-74), `new Network` and `setData` (l.76-81). These are calls into a foreign rendering library.
- The edge ids that `DataSet` generates, the constant `shape: 'box'` and `arrows: 'to'`: these are constants, or ids the code never reads.
- `DataSet` is a map from id to node. `nodes.get(id)` being falsy is modelled as the id being absent. The `add` of an existing id, which throws in vis-network, never happens because every `add` is guarded.
- Strings: a JavaScript string is a sequence of UTF-16 code units, while a Dafny `string` is a sequence of Unicode scalar values, so lone surrogates cannot be represented. No behaviour of the core depends on this: every character trim strips lies in the Basic Multilingual Plane (`Text.IsWhitespace`), and equality agrees on well-formed text.
- Editor.FoodWebApp.StartEditing: requires an in-range index. The code reads `creatures[index].name`, which throws for any other index, and the list only ever passes the index of a rendered row.
