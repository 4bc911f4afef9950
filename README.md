# NestableCollection in Dafny

A model of TypiCMS's `NestableCollection`, the Eloquent collection that turns
a flat, ordered list of records pointing at each other through `parent_id`
into a forest, and turns that forest back into an indented or qualified
`id => label` listing.

The model is split into six modules:

- `records.dfy` (`Records`):
  - a record (`Item`: id, parent id, other attributes);
  - PHP truthiness of strings;
  - `getDictionary()`, as the id-keyed map (`Dictionary`) and as the ordered array PHP builds (`DictionaryList`, the last record wins for each id);
  - order-preserving filtering;
  - acyclicity of parent ids.
- `ancestry.dfy` (`Ancestry`): `anAncestorIsMissing()` and what it decides about the ancestor chain.
- `nesting.dfy` (`Nesting`):
  - every stage of `nest()` as a function on values: the dictionary, the empty children containers, pruning, the forward pass and the removal of moved records;
  - the loops of `nest()` as methods proved against those functions;
  - the properties `nest()` promises.
- `forest.dfy` (`Forest`):
  - the forest read through the children containers;
  - its pre-order traversal;
  - the listing `listsFlattened()` writes and the id-keyed array it writes into;
  - the parent links `setParents()` records.
- `shape.dfy` (`Shape`): the forest `nest()` leaves on a freshly built collection.
  - Its traversal meets every kept record exactly once.
  - So flattening it lists each of those records once, and `setParents()` links each nested record to its own parent id.
- `collection.dfy` (`Collection`): the `NestableCollection` class.
  - Its fields: records, children containers, parent links, total and configuration.
  - Its methods: constructor, fluent setters, `nest()`, the flatteners, `setParents()`.
  - A class invariant `Valid()`: the total is the constructed size, and the records and containers only ever hold records of the constructed collection.

Representation choices:

- A `parent_id` of 0 stands for both null and 0, which the code treats alike as "no parent".
- Children containers live in a map keyed by (record id, attribute name), so `childrenName()` decides which container is read and filled.
- Records are held by value and matched by id. This gives the sharing PHP gets from objects held by reference: there is one record per id in the dictionary `nest()` works on.
- The recursive walks (`listsFlattened()`, `setParentsRecursive()`) terminate when the containers hold no cycle (`Nestable`).
  - `nest()` ensures this whenever the constructed records' parent ids are acyclic.
  - The walks require it.

Duplicate ids and cycles raise no error in the code, and the model follows the code:

- With duplicate ids the dictionary keeps, for each id, the position of the first record with that id and the value of the last one.
- A parent-id cycle makes `anAncestorIsMissing()` recurse forever, so `nest()` with cleaning on requires acyclic parent ids.
- With cleaning off, `nest()` completes on a cycle; the records in the cycle are then pushed into each other's containers.

## Model

| member | source | states |
|---|---|---|
| Records.Column | src/NestableCollection.php:112-114 | Definition: a record's attribute read by name, the empty string when the record has none. |
| Records.Truthy | src/NestableCollection.php:111 | Definition: PHP truthiness of a string, neither empty nor `"0"`. |
| Records.Dictionary | src/NestableCollection.php:58 | The id-keyed map has exactly the input's ids as keys. Every key maps to an input record with that id. With distinct ids, every record is stored under its own id. |
| Records.Assign | src/NestableCollection.php:58 | Definition: `$array[$x->id] = $x`, which overwrites the entry with that id where it stands, or else appends. Its properties are stated by `AssignKeyed`. |
| Records.DictionaryList | src/NestableCollection.php:58 | Definition: the records assigned one after another into an empty id-keyed array. Its properties are stated by the next three rows. |
| Records.DictionaryListKeyed | src/NestableCollection.php:58 | The ordered dictionary has one entry per input id, and no other. Each entry is the record the id-keyed map holds for that id. |
| Records.DictionaryListOfUnique | src/NestableCollection.php:58 | Keying a list whose ids are already distinct leaves it unchanged. |
| Records.DictionaryListKeys | src/NestableCollection.php:58 | Keying the ordered dictionary again gives the same id-keyed map. |
| Records.AssignKeyed | src/NestableCollection.php:58 | One assignment into the id-keyed array keeps ids distinct and holds the new record. It keeps every entry with another id and appends when the id is new. |
| Ancestry.AnAncestorIsMissing | src/NestableCollection.php:174-186 | Definition: false without a parent, true when the parent id is absent, otherwise the answer for the parent. What it decides is stated by `MissingAncestorIff`. |
| Ancestry.MissingAncestorIff | src/NestableCollection.php:174-186 | On acyclic input, the check is true exactly when the ancestor chain reaches a parent id absent from the dictionary. |
| Ancestry.MissingAncestorInherited | src/NestableCollection.php:174-186 | If some ancestor of a record has a missing ancestor, so does the record. |
| Nesting.Equip | src/NestableCollection.php:63-67 | The loop yields the containers `Equipped` describes: each record gains an empty container unless it has one. |
| Nesting.EquippedKeepsExisting | src/NestableCollection.php:63-67 | Every record ends up with a container under the children name. A container already present keeps its contents. Every added container is empty, under the children name, and belongs to a record of the list. |
| Nesting.Reject | src/NestableCollection.php:69-78 | The loop keeps exactly the records, in order, that do not have both a truthy parent and a missing ancestor. |
| Nesting.Push | src/NestableCollection.php:80-86 | The forward pass yields the containers extended by the records each parent adopts. It also yields the ids of the moved records, in pass order. |
| Nesting.PushOne | src/NestableCollection.php:81-86 | One step of the forward pass extends both results from the first `i` records to the first `i + 1`. |
| Nesting.ExceptKeys | src/NestableCollection.php:89 | The loop keeps, in order, exactly the records whose id is not among the keys to delete. |
| Nesting.ExceptMovedIsTopLevel | src/NestableCollection.php:89 | Deleting the recorded keys leaves exactly the records the pass did not move, in their original order. |
| Nesting.PrunedSubtreeNeverSurfaces | src/NestableCollection.php:70-89 | With cleaning on, a record with a rejected ancestor is pruned as well. It appears neither at the top level nor in any container. |
| Nesting.CleanTopLevelAreRoots | src/NestableCollection.php:70-89 | With cleaning on, every record left at the top level has no parent. |
| Nesting.SurvivorPlacedOnce | src/NestableCollection.php:81-89 | Every record of the pass occurs exactly once in total, at the top level or in its parent's container. It is in no other container. |
| Nesting.NoCleaningKeepsEveryRecord | src/NestableCollection.php:160-165 | Without cleaning nothing is pruned. Every input record is placed exactly once, and an orphan stays at the top level. |
| Nesting.PlacementIff | src/NestableCollection.php:81-86 | A record has a truthy parent present in the collection exactly when it is in that parent's container and not at the top level. |
| Nesting.ChildrenInInputOrder | src/NestableCollection.php:81-86 | Two children of one parent keep their input order in its container, wherever the parent stands in the input. |
| Nesting.NestIdempotent | src/NestableCollection.php:50-92 | Nesting the top level again prunes nothing, moves nothing and returns the same top level. |
| Collection.NestRecords | src/NestableCollection.php:58-89 | The stages in order yield the top level and containers that the specification functions give. |
| Collection.NestableCollection.constructor | src/NestableCollection.php:31-36 | The records are the input and the total is its length. Cleaning is on, the indent is four spaces and the children name is `items`. |
| Collection.NestableCollection.ChildrenName | src/NestableCollection.php:38-43 | Sets the children name, returns the same object and keeps the class invariant. |
| Collection.NestableCollection.Nest | src/NestableCollection.php:50-92 | The new records are the top level of the pruned dictionary. The new containers are the equipped ones, grown by the forward pass. The invariant and the total are kept. The containers are acyclic when the constructed records' parent ids are. |
| Collection.NestableCollection.Chosen | src/NestableCollection.php:108 | Definition: the collection given, or the records themselves when none is given. |
| Collection.NestableCollection.Indent | src/NestableCollection.php:109 | Definition: the indent given when it is truthy, otherwise the configured one. |
| Collection.NestableCollection.ListsFlattened | src/NestableCollection.php:106-124 | The result is the given array with the listing of the chosen collection written into it entry by entry. A missing collection falls back to the records, and a falsy indent to the configured one. |
| Collection.NestableCollection.FlattenItem | src/NestableCollection.php:110-120 | For one record, writes its label, then flattens its children one level deeper below that label. |
| Collection.NestableCollection.ListsFlattenedQualified | src/NestableCollection.php:136-139 | Equals the listing with `true` as the parent string. |
| Forest.Listing | src/NestableCollection.php:106-124 | Definition: for each record in order, its entry, then the listing of its container one level deeper below its label. The next rows state what it holds. |
| Forest.ItemString | src/NestableCollection.php:111-115 | Definition: `$item_string`. A truthy parent string gives the column alone (for `true`) or the parent string, indent and column. Otherwise the indent is repeated once per level before the column. |
| Forest.Below | src/NestableCollection.php:119 | Definition: children receive their parent's label when the parent string was truthy, and null otherwise. |
| Forest.WalkCensus | src/NestableCollection.php:110-120 | The traversal meets each listed record once. Beyond those it meets exactly the contents of each met record's container, once per meeting. |
| Forest.PlainListingIsPreOrder | src/NestableCollection.php:106-124 | Without a parent string, the listing visits each record before its children and a whole subtree before the next sibling. Each label is the indent repeated once per depth, then the column. |
| Forest.FlattenedIsPreOrder | src/NestableCollection.php:106-124 | Flattening from an empty array gives exactly those pre-order labels, provided the forest names every id once. |
| Forest.Put | src/NestableCollection.php:117 | Definition: `$flattened[$id] = $label` on an insertion-ordered array. Its properties are stated by `PutKeys` and `PutInPlace`. |
| Forest.PutKeys | src/NestableCollection.php:117 | Writing `$flattened[$id]` keeps one entry per key. It gains exactly that key, which then holds the written label. |
| Forest.PutInPlace | src/NestableCollection.php:117 | An entry with the written key is overwritten at its position. Every other entry keeps its value and its position. A new key is appended at the end. |
| Forest.PutAllKeys | src/NestableCollection.php:117 | Writing a listing keeps one entry per key and gains exactly the listing's keys. |
| Forest.PutAllKeeps | src/NestableCollection.php:117 | Writing a listing leaves each entry whose key the listing does not name with its value and at its position. |
| Forest.PutAllLast | src/NestableCollection.php:117 | After writing a listing, each key it names holds the value of its last occurrence in the listing. |
| Forest.PutAllFresh | src/NestableCollection.php:116 | A listing with distinct ids, none already present, is appended unchanged. |
| Forest.QualifiedTruthy | src/NestableCollection.php:111-119 | A qualified label is truthy whenever the column of its top-level record is. |
| Forest.QualifiedListingIsPath | src/NestableCollection.php:111-119 | When the top-level columns are truthy, the qualified listing gives each record its path of columns from the top down, joined by the indent. |
| Forest.ConsistentNestable | src/NestableCollection.php:81-86 | Containers filled along the parent ids of an acyclic dictionary hold no cycle, under any children name. |
| Forest.WalkPlacesUnderParent | src/NestableCollection.php:220-228 | Every record the walk meets below the top lies in the container of the last record on its path. |
| Forest.LinkSetsNestedOnly | src/NestableCollection.php:220-228 | Links are set only for records met below the top, each to the last record on one of its paths. Other ids are untouched. |
| Forest.SetParentsLinksContainer | src/NestableCollection.php:214-228 | After `setParents()`, every nested record is linked to a record whose container holds it. Roots keep whatever link they had. |
| Collection.NestableCollection.SetParents | src/NestableCollection.php:214-218 | The parent links become the old links updated along the walk of the top level. |
| Collection.NestableCollection.SetParentsRecursive | src/NestableCollection.php:220-228 | The loop over siblings leaves the links updated along the walk of those siblings. |
| Collection.NestableCollection.SetParentOf | src/NestableCollection.php:222-226 | Links one record to its parent, if any, then links its subtree. |
| Shape.FreshKidsAreAdopted | src/NestableCollection.php:63-86 | After `nest()` on a fresh collection, each id's container holds exactly the records the forward pass moved under it. |
| Shape.ForestHoldsEachOnce | src/NestableCollection.php:81-89 | With distinct, acyclic ids, the traversal from the new top level meets every record of the pass exactly once and nothing else. |
| Shape.NestedForestHoldsEachOnce | src/NestableCollection.php:50-92 | `nest()` on a fresh collection of acyclic records leaves a cycle-free forest whose traversal meets every kept record exactly once. |
| Shape.NestThenFlatten | src/NestableCollection.php:106-124 | `listsFlattened()` after `nest()` on a fresh collection, from an empty array, gives one entry per kept record. The entries come in pre-order, each labelled with the indent once per depth and then its column. |
| Shape.NestThenSetParents | src/NestableCollection.php:214-228 | `setParents()` after `nest()` on a fresh collection links exactly the moved records, each to its own parent id. Every other id keeps the link it had. |
| Collection.NestableCollection.SetIndent | src/NestableCollection.php:148-153 | Sets the indent characters, returns the same object and keeps the class invariant. |
| Collection.NestableCollection.NoCleaning | src/NestableCollection.php:160-165 | Turns cleaning off, returns the same object and keeps the class invariant. |
| Collection.NestableCollection.Total | src/NestableCollection.php:193-196 | Returns the number of records the collection was constructed with, however many survive nesting. |
| Collection.NestableCollection.GetTotal | src/NestableCollection.php:203-206 | Returns the same count as `total()`. |

## Left out

- `src/NestableTrait.php` is not part of this model. It only makes Eloquent build this collection class.
- Laravel and Eloquent machinery is modelled by its effect, not by its code:
  - `getDictionary`, `each`, `reject`, `has`, `Arr::except`, `array_values`;
  - the service container behind `app()->make(...)`;
  - `setRelation`.
- The early return when no parent column is set (lines 52-55) is not modelled. The constructor always sets the column to `parent_id`, so the branch cannot run.
- The relation name `parent` is not modelled; the links are a map from child id to parent id.
- Ids are natural numbers. String-versus-integer id coercion is not modelled.
- An attribute under the children name that holds something other than a collection is read as a list of records.
- Records that already carry a parent relation at construction are not modelled; the links start empty.
- Collection.NestableCollection.constructor: the children containers start empty.
  - Records that arrive with their children attribute already filled are not modelled.
  - `nest()` itself keeps any container it finds (`Nesting.EquippedKeepsExisting`), but `Shape` states its results only for a collection nested from scratch.
- `anAncestorIsMissing()` is modelled as `nest()` calls it: on the id-keyed dictionary. Called directly on a collection not yet keyed by id, `has()` would look up list positions instead; that case is not modelled.
- Non-termination is excluded by the preconditions, not represented:
  - `nest()` with cleaning on requires acyclic parent ids.
  - The flatteners and `setParents()` require acyclic containers.
  - That precondition also excludes some runs that do finish in PHP. With cleaning off, records whose parent ids form a cycle all have a parent present, so none of them stays at the top level. The traversal from the top never enters the cycle and ends, but the containers still hold it, so `Nestable` fails.
- Collection.NestableCollection.ListsFlattened: the level is a natural number. A negative level, which `str_repeat` rejects, is not modelled.
- Collection.NestableCollection.ListsFlattened: the by-reference array is modelled as an argument plus the returned array. The caller sees the same final contents.
- Forest.QualifiedListingIsPath: states the path form only when every top-level column is truthy. A falsy top-level label makes its subtree fall back to level indentation; the listing itself models this, but the lemma does not describe it.
- Forest.FlattenedIsPreOrder: requires the listing to name each id once. `Shape.NestThenFlatten` discharges this for every forest `nest()` builds from scratch; for other containers, `PutAllKeys`, `PutAllKeeps` and `PutAllLast` describe the overwrites.
- Records.Column: a column is read from the record's other attributes.
  - Naming `id` or `parent_id` as the column does not read the id fields.
  - A missing attribute reads as the empty string. PHP reads null, so a qualified top-level record without the column is stored as null, not as an empty string.
