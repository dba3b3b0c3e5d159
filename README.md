# pro-modoro client state, modelled in Dafny

This project models the client-side logic of the pro-modoro Pomodoro timer.
It covers two parts.

- **The to-do store** (`TodoStore` in `todo_store.dfy`). This is an ordered list of to-do items: `id`, `createdAt`, `completed`, `text`. It has three operations: `addTodo` appends a new open item, `deleteTodo` filters out the items with an id, and `completeTodo` flips the `completed` flag of the first item with an id. The reactive store becomes the class `Store`. Its field `todos` is the current list. Its field `saved` is the snapshot that the change subscriber writes under the `"todos"` key of local storage after every change.
- **The route helpers** (`Utility` in `median.dfy` and `Preferences` in `preferences.dfy`):
  - `median`: sort the array in place, then take the middle element, or the mean of the two middle elements.
  - The static catalogue of preferences and sound effects.
  - The nested loop that builds `defaultPreferenceValues`.
  - The rule in `playSoundEffect` that picks the source to play, or stops when there is none.

`wrappers.dfy` holds the `Option` type shared by the modules.

Design choices:
- `uuid.v4()` and `Date.now()` are parameters of `Store.AddTodo`. `AddTodo` has no precondition, because the source demands none. Freshness of the id is the hypothesis under which uniqueness of ids is preserved.
- `completeTodo`'s search loop with `break` is the method `FindFirst`. The in-place flag flip is a single-element update of `todos`.
- The library sort that `median` calls is specified, not re-implemented. `SortInPlace` overwrites the array with `SortSeq` of its old contents. `SortSeq` is an insertion sort on sequences, proved to give the unique ascending permutation.
- Numbers in `median` are integers, and the result is a `real`. So the mean of the two middle elements is exact.
- Every number in the preference catalogue is an integer. `max: Infinity` is the `Bound` value `Infinity`.

`deleteTodo` filters, so it removes every item that carries the id, not only the first. `Without` models the filter, and `WithoutRemovesOne` shows that exactly one item goes when ids are unique.

## Model

| member | source | states |
|---|---|---|
| `TodoStore.AppendedShape` | src/lib/Todo/TodoStore.ts:17-21 | adding makes the list one longer, keeps the old list as prefix, and ends with an item with the given id, text and time and `completed == false`; no condition on the text, so the empty text is accepted |
| `TodoStore.AppendedIds` | src/lib/Todo/TodoStore.ts:19 | the ids after adding are the old ids plus the new one |
| `TodoStore.AppendedKeepsUnique` | src/lib/Todo/TodoStore.ts:19 | adding with an id not already present keeps ids unique |
| `TodoStore.WithoutMembers` | src/lib/Todo/TodoStore.ts:25 | an item is kept by delete exactly when it was in the list and its id differs |
| `TodoStore.WithoutConcat` | src/lib/Todo/TodoStore.ts:25 | delete distributes over concatenation, so the kept items keep their original order |
| `TodoStore.WithoutAbsent` | src/lib/Todo/TodoStore.ts:25 | deleting an id that is not present leaves the list identical |
| `TodoStore.WithoutIds` | src/lib/Todo/TodoStore.ts:24-26 | after delete the id is gone and every other id remains |
| `TodoStore.WithoutKeepsUnique` | src/lib/Todo/TodoStore.ts:25 | delete preserves uniqueness of ids |
| `TodoStore.WithoutRemovesOne` | src/lib/Todo/TodoStore.ts:24-26 | with unique ids, deleting the id at index k yields the list with exactly that item cut out |
| `TodoStore.Toggled` | src/lib/Todo/TodoStore.ts:28-41 | complete keeps the length and every item's id, text and creation time |
| `TodoStore.ToggledAt` | src/lib/Todo/TodoStore.ts:30-39 | when k is the first index with the id, complete flips the flag of item k and changes nothing else |
| `TodoStore.ToggledAbsent` | src/lib/Todo/TodoStore.ts:30-40 | complete on an absent id leaves the list unchanged |
| `TodoStore.ToggledTwice` | src/lib/Todo/TodoStore.ts:37-39 | completing the same id twice restores the original list |
| `TodoStore.ToggledKeepsUnique` | src/lib/Todo/TodoStore.ts:38 | complete preserves uniqueness of ids |
| `TodoStore.FindFirst` | src/lib/Todo/TodoStore.ts:30-36 | the search returns -1 exactly when no item has the id, else the smallest index whose item has it |
| `TodoStore.Store.constructor` | src/lib/Todo/TodoStore.ts:5-15 | the store starts from the stored snapshot if there is one, else empty, and that start value is what storage holds |
| `TodoStore.Store.AddTodo` | src/lib/Todo/TodoStore.ts:17-22 | the new list is the old one plus the new open item; ids stay unique when the new id is fresh; storage holds the new list |
| `TodoStore.Store.DeleteTodo` | src/lib/Todo/TodoStore.ts:24-26 | the new list is the filtered old one; the id is gone; an absent id changes nothing; uniqueness is kept; storage holds the new list |
| `TodoStore.Store.CompleteTodo` | src/lib/Todo/TodoStore.ts:28-42 | the new list is the old one with the first match flipped; an absent id changes nothing; uniqueness is kept; storage holds the new list |
| `Utility.SortSeqSorted` | src/routes/index.ts:212 | the specification of the sort yields an ascending permutation of its input |
| `Utility.SortedUnique` | src/routes/index.ts:212 | two ascending sequences with the same elements are equal, so the sorted result is determined by the input's elements |
| `Utility.SortInPlace` | src/routes/index.ts:212 | after sorting, the array is ascending and a permutation of its old contents |
| `Utility.Median` | src/routes/index.ts:209-211 | the median of no numbers is 0 |
| `Utility.MedianInPlace` | src/routes/index.ts:208-219 | returns 0 for an empty array; otherwise leaves the array sorted and a permutation of its old contents, and returns the sorted element at n/2 for odd n or the mean of those at n/2-1 and n/2 for even n |
| `Utility.MedianBounds` | src/routes/index.ts:212-218 | the median of a non-empty input lies between two of its elements, hence between its minimum and maximum |
| `Utility.MedianOrderIndependent` | src/routes/index.ts:212-218 | inputs with the same elements in any order have the same median |
| `Utility.MedianOfSorted` | src/routes/index.ts:213-217 | on ascending input the median is the middle element or the mean of the two middle elements |
| `Utility.MedianOfThreeElements` | src/routes/index.ts:212-216 | any arrangement of three numbers x <= y <= z has median y |
| `Utility.MedianOfOne` | src/routes/index.ts:213-216 | the median of [5] is 5 |
| `Utility.MedianOfFour` | src/routes/index.ts:213-217 | the median of [1, 2, 3, 4] is 2.5 |
| `Utility.MedianOfThree` | src/routes/index.ts:212-216 | the median of [3, 1, 2] is 2 |
| `Preferences.CatalogueIsValid` | src/routes/index.ts:86-180 | in every section, each default has the type its tag names, each sound default is a key of the sound-effect table that the preference offers, and each number lies within its min and max |
| `Preferences.TimerSectionIsValid` | src/routes/index.ts:87-118 | the three timer durations default within [1, Infinity] |
| `Preferences.PomodoroSectionIsValid` | src/routes/index.ts:119-150 | the three switches default to booleans and the cycle count lies within [1, Infinity] |
| `Preferences.NotificationsSectionIsValid` | src/routes/index.ts:151-179 | both sound defaults are keys of the sound-effect table and the volume default 50 lies within [1, 100] |
| `Preferences.FlattenMembers` | src/routes/index.ts:183-184 | walking sections then their preferences visits every preference of every section, and visits nothing else |
| `Preferences.CollectKeys` | src/routes/index.ts:182-187 | the table of defaults has a key for exactly the refs that occur |
| `Preferences.CollectLastWins` | src/routes/index.ts:185 | a ref maps to the value of its last occurrence |
| `Preferences.DefaultPreferenceValues` | src/routes/index.ts:182-187 | the nested loops build the table of writing each value under its ref in order, with a key for exactly the refs of all sections |
| `Preferences.CatalogueDefaultsOfTimer` | src/routes/index.ts:89-117 | after the timer section the table maps the three durations to 25, 5 and 15 |
| `Preferences.CatalogueDefaultsOfPomodoro` | src/routes/index.ts:121-149 | after the second section the table also holds the three switches as true and the cycle count as 4 |
| `Preferences.CatalogueDefaults` | src/routes/index.ts:182-187 | the catalogue's table of defaults is exactly the ten refs with their declared values |
| `Preferences.ResolveSource` | src/routes/index.ts:195-199 | a non-empty uri is played as is; any source played is non-empty and is either the uri or an entry of the sound table |
| `Preferences.ResolveByName` | src/routes/index.ts:195-196 | with no uri or an empty one, a name plays exactly when it has a non-empty entry, and it plays that entry |
| `Preferences.CatalogueResolution` | src/routes/index.ts:195-199 | "Bez skaņas", which maps to the empty source, and a missing name both stop playback; every other catalogued sound, including both sound defaults, plays its own source |

## Left out

- Loading and saving through local storage, with `JSON.parse` and `JSON.stringify`, is left out. This is browser I/O through a foreign serialiser. The constructor takes the already parsed snapshot as an `Option`. A parse failure at start-up is not modelled. After every change, `saved` equals the list.
- The `writable` store's subscribe and notify machinery is left out. Only the saving subscriber's effect is kept, as the `saved` field.
- The `browser` environment checks are left out. The model always behaves as in a browser.
- `uuid.v4()` and `Date.now()` are not modelled. They become the parameters `id` and `now` of `Store.AddTodo`.
- `Store.CompleteTodo` does not model aliasing. The source flips the flag on the very item object and array that subscribers already hold. The model replaces one element of the `todos` sequence, so other holders of the old list are not changed.
- `createdAt` is an unbounded integer rather than a JavaScript number.
- `Utility.MedianInPlace`: numbers are integers and the result is an exact `real`. Floating-point rounding, `NaN` and infinities are not modelled.
- The JavaScript engine's sort algorithm is not modelled. Only its outcome is kept: an ascending permutation of the array. For integers, the outcome does not depend on the algorithm.
- The `HTMLAudioElement` handling in `playSoundEffect` is left out. This covers `new Audio()`, `pause`, `play` and the `src` and `currentTime` writes. It is audio I/O; only the choice of source is modelled.
- `setAudioPlayerVolume` is left out. It is a floating-point division written into the audio element.
- `Preferences.ResolveSource` looks names up in the table only. JavaScript also finds properties inherited from `Object.prototype`, such as `"toString"`; that lookup is not modelled. An absent name is looked up under the key `"undefined"`, as JavaScript's property-key conversion does.
- The sound assets are kept as opaque strings. Each is named after its bundled file.
- The `Statistics`, `PomodoroCycle` and `pomodoroSegments` declarations have no behaviour and are not modelled.
- `console.debug` logging is not modelled.
- `Preferences.CatalogueIsValid` checks types, sound options and `min`/`max` bounds. It does not check `step` or the optional `range` flag. An absent `range` is modelled as `false`.
