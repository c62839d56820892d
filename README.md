# MPOK Quiz navigator, modelled in Dafny

MPOK Quiz is a browser flashcard viewer. The user picks data files and the
columns to quiz on. The page then shows one cell at a time, and the user
moves between rows and columns with buttons, arrow keys or swipes. All the
logic is in `script.js`. This project models its navigator:

- the session variables `loadedData`, `rowMode`, `currentRow`, `currentCol`,
  `allRows` and `selectedColumns`, as the class `Navigator.Session`;
- the naive CSV split of `loadSelectedFiles` (module `Csv`);
- the Fisher–Yates `shuffleArray` on an array (module `Shuffle`);
- the ordered `loadedData` object and the flattening of `prepareQuizRows`
  (module `Store`);
- the checkbox fold that builds `selectedColumns`, and the `indexOf`-based
  column pick (module `Columns`);
- JavaScript's truncating `%` and the wrapping row and column moves
  (module `Wrap`);
- the key and swipe dispatch (module `Input`).

Randomness is passed in by the caller. `shuffleArray` gets one draw per pass,
with `0 <= draws[k] <= i` for that pass's `i`. The column pick gets an index
into the possible columns; it is only used when there are two or more. With
no possible columns JavaScript reads `possibleColumns[0]`, which is
`undefined`, and `indexOf` returns -1. The model does the same.

Some behaviour of the code is easy to misread; the model follows the code:
- Random mode shuffles `allRows` once. Later moves are ordinary wrapping
  moves; they do not draw a fresh random cell.
- Row moves wrap over the whole flattened `allRows`, so they cross from one
  file to the next.
- A file can end up with no selected columns. The code does not reject
  this: `currentCol` becomes -1. An unknown column name also gives -1.
- The starting column is drawn from the selected columns in both modes.
  It is not always the first selected column.

## Model

| member | source | states |
|---|---|---|
| `Csv.Split` | script.js:108 | a line gives one more field than it has separators, and no field contains the separator |
| `Csv.SplitJoin` | script.js:108 | joining the split fields with the separator gives back the line |
| `Csv.JoinSplit` | script.js:108 | splitting a join of separator-free fields gives back those fields |
| `Csv.Table` | script.js:108 | the text's lines, each split on commas; characterised by `Csv.ParseLines` and `Csv.ParseRoundTrip` |
| `Csv.ParseCsv` | script.js:108-109 | the headers are never empty, there is one row per newline, and every row has a field |
| `Csv.ParseLines` | script.js:108-109 | the headers are the first line and the rows are the other lines, in order; each has commas + 1 fields, and no field holds a comma or a newline |
| `Csv.ParseRoundTrip` | script.js:108-109 | writing the parsed headers and rows back out gives exactly the trimmed text |
| `Shuffle.Swap` | script.js:210 | the destructuring swap of two slots keeps the length; see `Shuffle.SwapAt` for which slots trade |
| `Shuffle.ShuffleSteps` | script.js:207-211 | the sequence after the first `k` passes keeps the length; see `Shuffle.StepsPermute` and `Shuffle.SlotSettled` |
| `Shuffle.Shuffled` | script.js:207-213 | the sequence after the whole loop; see `Shuffle.ShuffledPermutes` and `Shuffle.IdentityDraws` |
| `Shuffle.SwapAt` | script.js:210 | the two positions trade values and every other position keeps its value |
| `Shuffle.StepsPermute` | script.js:208-211 | after any number of loop passes the sequence is a permutation of the input |
| `Shuffle.ShuffledPermutes` | script.js:207-213 | the shuffled sequence has the input's length and is a permutation of it |
| `Shuffle.SlotSettled` | script.js:208-211 | the slot a pass fills is never touched by a later pass |
| `Shuffle.IdentityDraws` | script.js:209-210 | when every draw equals its `i`, the shuffle changes nothing |
| `Shuffle.ShuffleArray` | script.js:207-213 | the array becomes the shuffled sequence for the given draws, which `Shuffle.ShuffledPermutes` shows is a permutation of its old contents |
| `Store.Lookup` | script.js:109 | a lookup misses exactly when no entry has the path, and a hit returns that entry's data |
| `Store.Put` | script.js:109 | `loadedData[filePath] = ...` on the ordered entry list; see `Store.PutLookup`, `Store.PutShape` and `Store.PutUnique` |
| `Store.PutLookup` | script.js:109 | after storing, the path maps to the new data and every other path maps to what it did before |
| `Store.PutShape` | script.js:109 | existing keys keep their places, a new key is appended at the end, and nothing else is added |
| `Store.PutUnique` | script.js:109 | storing keeps the paths distinct |
| `Store.LoadAll` | script.js:105-110 | the loop over the selected files, storing each parse in turn; see `Store.LoadAllLookup` and `Store.LoadAllShape` |
| `Store.LoadAllLookup` | script.js:105-110 | after loading, a selected path holds the parse of its last fetched text; other paths are unchanged |
| `Store.LoadAllShape` | script.js:105-110 | loading keeps the paths distinct, and every stored file has a header |
| `Store.Flatten` | script.js:154-157 | every file's rows tagged with its headers and path, file after file; see `Store.FlattenLength`, `Store.FlattenAt` and `Store.FlattenTagged` |
| `Store.FlattenLength` | script.js:152-158 | there are as many quiz rows as data rows in all files together |
| `Store.FlattenAt` | script.js:154-157 | row `r` of file `k` sits after all rows of earlier files and is tagged with file `k`'s headers and path |
| `Store.FlattenTagged` | script.js:154-157 | every quiz row has the headers and path of some loaded file and one of that file's rows |
| `Store.FlattenHeadersPresent` | script.js:154-157 | every quiz row has at least one header |
| `Columns.GatherStep` | script.js:51-53 | one checkbox: the file gets an entry if it has none, and a checked name is appended; see `Columns.GatheredEntries` |
| `Columns.Gathered` | script.js:49-54 | the checkbox loop from `{}`; characterised by `Columns.GatheredEntries` |
| `Columns.GatheredEntries` | script.js:49-54 | every file with a checkbox gets an entry, even an empty one, and no other file does; the entry lists exactly that file's checked names in checkbox order |
| `Columns.PossibleColumns` | script.js:174 | `selectedColumns[filePath] || currentData.headers`, where an empty list is truthy; see `Columns.FallbackInRange` and `Columns.EmptySelectionNotFound` |
| `Columns.Chosen` | script.js:176-178 | the name looked up is the only one when there is one, `possibleColumns[pick]` when there are two or more, and `undefined` exactly when there are none |
| `Columns.ChosenCovers` | script.js:178 | every possible name is looked up for some pick |
| `Columns.IndexOf` | script.js:176-179 | the result is -1 exactly when the name is undefined or missing; otherwise it is the first index holding the name |
| `Columns.ColumnFor` | script.js:172-179 | the column is -1 or a header index; a header index holds the chosen name; -1 means no name or an unknown name |
| `Columns.FallbackInRange` | script.js:174-179 | a file with no entry falls back to all headers and always lands on a real column |
| `Columns.EmptySelectionNotFound` | script.js:174-178 | a file whose entry is an empty list gets column -1; there is no fallback |
| `Columns.MissingNameNotFound` | script.js:179 | a chosen name that is not among the headers gives column -1 |
| `Columns.SingleColumnDeterministic` | script.js:176 | with exactly one possible column, the random pick does not affect the result |
| `Wrap.JsRem` | script.js:193-202 | JavaScript `%`: the remainder is smaller than the divisor in magnitude, has the dividend's sign, and is the Euclidean remainder or that minus the divisor |
| `Wrap.NextIndex` | script.js:194 | from an index in `[-1, n)`, the result is in `[0, n)`: one step up, or 0 from `n - 1` |
| `Wrap.PrevIndex` | script.js:193 | from an index in `[0, n)`, the result is one step down, or `n - 1` from 0; from -1 it is `n - 2`, or 0 when `n == 1` |
| `Wrap.PrevUndoesNext` | script.js:193-194 | a backward move undoes a forward move, across the wrap too |
| `Wrap.NextUndoesPrev` | script.js:193-194 | a forward move undoes a backward move, across the wrap too |
| `Input.KeyMove` | script.js:68-74 | Left, Right, Up and Down map to prevCol, nextCol, prevRow and nextRow; every other key maps to no move |
| `Input.SwipeMove` | script.js:93-99 | the move a swipe makes, if any; characterised by `Input.SwipeCases`, `Input.SwipeDeadZone` and `Input.SwipeReversed` |
| `Input.SwipeCases` | script.js:88-99 | each move fires for exactly one gesture case; ties between the axes go to the vertical axis |
| `Input.SwipeDeadZone` | script.js:93-99 | a gesture within ±50 on both axes does nothing; column moves need a mostly horizontal gesture, row moves a mostly vertical one |
| `Input.SwipeReversed` | script.js:93-99 | the same gesture in the opposite direction makes the inverse move |
| `Input.KeysInverse` | script.js:70-73 | Left and Right are inverse moves, and so are Up and Down |
| `Navigator.QuizOrder` | script.js:159 | the flattened rows, shuffled once in random mode; see `Navigator.QuizOrderPermutes` |
| `Navigator.QuizOrderPermutes` | script.js:159 | in either mode the quiz rows are a permutation of the flattened rows |
| `Navigator.Session.constructor` | script.js:7-13 | the initial session is empty, in sequential mode, at row 0 and column 0 |
| `Navigator.Session.LoadSelectedFiles` | script.js:104-111 | each selected path is stored, in order, with its split text; the session invariant is kept |
| `Navigator.Session.GatherSelectedColumns` | script.js:49-54 | `selectedColumns` becomes the fold of the checkboxes from an empty map |
| `Navigator.CollectRows` | script.js:153-158 | the nested loops push exactly the flattened rows: every row of every file, tagged with that file's headers and path, files in insertion order |
| `Navigator.Session.PrepareQuizRows` | script.js:152-162 | `allRows` becomes the flattened rows, shuffled in random mode, and both indices become 0 |
| `Navigator.Session.StartOnRandomSelectedColumn` | script.js:171-180 | only the column changes, to the pick for the current row; with no rows the call throws |
| `Navigator.Session.NextRow` | script.js:194 | the row becomes `(row + 1) % n`, across file boundaries, and the column is picked again |
| `Navigator.Session.PrevRow` | script.js:193 | the row becomes `(row - 1 + n) % n`, and the column is picked again |
| `Navigator.Session.NextCol` | script.js:200-204 | the column moves forward with wraparound and ends in bounds; the row and `allRows` are unchanged |
| `Navigator.Session.PrevCol` | script.js:195-199 | the column moves backward with wraparound and ends in bounds; the row and `allRows` are unchanged |
| `Navigator.Session.Apply` | script.js:62-65 | runs exactly the navigation function for the move |
| `Navigator.Session.HandleKey` | script.js:68-75 | an arrow key runs its one move, and any other key changes nothing |
| `Navigator.Session.HandleSwipe` | script.js:88-100 | a swipe runs at most one move, the one its gesture maps to |
| `Navigator.Session.StartQuiz` | script.js:45-59 | records the mode, gathers the columns, prepares the rows and picks the first column |

Every `Session` method keeps the session invariant `Valid()`:
- the paths in `loadedData` are distinct;
- every file and quiz row has a header;
- when there are rows, `0 <= currentRow < |allRows|` and
  `-1 <= currentCol < |headers of the current row|`.

The `modifies` frames show what each method leaves alone. Row and column
moves change only `currentRow` and `currentCol`. The column pick changes
only `currentCol`.

## Left out

- Screens and DOM: building the file and column checkboxes, switching screens, `displayCell`, fullscreen, and wiring up event listeners (script.js:15-35, 113-149, 164-168, 185-190). The settings screen ticks the first column of each file by default; that is UI and is not modelled.
- Network and browser I/O: `fetch`, `response.text()` and `alert` (script.js:37-42, 106-107). `LoadSelectedFiles` receives the fetched texts as a parameter, already passed through `trim()`. Trimming is not modelled.
- `Math.random` (script.js:178, 209): the caller supplies the shuffle draws and the column pick. Only the range of the draws is modelled. Whether the shuffle is uniform is a probability question and is not modelled.
- `Store.Put`: JavaScript puts integer-like keys such as `"1"` before all other keys, in numeric order. File paths never take that form, so `loadedData` is modelled in plain insertion order.
- Touch coordinates are taken as integers, not floating-point numbers.
- `Navigator.Session.NextRow`: with no rows, JavaScript sets `currentRow` to `NaN` before it throws (the same applies to `PrevRow`). The model reports the `TypeError` and leaves `currentRow` unchanged. With no rows, every later call also throws, until `prepareQuizRows` sets the row back to 0, so the difference cannot be observed.
- update_files.py is not part of this model: it lists a directory, writes a JSON manifest and prints. Its one string step uses Python's Unicode title-casing.
