# Course assignments: string and table routines, verified

This project models and verifies the deterministic string and table logic of five
small C++ programs from a programming course:

- **Periodic-table lookup** (`assignment2/periodic.cpp`). It reads element rows into a
  table of 119 slots indexed by atomic number, plus name and symbol indices. Only
  rows numbered 1..118 are kept. Both indices are sorted by key with `CompClass` and
  searched by the binary search `index_find`. A line of user input is trimmed, checked
  for "quit" and for being all digits, then looked up by number, by symbol (at most
  two characters, re-cased as `Xy`) or by name (re-cased as `Xyyy…`).
- **Wordle** (`assignment1/wordle.cpp`). Guesses are checked by lower-casing them and
  searching the sorted word list. `update_board` colours one row of a 6 x 5 board in
  place: green for a letter at its own position, yellow for a letter found elsewhere,
  off otherwise. An invalid guess does not use up one of the six attempts.
- **Student records** (`project/main.cpp`). `trim` is built on
  `find_first_not_of` / `find_last_not_of`. `parse_line` splits a CSV line with
  `getline`, trims every field, and requires twelve non-empty fields. It then assigns
  the `Student` out-parameter field by field, stopping at the first `stoi` that throws.
  The `main` loop skips the header line and keeps the lines that parse, in order.
- **Bug-attraction report** (`exam/task1.cpp`). The header scan finds the columns.
  Rows whose cell count differs from the header count are skipped. Each species' count
  is summed per light type into nested maps. Each species then reports a light type
  with the largest positive sum.
- **Bug-attraction chart** (`exam/task3.cpp`). It runs the same aggregation into three
  maps. It keeps the four species with the largest totals, builds the table of their
  per-light-type sums, and numbers the bar positions.

Modules follow the programs:

| module | contents |
|---|---|
| `Wrappers` | `Option` |
| `Strings` | ASCII case mapping, the `std::string` order, trim, `getline` splitting |
| `Sorting` | insertion sort as the model of `std::sort`, and the ordered sequence modelling `std::set<std::string>` |
| `Periodic`, `Wordle`, `Students`, `BugTask1`, `BugTask3` | one module per program |
| `BugSurvey` | what the two bug programs share |

State that the programs update in place is modelled imperatively:
- the element table is a class holding an `array` (`PeriodicTable`);
- the Wordle board is an `array2`;
- the chart's table is an `array2`;
- loops are methods with invariants, proved against recursive specification functions (`ParsedRows`, `Place`, `Entries`, `Scored`, `Records`, `Counts`, `Totals`, `LightCounts`);
- the meaning of each specification function is proved in lemmas.

`std::stoi` is a parameter `parse: string -> Option<int>`, where `None` means the conversion throws; `std::stod` on the mass column is a parameter `massConverts: string -> bool`, false when it throws. Iteration over an `unordered_map` is a nondeterministic choice (`:|`), so every result that depends on it is stated for any visiting order.

## Model

| member | source | states |
|---|---|---|
| `Strings.FindFirstNotOf` | project/main.cpp:35-39 | `npos` (None) exactly when every character is in the set; otherwise the index of a character outside the set with only set characters before it |
| `Strings.FindLastNotOf` | project/main.cpp:40-41 | `npos` exactly when every character is in the set; otherwise the index of a character outside the set with only set characters after it |
| `Strings.TrimMeaning` | project/main.cpp:33-42 | `Trim` gives "" exactly when the input is all whitespace (the empty input included); otherwise both ends of the result are non-whitespace; the result is always a slice of the input with only whitespace cut from either side |
| `Strings.TrimBetween` | project/main.cpp:40-41 | when there is a non-whitespace character, `Trim`'s result is the substring from the first to the last one, inclusive, and first <= last |
| `Strings.TrimIdempotent` | project/main.cpp:33-42 | trimming twice is trimming once |
| `Strings.Pieces` | project/main.cpp:51-54 | splitting on d gives one more piece than d occurs; no piece contains d; the last piece is empty exactly when the line is empty or ends with d |
| `Strings.GetlineFields` | project/main.cpp:51-54 | the fields a `getline` loop yields: none contains the delimiter; their number is the number of delimiters, plus one unless the line is empty or ends with the delimiter |
| `Strings.JoinPieces` | exam/task1.cpp:72-74 | joining the pieces with the delimiter gives back the line |
| `Strings.GetlineFieldsJoin` | exam/task1.cpp:43-45 | joining the getline fields (plus the dropped final empty field, if any) gives back the line: splitting loses nothing else |
| `Strings.LowerString` | assignment1/wordle.cpp:37-43 | same length; each character mapped by `tolower` |
| `Strings.UpperString` | assignment2/periodic.cpp:145-146 | same length; each character mapped by `toupper` |
| `Strings.StrLessIrreflexive` | assignment2/periodic.cpp:26-29 | no string is less than itself under `std::string` `<` |
| `Strings.StrLessTransitive` | assignment2/periodic.cpp:26-29 | `std::string` `<` is transitive |
| `Strings.StrLessTotal` | assignment2/periodic.cpp:26-29 | any two strings are equal or one is less than the other |
| `Sorting.SortBy` | assignment2/periodic.cpp:131-132 | sorting yields a permutation of its input (same multiset, same length) |
| `Sorting.SortBySorted` | assignment2/periodic.cpp:131-132 | under a total preorder, the sorted sequence is ordered pairwise |
| `Sorting.SetInsert` | exam/task1.cpp:81 | `set.insert`: the contents stay strictly ascending and are the old elements plus x |
| `Sorting.AscendingDistinct` | exam/task3.cpp:127 | the copy of a `std::set` holds no element twice |
| `Periodic.KeyLeTotalPreorder` | assignment2/periodic.cpp:24-30 | "not comp(b, a)" is total and transitive, so sorting with `comp` orders the index by key |
| `Periodic.IndexFind` | assignment2/periodic.cpp:32-53 | -1 on an empty index; any other result is the number of an entry with that key; on a sorted index holding the key, the result is the number of a matching entry; on a sorted index without -1 numbers, -1 means no entry has the key |
| `Periodic.RowTokenIsField` | assignment2/periodic.cpp:89-111 | on a row with enough fields, each `getline` token is the matching comma field |
| `Periodic.ParseRow` | assignment2/periodic.cpp:84-111 | a row aborts exactly when its number token does not convert or `stod` rejects its mass token (token 3); otherwise number, name, symbol, phase and type come from tokens 0, 1, 2, 4 and 5 |
| `Periodic.ParsedRowsMeaning` | assignment2/periodic.cpp:82-111 | reading succeeds exactly when every row's number and mass convert, and then row i is line i parsed |
| `Periodic.AbortPersists` | assignment2/periodic.cpp:90-103 | once a row's number or mass fails to convert, reading the remaining lines does not recover |
| `Periodic.Entries` | assignment2/periodic.cpp:114-126 | every index entry that rows add has a number in 1..118 |
| `Periodic.PlaceLastWins` | assignment2/periodic.cpp:114-117 | after storing rows, slot n holds the last row numbered n; with no such row, or n outside 1..118, it keeps its previous content |
| `Periodic.LastAfterErase` | assignment2/periodic.cpp:141-142 | in `EraseTrim`, after the leading whitespace is erased, the last non-whitespace character sits as many places earlier |
| `Periodic.EraseTrimIsTrim` | assignment2/periodic.cpp:141-142 | `EraseTrim`, the two `erase` calls including the `npos + 1 == 0` case, trims exactly as `Trim` does |
| `Periodic.NumberInput` | assignment2/periodic.cpp:154 | an input `IsNumber` accepts (non-empty, all digits) is its own trim and is not "quit" in any case, so the number branch converts exactly the digits read |
| `Periodic.NormalizeSymbol` | assignment2/periodic.cpp:183-188 | length kept; first character upper-cased; a second character lower-cased |
| `Periodic.Capitalized` | assignment2/periodic.cpp:205-210 | length kept; first character upper-cased; every later character lower-cased |
| `Periodic.NormalizeName` | assignment2/periodic.cpp:205-210 | the character-by-character loop computes the capitalised name |
| `Periodic.SymbolCaseInsensitive` | assignment2/periodic.cpp:179-188 | inputs differing only in case look up the same symbol; normalising twice changes nothing |
| `Periodic.NameCaseInsensitive` | assignment2/periodic.cpp:203-210 | inputs differing only in case look up the same name; capitalising twice changes nothing |
| `Periodic.PeriodicTable.constructor` | assignment2/periodic.cpp:67-69 | 119 default elements and empty indices |
| `Periodic.PeriodicTable.Insert` | assignment2/periodic.cpp:113-126 | an element numbered 1..118 takes its slot and appends one entry to each index; any other element changes nothing |
| `Periodic.PeriodicTable.Load` | assignment2/periodic.cpp:82-127 | succeeds exactly when every row's number and mass convert; then the slots are the rows stored in order and each index gained the in-range entries in order |
| `Periodic.PeriodicTable.SortIndices` | assignment2/periodic.cpp:131-132 | both indices become sorted by key and are permutations of what they were |
| `Periodic.PeriodicTable.Lookup` | assignment2/periodic.cpp:140-222 | on the trimmed input: quits exactly on "quit" in any case; aborts exactly when an all-digit input does not convert; a number outside 1..118 is invalid; a number is found exactly when its slot has a name; other input is found only as an entry of the symbol index (at most two characters) or the name index, and on a sorted index exactly when an entry has the normalised key |
| `Periodic.PeriodicTable.LookupNumber` | assignment2/periodic.cpp:159-174 | invalid exactly outside 1..118; found exactly when the slot is in range and named, and then it is that number |
| `Periodic.PeriodicTable.LookupText` | assignment2/periodic.cpp:179-222 | found or not found; a found number belongs to an entry with the normalised key and is in 1..118; on a sorted index, found exactly when some entry has that key |
| `Wordle.ToLowercase` | assignment1/wordle.cpp:37-43 | same length; each character mapped by `tolower` |
| `Wordle.LowerBound` | assignment1/wordle.cpp:66 | on a sorted list: everything before the result is less than x, and nothing from the result on is |
| `Wordle.BinarySearch` | assignment1/wordle.cpp:66 | on a sorted list, true exactly when x is in the list |
| `Wordle.IsValidWord` | assignment1/wordle.cpp:64-67 | on a sorted list, valid exactly when the lower-cased word is in it |
| `Wordle.ScoreRow` | assignment1/wordle.cpp:71-79 | one cell per guess letter, holding that letter and its colour |
| `Wordle.ColorCases` | assignment1/wordle.cpp:72-78 | the colour `ColorOf` gives cell i: green exactly when the letter equals the target's letter at that position; yellow exactly when it does not but occurs in the target; off exactly when it occurs nowhere; the letter is the guess letter |
| `Wordle.AllGreenIffCorrect` | assignment1/wordle.cpp:135-137 | for a guess as long as the target, every cell is green exactly when the guess is the target |
| `Wordle.YellowIsElsewhere` | assignment1/wordle.cpp:74-77 | a yellow letter occurs in the target at another position; an off letter occurs nowhere in it |
| `Wordle.NewBoard` | assignment1/wordle.cpp:113 | a fresh 6 x 5 board of `('*', COLOR_OFF)` cells |
| `Wordle.UpdateBoard` | assignment1/wordle.cpp:70-80 | row `attempt`, columns 0..len-1, hold the scored guess; every other cell is unchanged |
| `Wordle.ScoredAcceptable` | assignment1/wordle.cpp:129-135 | only five-letter guesses that the binary search finds (on a sorted list: that are in it) are scored, and each comes from the input |
| `Wordle.Score` | assignment1/wordle.cpp:135 | scoring the next guess extends the shown rows by that guess and leaves the rows below blank |
| `Wordle.PlayGame` | assignment1/wordle.cpp:113-145 | invalid guesses cost no attempt; the board shows the scored guesses in order; won exactly at the first scored guess equal to the target; lost after six scored guesses without it; otherwise "quit", "new" or the end of input ends the game before six |
| `Students.TrimAllAt` | project/main.cpp:51-54 | token i is field i trimmed |
| `Students.Tokenize` | project/main.cpp:47-54 | the tokens vector is the trimmed getline fields of the line, in order |
| `Students.AssignedFields` | project/main.cpp:74-93 | text fields from tokens 0-3; each integer field converted when every conversion up to it succeeds, and left as it was otherwise; the grade written only when all conversions succeed |
| `Students.AssignedIsRecord` | project/main.cpp:76-87 | when all conversions succeed, the assigned student is the line's record, whatever the student held before |
| `Students.ParseTokens` | project/main.cpp:56-95 | true exactly for twelve non-empty tokens that all convert, and then the student is their record; a token count other than twelve, or an empty token, leaves the student untouched; otherwise the assignments before the failing conversion stay written |
| `Students.ParseLine` | project/main.cpp:45-96 | the same promises, stated on the line: true exactly when the line describes a record |
| `Students.RecordsConcat` | project/main.cpp:170-178 | the records of two consecutive stretches of lines are the records of each, in order |
| `Students.RecordFieldsClean` | project/main.cpp:51-72 | every record read has non-empty text fields without commas and without whitespace at either end, and a grade that is neither whitespace nor a comma |
| `Students.LoadStudents` | project/main.cpp:162-178 | an empty file is an error; otherwise the header line is skipped and the students are the records of the remaining lines, in file order |
| `BugSurvey.SpeciesDistinct` | exam/task1.cpp:17-21 | the fourteen species names are pairwise different |
| `BugSurvey.LastIndexOf` | exam/task1.cpp:52-59 | -1 exactly when the name is not a header; otherwise the last column holding it |
| `BugSurvey.SpeciesColumns` | exam/task1.cpp:60-64 | a species has an index exactly when it heads a column, and its index is the last such column |
| `BugSurvey.MatchSpecies` | exam/task1.cpp:60-64 | the inner loop maps the header to column i exactly when it names a species |
| `BugSurvey.LocateColumns` | exam/task1.cpp:36-65 | the headers are the comma `getline` fields of the header line; light, moon and total columns are each the last header with that name, or -1; the species indices are `SpeciesColumns`; with a "Light Type" header every index read is inside a full-width row |
| `BugSurvey.ScanHeaders` | exam/task1.cpp:51-65 | the header loop: light, moon and total columns are each the last header with that name, or -1; the species indices are `SpeciesColumns`; with a "Light Type" header every index read is inside a full-width row |
| `BugSurvey.Accepted` | exam/task1.cpp:68-78 | every accepted row has exactly one cell per header |
| `BugSurvey.SkippedLine` | exam/task1.cpp:76-78 | a line with the wrong cell count is not read, so nothing computed from the accepted rows changes |
| `BugSurvey.LightTypes` | exam/task1.cpp:80-81 | `lightTypes` is strictly ascending and holds exactly the light types of the accepted rows |
| `BugSurvey.BumpAt` | exam/task1.cpp:91 | `Bump`, the model of `m[outer][inner] += n`, adds n at (outer, inner), creates missing entries, and changes no other entry |
| `BugSurvey.CellCountInRow` | exam/task1.cpp:82-90 | on a row the columns fit: `LightOf` is the light cell; each species column is inside the row; `CellCount` is the cell's `stoi` value, or 0 when it throws |
| `BugSurvey.CountRowAt` | exam/task1.cpp:83-92 | one row adds each species' cell (0 when it does not convert) under the row's light type, and nothing else |
| `BugSurvey.CountsMeaning` | exam/task1.cpp:68-93 | `counts[sp][lt]` is the sum of the species' column over the accepted rows with light type lt; entries exist exactly for listed species and light types read |
| `BugSurvey.TotalRowAt` | exam/task3.cpp:87-103 | one row adds each species' cell to its total |
| `BugSurvey.TotalsMeaning` | exam/task3.cpp:69-104 | `speciesTotals[sp]` is the sum of the species' column over all accepted rows |
| `BugSurvey.LightRowAt` | exam/task3.cpp:87-103 | one row adds each species' cell under the row's light type, keyed light type first |
| `BugSurvey.LightCountsMeaning` | exam/task3.cpp:69-104 | `lightSpeciesCounts[lt][sp]` is the same sum as `counts[sp][lt]`; a light type has an entry exactly when some row has it |
| `BugTask1.Aggregate` | exam/task1.cpp:68-93 | after the loop, `counts` and `lightTypes` are the sums and the light types of the rows as wide as the header line's fields |
| `BugTask1.AddRow` | exam/task1.cpp:83-92 | the species loop adds the row as `CountRow` says |
| `BugTask1.MostAttractive` | exam/task1.cpp:99-106 | for any visiting order: the count is the largest positive count, or 0 with light "" when none is positive; a positive result names a light with that count |
| `BugTask1.Report` | exam/task1.cpp:97-108 | one line per species in list order, each showing a most attractive light for that species |
| `BugTask1.MostAttractiveTies` | exam/task1.cpp:101-106 | two lights that can both be shown are equal or have the same positive count: the order only decides between ties |
| `BugTask3.Aggregate` | exam/task3.cpp:69-104 | after the loop, the three maps and `lightTypes` are the specification folds over the rows as wide as the header line's fields |
| `BugTask3.AddRow` | exam/task3.cpp:87-103 | each species' count goes into all three maps |
| `BugTask3.TotalsAreLightSums` | exam/task3.cpp:99-102 | `speciesTotals[sp]` equals the sum over the light types read of `lightSpeciesCounts[lt][sp]` |
| `BugTask3.HeavierTotalPreorder` | exam/task3.cpp:117-119 | the comparator `a.second > b.second` orders pairs by descending total |
| `BugTask3.CopyEntries` | exam/task3.cpp:116 | `speciesVector` holds every map entry once, in an order the map does not fix; no species names two of its pairs |
| `BugTask3.PermutedNames` | exam/task3.cpp:116-119 | sorting the copied entries keeps their names distinct |
| `BugTask3.SortedEntries` | exam/task3.cpp:116-119 | after the sort: all entries, each once, with distinct names and totals non-increasing |
| `BugTask3.TopOfSorted` | exam/task3.cpp:121-125 | the first names of the sorted entries are distinct species of the map, with non-increasing totals, none below an unchosen one |
| `BugTask3.TopSpecies` | exam/task3.cpp:116-125 | min(4, number of species) distinct names; each has a total; totals are non-increasing; every chosen total is at least every unchosen total |
| `BugTask3.DataTable` | exam/task3.cpp:128-141 | a fresh table of top-species rows by light-type columns, cell (i, j) holding `lightSpeciesCounts[lightTypes[j]][top[i]]`, 0 where missing |
| `BugTask3.Positions` | exam/task3.cpp:143-144 | `iota` from 1: positions 1..n, increasing |

## Left out

- The linear-system solver of `assignment2/solver.cpp`: its class (`system.h`) is not part of this model, and it works in floating point.
- Floating point: the atomic mass value is not kept. `std::stod` is the abstract `massConverts` parameter, which says only whether the mass token converts; a row aborts reading when it does not. The doubles that the chart program accumulates (`speciesTotals`, `lightSpeciesCounts`, `data`) are integers here. Sums of `int` counts in a `double` are exact except beyond 2^53. Bar widths and offsets are not modelled.
- Integer overflow: `stoi` results and the `+=` sums are unbounded integers. The source's `int` would wrap or be undefined.
- I/O, modelled as parameters:
  - files and `std::cin` become sequences of lines or words;
  - output, prompts, `print_board` and all plotting are not modelled;
  - `rand()` for the Wordle target becomes the `target` parameter;
  - `std::stoi` is the abstract `parse` parameter and `std::stod` the abstract `massConverts`; which strings they accept is not modelled.
- `read_word_list` and the word-list `std::sort` are not modelled. The list is a parameter, and the search promises hold when it is sorted.
- Wordle.PlayGame:
  - "new" and what follows a win or a loss (`ask_for_new_game`, `exit`) end the model's game with `NewGame`, `Won` or `Lost`; the nested game is not played;
  - end of input is `OutOfInput`, where the source would loop on a failed `cin`.
- Wordle.UpdateBoard: reading `target[i]` past the target's end gives `'\0'`, as `std::string` does at its own length. Beyond that it would be undefined; guesses are five letters.
- Periodic.PeriodicTable.SortIndices: `std::sort` may order entries with equal keys either way. The model fixes one order (insertion sort). The ensures promise only sortedness and permutation besides it.
- BugTask3.TopSpecies: as with the index sort, the order among equal totals is one that `std::sort` may produce. The ensures state only what every order satisfies.
- BugTask1.Aggregate: requires the columns to fit the row width. That holds whenever the header has a "Light Type" column (`LocateColumns` ensures it). Without one the source reads `row[-1]`, which is undefined behaviour and is not modelled.
- BugTask3.Aggregate: the same requirement, for the same reason.
- Characters: a `char` here stands for one byte of the source's `std::string`, and the inputs are taken to be ASCII. For non-ASCII text the source counts bytes (a two-byte letter makes a five-letter Wordle guess six long, and `|t| <= 2` for a symbol counts bytes), and `tolower`/`toupper` are the ASCII mappings only; the model's lengths agree with the source only on ASCII input.
- `speciesIndices[sp]` and `lightSpeciesCounts[lt][sp]` read through `operator[]`, which inserts a default entry as a side effect of reading. The model reads 0 or an empty map instead (`Get`, `Inner`). The inserted entries are never read back as non-zero.
- Students.LoadStudents:
  - `Student s` is uninitialised on each iteration; the model starts every line from a fixed blank student;
  - a student is kept only when `parse_line` succeeds, and then every field has been written.
- `display_element` and the Wordle colour escape codes themselves: colours are the constructors `Green`, `Yellow` and `Off`.
