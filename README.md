# Secret Friend roster and draw

A model of the logic of `app.js`, a browser page for organising a secret-friend
(gift exchange) game. The page keeps an ordered list of participants and, on
request, draws who gives a present to whom.

- **Roster** (`Friends.dfy`, module `Friends`). The global `friends` array becomes
  the `seq<string>` field of class `Roster`. A raw input is trimmed. It is refused as
  `EmptyInput` when nothing is left. It is refused as `Duplicate` when an entry is
  equal to it once both are lower-cased. Otherwise it is appended (`Added`).
  `RestartGame` empties the list. The object invariant `Valid()` says every entry is a
  trimmed non-empty name and no two entries are equal up to case. The decision on one
  input is the function `Admission`, and the resulting list is `AfterAdd`. The
  methods are proved against these two functions, and the lemmas beside them state
  what an add means.
- **Assigner** (`Assigner.dfy`, module `Assigner`). `Draw` refuses rosters of fewer
  than three names (`TooFewFriends`). Otherwise it copies the roster twice and runs the
  Fisher-Yates loop in place on the receivers' array (`Shuffle`). It then scans the
  positions and gives up with `SelfAssignment` at the first giver who equals their
  receiver. If no position collides, it returns every `(giver, receiver)` pair in
  roster order (`Drawn`). The random index `Math.floor(Math.random() * (i + 1))` is a
  parameter: `js[k]` is the choice made at the step whose loop index is
  `i = n - 1 - k`, and `ValidChoices` says it lies in `[0, i]`. The specification
  function `Assignment` gives the outcome of a draw for a roster and a choice
  sequence.
- **Text** (`Text.dfy`, module `Text`). Models the two JavaScript string built-ins
  the roster uses: `trim` (`Trim`) and, on ASCII, `toLowerCase` (`ToLower`).

## Model

| member | source | states |
|---|---|---|
| `Text.TrimStart` | app.js:179 | the result is the suffix of the input after its leading whitespace, all of which is whitespace, and it does not start with whitespace |
| `Text.TrimEnd` | app.js:179 | the result is the prefix of the input before its trailing whitespace, all of which is whitespace, and it does not end with whitespace |
| `Text.Trim` | app.js:179 | the trimmed value neither starts nor ends with whitespace and is no longer than the input; with `TrimKeepsMiddle` this fixes the value for every input |
| `Text.TrimKeepsMiddle` | app.js:179 | the input is some whitespace, then the trimmed value as a contiguous slice, then some more whitespace |
| `Text.TrimOfTrimmed` | app.js:179 | a string with no whitespace at either end is its own trimming |
| `Text.TrimEmptyIff` | app.js:179-184 | trimming yields the empty string exactly when the input is all whitespace (or empty) |
| `Text.TrimScenario` | app.js:179 | `" Ana "` trims to `"Ana"` |
| `Text.BlankTrimScenario` | app.js:179-184 | `""` and `"   "` trim to the empty string |
| `Text.LowerChar` | app.js:127 | upper-case ASCII letters move to their lower-case letter, every other character is kept, and no upper-case ASCII letter remains |
| `Text.ToLower` | app.js:127-132 | lower-casing keeps the length |
| `Text.ToLowerAt` | app.js:127-132 | each character of the lower-cased string is `LowerChar` of the character at the same position |
| `Text.LowerScenario` | app.js:127-132 | `"Ana"` and `"ana"` both lower-case to `"ana"` |
| `Assigner.Swap` | app.js:64 | exchanging two positions keeps the length |
| `Assigner.SwapIsPermutation` | app.js:64 | exchanging two positions keeps the multiset of names |
| `Assigner.ShuffleFrom` | app.js:56-65 | the steps from loop index `i` down to 1 keep the length |
| `Assigner.Shuffled` | app.js:56-65 | the whole Fisher-Yates loop keeps the length |
| `Assigner.ShuffleFromIsPermutation` | app.js:56-65 | the steps from loop index `i` down to 1 keep the multiset of names, whatever in-range indices are chosen |
| `Assigner.ShuffledIsPermutation` | app.js:56-65 | the shuffled receivers have the roster's length and multiset, whatever in-range indices are chosen |
| `Assigner.Shuffle` | app.js:56-65 | the in-place loop leaves the array equal to `Shuffled` of its old contents, and a permutation of them |
| `Assigner.DrawSucceedsIff` | app.js:37-82 | a draw fails as too few exactly when the roster has under three names, and succeeds exactly when it has at least three and no position of the shuffle holds the giver's own name |
| `Assigner.DrawnIsDerangement` | app.js:70-90 | a successful draw has one pair per roster entry, the givers being the roster in order, nobody giving to themself, and the receivers a permutation of the roster |
| `Assigner.DrawScenarios` | app.js:33-97 | Ana, Beto, Caro with choices [1, 0] draw Ana→Caro, Beto→Ana, Caro→Beto; choices [2, 1] leave everybody in place and fail; two names are always too few |
| `Assigner.Draw` | app.js:33-97 | the draw over two copies of the roster, with the in-place shuffle and the early-exit scan, returns exactly `Assignment(friends, js)`: too few under three names (where no choices are needed), a self-assignment failure with no partial pairing, or the full positional pairing |
| `Friends.EmptyField` | app.js:161-169 | the empty string, the one falsy string, is refused, and any other string is passed on unchanged |
| `Friends.AdmissionCases` | app.js:176-195 | an add is refused as empty exactly for all-whitespace input, refused as a duplicate exactly when the trimmed input matches an entry up to case, and accepted otherwise, always carrying the trimmed input |
| `Friends.AfterAddShape` | app.js:149-150 | an accepted add yields the old list followed by the trimmed name, so it grows by one and keeps the earlier entries; a refused add leaves the list unchanged |
| `Friends.AddPreservesNoDuplicates` | app.js:124-150 | adding keeps every entry a trimmed non-empty name and keeps the list free of case-insensitive duplicates |
| `Friends.AddTwiceIsDuplicate` | app.js:124-140 | offering again text that was just accepted is refused as a duplicate |
| `Friends.BlankScenarios` | app.js:161-169 | `""` and `"   "` are refused as empty, whatever the list |
| `Friends.TrimmedScenario` | app.js:179-192 | `" Ana "` on an empty list is stored as `"Ana"` |
| `Friends.CaseScenario` | app.js:124-140 | adding `"ana"` to `["Ana"]` is refused as a duplicate and the list stays `["Ana"]` |
| `Friends.AnaIsDuplicate` | app.js:176-192 | the decision on `"ana"` against `["Ana"]` is `Duplicate("ana")` |
| `Friends.AnaIsListed` | app.js:124-140 | `["Ana"]` holds an entry equal to `"ana"` up to case |
| `Friends.Roster.constructor` | app.js:1 | the list starts empty and valid |
| `Friends.Roster.RestartGame` | app.js:21-22 | the list is empty afterwards, whatever it held |
| `Friends.Roster.IsFriendDuplicated` | app.js:124-140 | the linear search answers true exactly when some entry equals the name once both are lower-cased |
| `Friends.Roster.SaveFriend` | app.js:149-150 | a validated name is appended at the end and the invariant is kept |
| `Friends.Roster.AddFriend` | app.js:176-195 | returns `Admission` of the old list and the input, leaves the list equal to `AfterAdd` of the old list, and keeps the invariant |
| `Friends.Roster.DrawFriend` | app.js:33-46 | the draw over the current list returns `Assignment(friends, js)` and leaves the list unchanged; choices are only required from three names on |

## Left out

- DOM and UI: reading the input field, clearing it and moving focus (`inputParameters`, app.js:10-14), rendering the list (`showFriends`, app.js:104-115), clearing and filling the result list, and the Enter-key listener (app.js:204-209). These are display side effects. On a collision, the retry message at app.js:80 replaces the pairs rendered so far. The model returns `SelfAssignment` and no pairs.
- Alerts and `console.log`: every alert is a returned outcome variant, and console output is dropped.
- `addFriend` (app.js:216-219) only calls `dataReading` and is merged into `Roster.AddFriend`.
- `Math.random` and the float arithmetic at app.js:60 are replaced by the injected choice sequence `js`. The claim that every permutation is equally likely is a probabilistic property and is not stated. Whether the user's repeated draws eventually succeed is not stated either.
- Text.LowerChar, Text.ToLower: model `toLowerCase` on ASCII only. Letters outside 'A'..'Z' are left as they are (for example 'É' and U+212A KELVIN SIGN), although JavaScript lower-cases them too, so two names that differ only in the case of a non-ASCII letter remain distinct here.
- JavaScript strings are sequences of UTF-16 code units, and Dafny's `char` is a Unicode scalar value. Lone surrogates cannot be represented.
- `Valid()` is carried as the precondition and postcondition of the mutating methods. The source states no such invariant. It holds there because `friends` changes only through `saveFriend`, which runs after both checks, and `restartGame`, so nothing else can put a case-insensitive duplicate into it.
