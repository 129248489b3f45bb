# Reminder to-do screen, modelled in Dafny

The to-do screen of the Reminder app keeps two pieces of state: the text
being typed into the input field, and an ordered list of `{ id, text }`
records. Two handlers change them:

- **add** (`handleAddTodo`): if the typed text trimmed is not empty, it
  appends one record at the end of the list and clears the field. Otherwise
  nothing happens.
- **delete** (`handleDeleteTodo`): keeps every record whose id differs from
  the one given.

The model is functional. `MainScreen.Screen` is an immutable
`(input, todos)` pair. `AddTodo`, `DeleteTodo` and `ChangeText` are pure
transitions. `Step` and `Run` apply the user events (typing, pressing
"Add", pressing "Delete") in order. `JsString` models the whitespace set
and the `trim` that the add guard uses. `TodoLaws` proves these properties:

- the no-op cases of both handlers;
- delete is idempotent and order-independent;
- add followed by delete is a round trip when the id is fresh;
- the list invariants that the transitions keep.

Files:

- `js_string.dfy`: module `JsString` (whitespace, `TrimStart`, `TrimEnd`, `Trim`)
- `main_screen.dfy`: module `MainScreen` (state, handlers, events)
- `todo_laws.dfy`: module `TodoLaws` (lemmas about the handlers)

The id is a parameter of `AddTodo`. In the program it is the clock reading
`Date.now().toString()`, and nothing makes it unique.

Two behaviours of the code are worth stating plainly:

- The stored text is the raw input. `trim` is used only in the guard at
  screens/MainScreen.jsx:16 (`AddStoresUntrimmedText`).
- Nothing in the code makes ids unique. A repeated clock reading makes a
  later delete remove the older records with that id as well
  (`CollidingIdBreaksRoundTrip`). Distinct ids are proved to be kept only
  under the explicit assumption that every add gets a fresh id
  (`RunKeepsDistinct`, `RunFromInitial`).

## Model

| member | source | states |
|---|---|---|
| JsString.TrimStart | screens/MainScreen.jsx:16 | the result is the suffix of the input after its leading whitespace, and does not start with whitespace |
| JsString.TrimEnd | screens/MainScreen.jsx:16 | the result is the prefix of the input before its trailing whitespace, and does not end with whitespace |
| JsString.Trim | screens/MainScreen.jsx:16 | trim never lengthens the text, and a non-empty result neither starts nor ends with whitespace. The result is empty iff every character of the input is whitespace, so the add guard `trim().length > 0` fails exactly on blank input |
| MainScreen.ChangeText | screens/MainScreen.jsx:32-33 | typing replaces the pending text and leaves the list unchanged |
| MainScreen.AddTodo | screens/MainScreen.jsx:15-20 | if the input is blank, the state is unchanged. Otherwise the list grows by exactly one, the old list is an unchanged prefix, the new last record is `(id, raw input)`, and the field becomes empty |
| MainScreen.Without | screens/MainScreen.jsx:23 | the filter keeps order (the result is a subsequence of the list), never lengthens the list, and leaves no record carrying the id |
| TodoLaws.WithoutMembers | screens/MainScreen.jsx:23 | a record is in the filtered list iff it was in the list and its id differs |
| TodoLaws.WithoutCounts | screens/MainScreen.jsx:23 | each record whose id differs survives as often as it occurs in the list, and records carrying the id do not survive at all |
| MainScreen.DeleteTodo | screens/MainScreen.jsx:22-24 | delete leaves the pending text alone, and its list is an order-preserving subsequence of the old one with no record carrying the id |
| TodoLaws.DeleteRemovesExactlyId | screens/MainScreen.jsx:22-24 | after delete the id is absent from the list, and every original record with another id is still present |
| TodoLaws.WithoutAbsent | screens/MainScreen.jsx:23 | deleting an id that no record carries returns the list unchanged |
| TodoLaws.WithoutIdempotent | screens/MainScreen.jsx:23 | deleting the same id twice equals deleting it once |
| TodoLaws.WithoutShrinksIffPresent | screens/MainScreen.jsx:23 | the length is kept iff the id is absent, and the list strictly shrinks when the id is present |
| TodoLaws.WithoutAppend | screens/MainScreen.jsx:23 | the filter distributes over concatenation of lists |
| TodoLaws.WithoutCommutes | screens/MainScreen.jsx:23 | deletes of two ids give the same list in either order |
| TodoLaws.AddThenDeleteRoundTrip | screens/MainScreen.jsx:15-24 | a successful add under an id not in the list, then a delete of that id, restores the original list with the field cleared |
| TodoLaws.CollidingIdBreaksRoundTrip | screens/MainScreen.jsx:17-23 | for every state with a non-blank input and an id already in the list, add-then-delete yields the old list filtered by that id, which is strictly shorter than the old list |
| TodoLaws.AddStoresUntrimmedText | screens/MainScreen.jsx:16-17 | for every non-blank input that starts or ends with whitespace, the stored text is the input as typed, and it differs from its trimmed form |
| TodoLaws.TypeThenAdd | screens/MainScreen.jsx:17-36 | typing a non-blank text and pressing Add appends exactly the typed text and clears the field |
| TodoLaws.StepKeepsTextsNotBlank | screens/MainScreen.jsx:16-23 | no single event stores a record whose text is blank |
| TodoLaws.RunKeepsTextsNotBlank | screens/MainScreen.jsx:15-36 | no sequence of events ever stores a blank text, starting from a list without blank texts |
| TodoLaws.WithoutKeepsDistinct | screens/MainScreen.jsx:23 | delete keeps ids pairwise distinct |
| TodoLaws.AddFreshKeepsDistinct | screens/MainScreen.jsx:17 | add keeps ids distinct when it is given an id not in the list |
| MainScreen.Step | screens/MainScreen.jsx:33-47 | typing replaces the field and leaves the list alone. Delete leaves the field alone and never lengthens the list. Add either changes nothing or appends `(id, input)` and clears the field. Delete accepts any id, which includes every id of a rendered record that the screen passes |
| TodoLaws.RunFromInitial | screens/MainScreen.jsx:12-47 | from the empty initial state, every event sequence whose adds get fresh ids ends with distinct ids and no blank text |
| TodoLaws.RunKeepsDistinct | screens/MainScreen.jsx:42 | if every add gets a fresh id, no sequence of events breaks the id uniqueness that the key extractor relies on |

## Left out

- Rendering and layout (the JSX tree, `FlatList`, `TextInput`, `TouchableOpacity`, the style sheet) are UI only and have no behaviour to state.
- `components/TaskPopup.jsx` is a stateless modal. It has no logic, and its `Dimensions.get` is a foreign call used in floating-point layout.
- `App.jsx` only mounts the screen.
- `Date.now().toString()` is an external clock. The id is a parameter of `AddTodo`, and its uniqueness is an explicit assumption (`FreshAdds`), never a claim.
- React `useState` batching and re-rendering are not modelled. Each handler is one atomic transition on the current state.
- The screen has no storage and no timer, so nothing here is about persistence or periodic reminders.
- Strings are sequences of Unicode scalar values. JavaScript strings are UTF-16 code units and can hold lone surrogates, which the model cannot represent. Every whitespace character `trim` removes is in the Basic Multilingual Plane, and the guard only tests whether the trimmed text is empty, so no handler behaves differently.
- JsString.IsWhitespace: lists the ECMAScript WhiteSpace and LineTerminator code points with the Unicode Zs category as currently assigned. Later Unicode versions may add code points to Zs.
