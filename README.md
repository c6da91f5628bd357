# Werk blacklist widget — Dafny model

Werk is a one-page React widget. The user keeps a list of blocked phone
numbers in browser local storage, and a button runs a pretend "contact
clean-up". All the behaviour sits in the `App` component. It has four pieces
of state:

- `blacklist`: the stored numbers;
- `newNumber`: the text of the input field;
- `message`: an optional toast;
- `isSimulating`: a busy flag.

Six events change that state: typing in the input field, adding the typed
number, removing a listed number, clicking the simulate button, the
simulation timer firing 2500 ms later, and the toast's expiry timer firing
3000 ms after the toast changed.

The model has three modules:

- `JsText` (`js_text.dfy`): the JavaScript built-ins the component leans on.
  `String.prototype.trim` is `Trim`, with the exact ECMAScript whitespace and
  line-terminator set. The default comparator of `Array.prototype.sort` is
  `Less`, which compares strings character by character, so `"10"` sorts
  before `"9"` and `"004"` before `"123"`. Lemmas prove that `Less` is a
  strict total order.
- `Blacklist` (`blacklist.dfy`): the two list transformations. `Sort` models
  `[...prev, x].sort()`: it returns the ascending permutation of its input,
  and `SortedUnique` shows that this result does not depend on the sorting
  algorithm. `Without` models `blacklist.filter(num => num !== x)`. Lemmas
  cover sortedness, duplicates, order preservation and the add/remove round
  trips.
- `Widget` (`widget.dfy`): class `App`. It has the four state fields plus
  explicit timer state: the pending simulation callback with the list length
  its closure captured, and the id of the live toast-expiry timer. Each event
  is a method, and each timer firing is a method too. `Valid()` is the
  invariant: a toast is shown exactly when its expiry timer is armed, and the
  busy flag is set exactly when the simulation callback is pending. A few
  client methods (`FirstAddSession`, `DuplicateAddSession`,
  `AddInFrontSession`, `RemoveSession`, `SimulationSession`) replay typical
  sessions against the method contracts.

Behaviour the model follows from the code:

- Setting a toast to the text it already shows does not restart the 3000 ms
  countdown. React skips a state update whose value is unchanged, so the
  effect at App.tsx:37-42 does not run again. `Posted` states this.
- Suppose the trimmed input is empty and the stored list already holds `""`
  (only a hand-edited storage slot can do that). Then the `else if` at
  App.tsx:18 shows the "already in the list" warning for `""`. In every other
  blank case nothing happens.
- Only a successful add sorts. A list loaded unsorted from storage stays
  unsorted until then. Duplicates loaded from storage stay until that number
  is removed, which deletes every copy. Every event
  keeps the list sorted once it is sorted and keeps it duplicate-free once it
  is duplicate-free.
- Removing accepts any value. Removing an unlisted value leaves the list
  unchanged and still shows the confirmation.

## Model

| member | source | states |
|---|---|---|
| `JsText.IsWhitespace` | App.tsx:13 | the characters `trim` removes, ECMAScript WhiteSpace and LineTerminator: space, tab, LF and CR are among them, while digits and the phone punctuation `+ - ( )` never are |
| `JsText.TrimStart` | App.tsx:13 | the leading part `trim` cuts is all whitespace, and what remains is empty or starts with a non-whitespace character |
| `JsText.TrimEnd` | App.tsx:13 | the trailing part `trim` cuts is all whitespace, and what remains is empty or ends with a non-whitespace character |
| `JsText.Trim` | App.tsx:13 | the trimmed input is empty exactly when the input is all whitespace; otherwise it starts and ends with a non-whitespace character |
| `JsText.TrimIsInfix` | App.tsx:13 | the trimmed value is one contiguous piece of the input, and everything cut on either side of it is whitespace |
| `JsText.TrimIdempotent` | App.tsx:13 | trimming an already trimmed value changes nothing |
| `JsText.TrimPadded` | App.tsx:13-14 | whitespace padding on either side does not change the trimmed value, so `" 555 "` and `"555"` are the same entry |
| `JsText.Less` | App.tsx:15 | the default `.sort()` comparator, a strict character-by-character order: no string sorts before itself, and the empty string sorts before every other string |
| `JsText.NotNumericOrder` | App.tsx:15 | the sort order compares characters, not numbers: `"10"` < `"9"`, `"004"` < `"123"`, and a proper prefix sorts first |
| `JsText.FirstDifferenceDecides` | App.tsx:15 | for any strings sharing a prefix, the first differing character decides the order, whatever the lengths and numeric values of the rest |
| `JsText.PrefixFirst` | App.tsx:15 | a proper prefix sorts before every extension of it |
| `JsText.LessIrreflexive` | App.tsx:15 | no string sorts before itself |
| `JsText.LessTransitive` | App.tsx:15 | the sort order is transitive |
| `JsText.LessTotal` | App.tsx:15 | of two different strings, one sorts before the other |
| `JsText.LessEqAntisymmetric` | App.tsx:15 | two strings that each sort no later than the other are equal |
| `Blacklist.Insert` | App.tsx:15 | inserting into an ascending list gives an ascending list with the same elements plus the new one |
| `Blacklist.Sort` | App.tsx:15 | `.sort()` returns an ascending list that is a permutation of its input |
| `Blacklist.SortedUnique` | App.tsx:15 | two ascending permutations of the same elements are equal, so the sorted list does not depend on the engine's algorithm |
| `Blacklist.SortSorted` | App.tsx:15 | sorting a list that is already ascending leaves it unchanged |
| `Blacklist.AddContents` | App.tsx:14-15 | after an add, the list holds exactly the old numbers and the trimmed new one |
| `Blacklist.AddDistinct` | App.tsx:14-15 | adding an absent number to a duplicate-free list gives a duplicate-free list |
| `Blacklist.Without` | App.tsx:24 | the filtered list lacks the removed value, keeps every other element with its multiplicity, and equals the input when the value was absent |
| `Blacklist.WithoutIsSubsequence` | App.tsx:24 | the remaining numbers keep their original relative order |
| `Blacklist.WithoutSorted` | App.tsx:24 | removing from an ascending list leaves it ascending |
| `Blacklist.WithoutDistinct` | App.tsx:24 | removing from a duplicate-free list leaves it duplicate-free |
| `Blacklist.WithoutIdempotent` | App.tsx:24 | removing the same value twice removes nothing more |
| `Blacklist.AddThenRemove` | App.tsx:14-24 | adding a new number to any list and then removing it gives back that list sorted, and the list itself when it was ascending |
| `Blacklist.RemoveThenAdd` | App.tsx:14-24 | removing a listed number from a duplicate-free list and adding it back gives back that list sorted, and the list itself when it was ascending |
| `Widget.App.constructor` | App.tsx:7-10 | first render: the stored list, an empty field, no toast, not busy, no timer pending |
| `Widget.App.SetMessage` | App.tsx:37-42 | a new toast text cancels the running expiry timer and arms a fresh one; the same text again keeps the running timer |
| `Widget.App.TypeNumber` | App.tsx:65 | the field's `onChange` replaces the field's text and nothing else |
| `Widget.App.AddNumber` | App.tsx:12-21 | a non-blank, unlisted trimmed input is added and the list re-sorted, the field cleared and an "added" toast naming it shown; a listed one leaves list and field unchanged and shows an "already listed" toast naming it; anything else changes nothing; the list stays sorted and duplicate-free when it was |
| `Widget.App.Accept` | App.tsx:14-17 | the accepting branch: the list becomes the sorted old list plus the number, the field is cleared, the confirmation is shown |
| `Widget.App.RemoveNumber` | App.tsx:23-26 | the list becomes the filtered list (unchanged if the number was absent), the confirmation is shown either way, and sortedness and distinctness are kept |
| `Widget.App.SimulateEnabled` | App.tsx:104 | the button is enabled exactly when its `disabled` expression is false, that is when the widget is not busy and the list is not empty, so an enabled button always has at least one listed number to report |
| `Widget.App.ClickSimulate` | App.tsx:28-31 | a click starts the simulation exactly when `SimulateEnabled` held before it (not busy, list non-empty, line 104); it then sets the busy flag, shows "starting" and schedules the summary with the current list length; a disabled click changes nothing |
| `Widget.App.FinishSimulation` | App.tsx:31-34 | the callback clears the busy flag and reports the length captured at the click, not the current one |
| `Widget.App.ExpireMessage` | App.tsx:37-42 | only the live expiry timer clears the toast; a timer that was cancelled when the toast changed has no effect, so it never clears a newer toast |

## Left out

- Rendering (App.tsx:44-123): markup, styling and icons are presentation only.
  The model keeps the one rendering fact with behaviour: the `disabled` guard
  of the simulate button at line 104.
- The `useLocalStorage` hook (App.tsx:3, App.tsx:7): its source is not part of
  this model. It reads and writes browser storage and JSON. The list it loads
  is the constructor's `stored` argument. Writes back to storage are not
  modelled. A stored value that is not an array of strings is not modelled.
- Real time: the 2500 ms and 3000 ms delays are not modelled. A timer firing is
  a method call. `FinishSimulation` can be called only while its callback is
  pending. `ExpireMessage` takes the id of a timer that was armed.
- React mechanics: re-rendering, batching of setters in one handler, and the
  difference between the `prev` updater and the closure's `blacklist` at
  App.tsx:14-15 are not modelled. In a sequential run they coincide. The one
  closure effect that can be observed, the length captured at App.tsx:33, is
  modelled.
- Toast texts: a toast is a `Message` value, not its Spanish string. The
  model uses `Message` equality where React compares strings. That relies on
  distinct messages having distinct texts, which holds for the five templates
  but is not proved.
- `JsText.Less`: Dafny's `char` is a Unicode scalar value, whereas a JavaScript
  string is a sequence of UTF-16 code units. The two orders agree except
  between a character above U+FFFF and one in U+E000–U+FFFF. `trim` is
  unaffected.
- `JsText.IsWhitespace`: the space separators are those of Unicode category Zs
  at the time of writing; a later Unicode version could add to them.
- The Enter-key handler (App.tsx:66) calls the same `handleAddNumber` as the
  button, so `AddNumber` models both.
