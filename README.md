# tracktui point entry, modelled in Dafny

This project models an early, single-file version of `tracktui`, a terminal program that plots
2-D points. In this version the user types points in and the program keeps them in a
list. The `App` state has two modes:

- **Normal**: `'a'` starts entering a point and `'q'` sets the exit flag.
- **AddingPoint**: two text buffers collect the x and the y coordinate. Only ASCII
  digits, `'.'` and `'-'` are let in. Backspace deletes the last character of the
  active buffer. Tab switches the buffer. Esc cancels. Enter parses both buffers and,
  if both are numbers, adds the point and re-sorts the list by x.

The model has three modules:

- `FloatText` (`float_text.dfy`) models `str::parse::<f64>` on buffer text. `ParseF64`
  gives `Some(v)` for `Ok(v)`. It covers only strings made of the admitted characters,
  which is all a buffer can hold.
- `PointList` (`point_list.dfy`) models the point vector and its stable sort by x.
  `StableSortOf(r, s)` says what a stable sort must produce. `StableSortUnique` proves
  that this fixes the result. `SortByX` is one such sort. `InsertByX` is what the sort
  does to a sorted list with one point pushed at the end.
- `Tracker` (`tracker.dfy`) models the `App` struct as a class with the same seven
  fields. Its methods change those fields in place, as the `&mut self` methods do.
  - `AppState` is the value of the seven fields, and `App.Snapshot()` reads it off
    the object.
  - The effect of each key is a pure function on `AppState`: `NormalStep`,
    `AddingStep` (with `Commit` for Enter) and `Step`, which dispatches on the mode.
    `Steps` folds `Step` over a key sequence. Each handler method ensures that its
    new state is the step function applied to its old state.
  - `StateValid` is the invariant every step keeps: the buffers hold only admitted
    characters, the points are sorted by x, and both buffers are empty in Normal
    mode. `App.Valid()` is this invariant on the current fields.

Other modelling choices:

- Coordinates are `real`.
- The status line is a `Message` datatype, one case per distinct status text. The
  success case carries the two values.
- Key codes become the `Key` datatype. Every code the handlers do not name is `Other`.

This model follows `src/main.rs`:

- The buffers have no length cap.
- `"3."` and `".5"` parse (Rust accepts either side of the point being empty).
- Esc sets a "cancelled" status.
- `bounds` of an empty list is negative infinity twice.

## Model

| member | source | states |
|---|---|---|
| `FloatText.ParseF64` | tracktui/src/main.rs:251 | `str::parse::<f64>` on a buffer: `Some(v)` for `Ok(v)`, `None` for `Err`. A buffer parses if and only if `'-'` occurs at most at the front, there is at most one `'.'`, and there is at least one digit, which is Rust's float grammar restricted to the admitted characters. The value is given by `ParseRender` and the lemmas below. |
| `FloatText.ParseRender` | tracktui/src/main.rs:251 | Any decimal typed as text (optional `'-'`, any number of leading zeros, whole digits, optionally `'.'` and k fraction digits, trailing zeros included) uses only admitted characters and parses to exactly its value. |
| `FloatText.TrailingPointIgnored` | tracktui/src/main.rs:251 | Digits followed by a bare `'.'` parse to the same result as the digits alone (`"3."` is 3). |
| `FloatText.LeadingPointIsZero` | tracktui/src/main.rs:251 | A `'.'` with no digits before it and at least one after parses as if a `0` came first (`".5"` is 0.5). |
| `FloatText.NegatedParse` | tracktui/src/main.rs:251 | A leading `'-'` negates the value of the rest of the buffer, and the buffer is rejected exactly when the rest is. |
| `FloatText.IncompleteInputsRejected` | tracktui/src/main.rs:251 | The empty buffer, `"-"`, `"."` and `"-."` do not parse, so Enter on them is the error path. |
| `FloatText.MalformedInputsRejected` | tracktui/src/main.rs:251 | A second point (`"1.2.3"`) or a sign after the first character (`"1-2"`) does not parse, although the filter admits every character in them. |
| `FloatText.PointAtEitherEndAccepted` | tracktui/src/main.rs:251 | `"3."` parses to 3 and `".5"` to 0.5. |
| `PointList.SortByX` | tracktui/src/main.rs:254 | The result is sorted by x, and for every x value it lists the points with that x in their input order. |
| `PointList.StableSortUnique` | tracktui/src/main.rs:254 | Two lists that are both sorted by x and agree on every equal-x group are equal, so push-then-stable-sort has exactly one outcome. |
| `PointList.StableSortPermutes` | tracktui/src/main.rs:253-254 | A stable sort's result holds the same points, with the same multiplicities, as its input. |
| `PointList.InsertByXSortsPush` | tracktui/src/main.rs:253-254 | On a sorted list, inserting p after the last point with x at most p's x is a stable sort of the list with p pushed at the end. |
| `PointList.InsertByXSorted` | tracktui/src/main.rs:253-254 | Inserting a point into a list sorted by x keeps it sorted. |
| `PointList.InsertByXStable` | tracktui/src/main.rs:253-254 | After insertion, every equal-x group is the old group with p appended if p has that x, and is unchanged otherwise. |
| `PointList.InsertByXElements` | tracktui/src/main.rs:253 | Insertion adds exactly one occurrence of p and keeps every other point. |
| `PointList.WithX` | tracktui/src/main.rs:254 | The equal-x group of a list holds only points of that list having that x, and is no longer than the list. |
| `Tracker.Toggle` | tracktui/src/main.rs:225-236 | Tab always switches to the other field. With two fields, pressing it twice gives back the first. |
| `Tracker.Pop` | tracktui/src/main.rs:219-224 | Backspace removes exactly the last character, and does nothing to an empty buffer. |
| `Tracker.Max` | tracktui/src/main.rs:85-86 | `f64::max` of an accumulator and a coordinate is at least both, equals one of them, and equals the coordinate when the accumulator is negative infinity. |
| `Tracker.Initial` | tracktui/src/main.rs:46-51 | The initial state (no points, Normal mode, field X, empty buffers, instructions as status, no exit) satisfies the invariant. |
| `Tracker.WithActive` | tracktui/src/main.rs:213-224 | Writing the active buffer sets that buffer and leaves the other buffer, the field, the mode, the points, the status and the exit flag alone. |
| `Tracker.NormalStep` | tracktui/src/main.rs:197-209 | A key in Normal mode keeps the invariant and never changes the points. |
| `Tracker.Commit` | tracktui/src/main.rs:250-265 | Enter keeps the invariant, whether the point is added or rejected. |
| `Tracker.CommitEffect` | tracktui/src/main.rs:250-265 | If both buffers parse: the new list is a stable sort of the old list plus (x, y), a permutation of it one point longer, and equal to `InsertByX`; the mode returns to Normal, the buffers are cleared, and the status is Added(x, y). Otherwise only the status changes, to the error. The field and the exit flag never change. |
| `Tracker.AddingStep` | tracktui/src/main.rs:211-248 | A key during point entry keeps the invariant and never changes the exit flag. |
| `Tracker.Step` | tracktui/src/main.rs:185-195 | One key press keeps the invariant, and a set exit flag stays set. |
| `Tracker.Steps` | tracktui/src/main.rs:53-59 | Handling any sequence of keys from a valid state ends in a valid state: the points stay sorted and the buffers filtered. |
| `Tracker.ExitStays` | tracktui/src/main.rs:53-59 | Once exit is set, no sequence of keys clears it. |
| `Tracker.App.constructor` | tracktui/src/main.rs:46-51 | The new object's fields are the initial state, and the invariant holds. |
| `Tracker.App.HandleEvent` | tracktui/src/main.rs:185-195 | Keeps the invariant, and the new fields are `Step` of the old fields and the key. |
| `Tracker.App.HandleNormalInput` | tracktui/src/main.rs:197-209 | The new fields are `NormalStep` of the old: `'q'` sets exit only; `'a'` enters AddingPoint with field X, both buffers cleared and the enter-x status; any other key changes nothing. |
| `Tracker.App.HandleAddingPointInput` | tracktui/src/main.rs:211-248 | The new fields are `AddingStep` of the old: an admitted character is appended to the active buffer only, and any other character or unnamed key changes nothing; Backspace pops the active buffer; Tab switches the field and sets that field's prompt; Enter commits; Esc returns to Normal with both buffers cleared and the cancelled status. The invariant is kept. |
| `Tracker.App.TryAddPoint` | tracktui/src/main.rs:250-265 | Pushing the point and sorting with `SortByX` gives exactly `Commit` of the old fields, so `CommitEffect` describes the new state. The invariant is kept. |
| `Tracker.App.Bounds` | tracktui/src/main.rs:80-90 | Empty list: negative infinity for both. Otherwise the largest x and the largest y, each attained by some point. On a sorted list the x bound is the last point's x. |
| `Tracker.Run` | tracktui/src/main.rs:53-59 | The final fields are `Steps` of the initial state over the first `handled` keys. Exit was not set before any of those keys. Fewer keys are handled than given only when exit is set. The invariant holds at the end. |
| `Tracker.TypeText` | tracktui/src/main.rs:213-218 | Typing admitted text appends exactly that text to the active buffer and leaves the other buffer, the field and the points alone. |
| `Tracker.EnterPoint` | tracktui/src/main.rs:197-265 | 'a', x text, Tab, y text, Enter adds the parsed point at its sorted place exactly when both texts parse. Otherwise the points are unchanged, entry continues, and both texts are kept. |
| `Tracker.PressTabTwice` | tracktui/src/main.rs:225-236 | Two Tabs give back the original field and leave the buffers, the mode and the points unchanged. |

## Left out

- Drawing is not modelled: `draw`, `draw_graph`, `draw_input` (including the cursor column), `labels` and the instruction panel. They only build terminal widgets.
- `main`, terminal setup and teardown, and error reporting are not modelled.
- `event::read` is not modelled. `Run` takes the key presses as a sequence and skips drawing between them.
- Non-key events and key events that are not presses, which `handle_events` ignores, are not modelled. The model's keys are the presses.
- The status text is compared only by which case set it. Formatting the added point with two decimals is not modelled.
- `ParseF64`: does not model rounding to the nearest `f64`. It also does not model a digit string so long that Rust gives infinity. The model's value is the exact decimal. There is no NaN in either.
- `ParseF64`: requires the text to hold only admitted characters. Signs `'+'`, exponents and `inf`/`nan` spellings are outside the model, because the key filter keeps them out of the buffers.
- `SortByX`: is an insertion sort, not the standard library's merge sort. `StableSortUnique` shows every stable sort gives the same list. The comparison is on exact reals, so the `partial_cmp(..).unwrap()` panic on NaN has no counterpart (and the filtered buffers cannot produce NaN).
- `Tracker.App.HandleAddingPointInput`: requires AddingPoint mode, which is the only mode its one caller, the dispatch in `handle_events`, calls it in. `Tracker.AddingStep` requires the same.
