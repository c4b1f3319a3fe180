# react-crud-ts: the user store and form controller

This project models, in Dafny, the client-side CRUD store of the `App`
component in `App.tsx`. The component holds four pieces of React state:

- the user list `users`,
- the form buffer `form` with `name`, `email` and `phone`,
- the editing marker `editing` (`number | null`),
- the `loading` flag.

Every handler is a pure function from the state before an event to the state
after it. Each `setX(v)` call reads as the assignment `x := v`.

- `handleChange` writes one form field.
- `createUser` prepends a user built from the form.
- `startEdit` loads a user into the form and sets the marker.
- `updateUser` overwrites every entry that carries the marked id.
- `deleteUser` filters out every entry that carries an id.
- The form's `onSubmit` binding picks `updateUser` or `createUser` by testing whether `editing` is truthy. The button caption uses the same test.

Files:

- `wrappers.dfy` holds `Option`, which stands for `T | null`.
- `users.dfy` holds the `User` record, the form buffer, and the two list operations with their lemmas.
- `app.dfy` holds the component `State`, one function per handler, the submit dispatch, the caption, the end of the fetch, and the lemmas about them.

Modelling choices:

- **Fresh ids.** The value of `Date.now()` is a parameter, `freshId`. Nothing assumes it is unused. `CreateKeepsUniqueIff` shows that uniqueness of ids survives a create exactly when the id is new.
- **Truthiness.** The dispatch and the caption test whether `editing` is truthy, not whether it is non-null. So a marker of `0` behaves as create-mode: submitting creates a user and leaves the marker at `0` (`ZeroMarkerActsAsCreate`). `updateUser` itself tests `editing === null`. Both tests are modelled as written.
- **Deleting the edited user.** `deleteUser` leaves the marker alone. It can therefore point at an id that no entry carries any more (`DeleteLeavesMarkerDangling`, `EditThenDeleteDangles`). This behaviour is modelled as written, not fixed.
- **The fetch.** It becomes a `FetchOutcome` parameter. On failure the code leaves the list as it was; it does not clear it. From the mount state the list is already empty, so a failed fetch then shows an empty list (`LoadFromInitial`).

## Model

| member | source | states |
|---|---|---|
| Users.InputName | App.tsx:66-86 | each of the three inputs has a non-empty `name` attribute |
| Users.FieldNamed | App.tsx:26-28 | a `name` attribute read back as a field names the input it came from |
| Users.FieldNamedInputName | App.tsx:66-86 | the input names `name`, `email`, `phone` each read back as their own field |
| Users.InputNamesDistinct | App.tsx:66-86 | two inputs share a `name` attribute exactly when they edit the same field |
| Users.Set | App.tsx:27 | the spread `{ ...form, [name]: value }` sets the named field and keeps the other two |
| Users.FormOf | App.tsx:39 | the form loaded from a user holds exactly that user's name, email and phone |
| Users.FromForm | App.tsx:32 | a new user carries the form's three fields and the supplied id |
| Users.ApplyForm | App.tsx:45 | `{ ...u, ...form }` keeps the id and takes all three editable fields from the form |
| Users.CountId | App.tsx:51 | the number of entries carrying an id is zero exactly when no entry carries it |
| Users.RemoveId | App.tsx:51 | the filter never grows the list, keeps no entry with the id, and keeps every entry with a different id |
| Users.ReplaceWhereId | App.tsx:45 | the map keeps the length and each position's id, writes the form over every entry with the id, and leaves the others unchanged |
| Users.RemoveIdLength | App.tsx:51 | the filter shortens the list by exactly the number of entries carrying the id |
| Users.UniqueCountOne | App.tsx:51 | with unique ids, a present id is carried by exactly one entry |
| Users.RemoveIdSubsequence | App.tsx:51 | the filtered list is an order-preserving subsequence of the original |
| Users.RemoveAbsentId | App.tsx:51 | filtering out an id that no entry carries leaves the list unchanged |
| Users.RemoveIdIdempotent | App.tsx:51 | filtering out the same id twice equals filtering it out once |
| Users.RemoveIdKeepsUnique | App.tsx:51 | filtering keeps ids unique |
| Users.ReplaceKeepsUnique | App.tsx:45 | the map keeps ids unique |
| Users.ReplaceAbsentId | App.tsx:45 | mapping under an id that no entry carries leaves the list unchanged |
| Users.ReplaceWithOwnFields | App.tsx:37-47 | with unique ids, writing a listed user's own fields back under its id leaves the list unchanged |
| App.Initial | App.tsx:7-10 | on mount the list is empty, the form is empty, no id is being edited and loading is on |
| App.HandleChange | App.tsx:26-28 | a change sets the one named field and leaves the other two fields, the list, the marker and the loading flag unchanged |
| App.HandleInput | App.tsx:26-28 | a change event from an input acts on exactly the field bound to that input's name |
| App.InputNamesDistinctAll | App.tsx:66-86 | only one field is bound to each input name |
| App.CreateUser | App.tsx:30-35 | the list grows by one, its head has the form's fields and the fresh id, its tail is the old list, the form is cleared, and the marker is untouched |
| App.StartEdit | App.tsx:37-40 | the marker becomes the user's id, the form holds that user's fields, and the list is unchanged |
| App.UpdateUser | App.tsx:42-48 | with no marker nothing changes; otherwise ids and length are kept, entries with the marked id take the form's fields, other entries are unchanged, and the marker and form are cleared |
| App.DeleteUser | App.tsx:50-52 | no entry with the id survives, every other entry does, and the form and marker are unchanged |
| App.Dispatch | App.tsx:63 | the form is bound to `updateUser` exactly when the marker is non-null and non-zero |
| App.Submit | App.tsx:62-63 | submitting runs `updateUser` exactly when the marker is truthy, and then keeps the list length, clears the marker and clears the form; otherwise it prepends a user built from the form under the fresh id and leaves the marker as it was |
| App.SubmitLabel | App.tsx:90 | the caption reads "Update User" exactly when submit dispatches to `updateUser`, and "Create User" otherwise |
| App.Load | App.tsx:12-24 | a successful fetch replaces the list with the data, a failed one keeps the list, and loading stops either way |
| App.SubmitRunsUpdateIffTruthy | App.tsx:63 | submitting equals running `updateUser` exactly when the marker is truthy, and equals running `createUser` exactly when it is not |
| App.ZeroMarkerActsAsCreate | App.tsx:63 | with a marker of 0 the caption says "Create User", a submit prepends a new user, and the marker stays 0 |
| App.DeleteUndoesCreate | App.tsx:30-52 | creating under an unused id and then deleting that id restores the list |
| App.CreateKeepsUniqueIff | App.tsx:32-33 | creating keeps ids unique exactly when the fresh id is not already in the list |
| App.TransitionsKeepUniqueIds | App.tsx:26-52 | delete, update, begin-edit and field changes keep ids unique |
| App.DeleteRemovesExactlyOne | App.tsx:50-52 | with unique ids, deleting a present id removes exactly one entry |
| App.DeleteKeepsOrder | App.tsx:50-52 | the entries that survive a delete keep their order |
| App.DeleteAbsentAndTwice | App.tsx:50-52 | deleting an absent id changes no state, and deleting twice equals deleting once |
| App.DeleteLeavesMarkerDangling | App.tsx:50-52 | deleting the id under edit keeps the marker, which then names no entry |
| App.EditThenDeleteDangles | App.tsx:37-52 | an example run where editing and then deleting the only user leaves a marker that names no entry |
| App.MarkerResolvesAfterEditAndUpdate | App.tsx:37-48 | beginning an edit on a listed user sets a marker that names an entry, and an update clears it |
| App.EditThenSubmitUpdates | App.tsx:37-48 | beginning an edit on a user with a truthy id and submitting writes that user's fields over the entries with its id, leaves the rest, and returns to create-mode |
| App.EditThenSubmitUnchangedIsIdentity | App.tsx:37-48 | with unique ids, editing a listed user and submitting without changes leaves the list unchanged |
| App.HandleChangeLastWins | App.tsx:26-28 | two changes to one field keep only the second value |
| App.HandleChangeCommutes | App.tsx:26-28 | changes to two different fields give the same state in either order |
| App.HandleChangeSameValue | App.tsx:26-28 | re-entering a field's current value changes nothing |
| App.LoadFromInitial | App.tsx:7-24 | from the mount state, a failed fetch leaves an empty list with loading off, a successful one shows the data in the order received, and the caption is "Create User" |

## Left out

- The network request in `useEffect` (`axios.get`, `console.error`) is left out as I/O. Only its two outcomes are modelled, as `FetchOutcome`.
- `Date.now()` is a clock. It is replaced by the caller-supplied `freshId`.
- `e.preventDefault()` and the event objects are left out. They do not affect the state.
- All JSX rendering, the table and the styling are left out as UI only. The mode test on lines 63 and 90 is kept.
- React hook semantics are left out. These include batching of `setState`, stale closures, and a fetch that completes after unmount. Each handler reads as an atomic transition on the current state.
- `number` is modelled as an unbounded `int`. Fractional ids and `NaN` are not modelled, although `NaN` would also be falsy.
- The endpoint's records carry more JSON fields than `id`, `name`, `email` and `phone`. `User` keeps only these four, so the fact that `{ ...u, ...form }` carries the extra fields through is not modelled.
- App.HandleInput: a `name` that matches none of the three inputs would add a key to the form object in JavaScript; the spreads on lines 32 and 45 would copy it into created or updated users, but nothing displays it. The model leaves the state unchanged instead. No input of the component has such a name.
