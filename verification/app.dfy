/**
 * The client-side CRUD store and form controller of the `App` component.
 *
 * The component's four pieces of React state become one immutable `State`
 * record, and every handler becomes a pure function from the state before the
 * event to the state after it (each `setX(v)` reads as `x := v`). The clock
 * behind `Date.now()` is replaced by a caller-supplied `freshId`, and the
 * network fetch by a `FetchOutcome` parameter.
 */
module App {
  import opened Wrappers
  import opened Users

  /** The component state: the list, the form buffer, the editing marker and the loading flag. */
  datatype State = State(users: seq<User>, form: Form, editing: Option<int>, loading: bool)

  /** The two submit handlers the form can be bound to. */
  datatype Handler = CreateHandler | UpdateHandler

  /** What the single fetch on mount produced. */
  datatype FetchOutcome = Fetched(data: seq<User>) | FetchFailed

  /** The state on mount: no users, an empty form, create-mode, loading. */
  function Initial(): (s: State)
    ensures s.users == [] && s.form == EmptyForm
    ensures s.editing.None? && s.loading
  {
    State([], EmptyForm, None, true)
  }

  /**
   * JavaScript truthiness of a `number | null`: `null` and `0` are falsy.
   * (Ids are integers here, so `NaN` does not arise.)
   */
  predicate Truthy(editing: Option<int>)
  {
    editing.Some? && editing.value != 0
  }

  /** `handleChange`: one form field takes the typed value. */
  function HandleChange(s: State, f: Field, v: string): (r: State)
    ensures Get(r.form, f) == v
    ensures forall g :: g != f ==> Get(r.form, g) == Get(s.form, g)
    ensures r.users == s.users && r.editing == s.editing && r.loading == s.loading
  {
    s.(form := Set(s.form, f, v))
  }

  /** A change event from the input whose `name` attribute is `name`. */
  function HandleInput(s: State, name: string, v: string): (r: State)
    ensures forall f :: InputName(f) == name ==> r == HandleChange(s, f, v)
    ensures (forall f :: InputName(f) != name) ==> r == s
  {
    match FieldNamed(name)
    case Some(f) => InputNamesDistinctAll(f); HandleChange(s, f, v)
    case None => s
  }

  /** Helper for `HandleInput`: a field is the only one bound to its input name. */
  lemma InputNamesDistinctAll(f: Field)
    ensures forall g :: InputName(g) == InputName(f) ==> g == f
  {
    forall g | InputName(g) == InputName(f)
      ensures g == f
    {
      InputNamesDistinct(f, g);
    }
  }

  /** `createUser`: prepend a user made from the form under `freshId`, then clear the form. */
  function CreateUser(s: State, freshId: int): (r: State)
    ensures |r.users| == |s.users| + 1
    ensures r.users[0].id == freshId && FormOf(r.users[0]) == s.form
    ensures r.users[1..] == s.users
    ensures r.form == EmptyForm
    ensures r.editing == s.editing && r.loading == s.loading
  {
    s.(users := [FromForm(s.form, freshId)] + s.users, form := EmptyForm)
  }

  /** `startEdit(u)`: remember `u`'s id and load its fields into the form. */
  function StartEdit(s: State, u: User): (r: State)
    ensures r.editing == Some(u.id)
    ensures forall f :: Get(r.form, f) == FieldOf(u, f)
    ensures r.users == s.users && r.loading == s.loading
  {
    s.(editing := Some(u.id), form := FormOf(u))
  }

  /**
   * `updateUser`: with no marker, nothing happens; otherwise every entry
   * carrying the marked id takes the form's fields, and the marker and the
   * form are cleared.
   */
  function UpdateUser(s: State): (r: State)
    ensures s.editing.None? ==> r == s
    ensures s.editing.Some? ==> r.editing.None? && r.form == EmptyForm
    ensures |r.users| == |s.users| && r.loading == s.loading
    ensures forall i :: 0 <= i < |s.users| ==> r.users[i].id == s.users[i].id
    ensures s.editing.Some? ==>
      forall i :: 0 <= i < |s.users| && s.users[i].id == s.editing.value ==>
        FormOf(r.users[i]) == s.form
    ensures forall i :: 0 <= i < |s.users| && Some(s.users[i].id) != s.editing ==>
      r.users[i] == s.users[i]
  {
    match s.editing
    case None => s
    case Some(k) =>
      s.(users := ReplaceWhereId(s.users, k, s.form), editing := None, form := EmptyForm)
  }

  /** `deleteUser(id)`: drop every entry carrying `id`; the marker and the form are left alone. */
  function DeleteUser(s: State, id: int): (r: State)
    ensures !HasId(r.users, id)
    ensures forall u :: u in r.users <==> u in s.users && u.id != id
    ensures |r.users| <= |s.users|
    ensures r.form == s.form && r.editing == s.editing && r.loading == s.loading
  {
    s.(users := RemoveId(s.users, id))
  }

  /** The handler `onSubmit` is bound to: update exactly when the marker is truthy. */
  function Dispatch(s: State): (h: Handler)
    ensures h == UpdateHandler <==> s.editing.Some? && s.editing.value != 0
  {
    if Truthy(s.editing) then UpdateHandler else CreateHandler
  }

  /**
   * Submitting the form: with a truthy marker the list keeps its length and
   * the controller returns to create-mode; otherwise a new user is prepended
   * and the marker is left as it was.
   */
  function Submit(s: State, freshId: int): (r: State)
    ensures r == UpdateUser(s) <==> Truthy(s.editing)
    ensures Truthy(s.editing) ==> |r.users| == |s.users| && r.editing.None? && r.form == EmptyForm
    ensures !Truthy(s.editing) ==> r.users == [FromForm(s.form, freshId)] + s.users && r.editing == s.editing
  {
    match Dispatch(s)
    case UpdateHandler => UpdateUser(s)
    case CreateHandler => CreateUser(s, freshId)
  }

  /** The submit button's caption. */
  function SubmitLabel(s: State): (caption: string)
    ensures caption == "Update User" <==> Dispatch(s) == UpdateHandler
    ensures caption == "Create User" <==> Dispatch(s) == CreateHandler
  {
    if Truthy(s.editing) then "Update User" else "Create User"
  }

  /** The end of the fetch on mount: the list is replaced on success, and loading stops either way. */
  function Load(s: State, outcome: FetchOutcome): (r: State)
    ensures outcome.Fetched? ==> r.users == outcome.data
    ensures outcome.FetchFailed? ==> r.users == s.users
    ensures !r.loading
    ensures r.form == s.form && r.editing == s.editing
  {
    match outcome
    case Fetched(data) => s.(users := data, loading := false)
    case FetchFailed => s.(loading := false)
  }

  /** The marker is unset or names an entry that is in the list. */
  predicate MarkerResolves(s: State)
  {
    s.editing.None? || HasId(s.users, s.editing.value)
  }

  // ---------------------------------------------------------------------------
  // Properties of the transitions
  // ---------------------------------------------------------------------------

  /** Submitting equals `updateUser` exactly when the marker is truthy, and `createUser` exactly when it is not. */
  lemma SubmitRunsUpdateIffTruthy(s: State, freshId: int)
    ensures Submit(s, freshId) == UpdateUser(s) <==> Truthy(s.editing)
    ensures Submit(s, freshId) == CreateUser(s, freshId) <==> !Truthy(s.editing)
  {
    assert |UpdateUser(s).users| != |CreateUser(s, freshId).users|;
  }

  /** A marker of `0` is falsy: submitting creates, and the marker stays where it was. */
  lemma ZeroMarkerActsAsCreate(s: State, freshId: int)
    requires s.editing == Some(0)
    ensures SubmitLabel(s) == "Create User"
    ensures Submit(s, freshId).users == [FromForm(s.form, freshId)] + s.users
    ensures Submit(s, freshId).editing == Some(0)
  {
    assert Submit(s, freshId).users[1..] == s.users;
  }

  /** Creating under an id not yet in the list and then deleting that id restores the list. */
  lemma DeleteUndoesCreate(s: State, freshId: int)
    requires !HasId(s.users, freshId)
    ensures DeleteUser(CreateUser(s, freshId), freshId).users == s.users
  {
    var c := CreateUser(s, freshId);
    assert c.users == [c.users[0]] + s.users;
    RemoveAbsentId(s.users, freshId);
  }

  /** Creating keeps ids unique exactly when the fresh id is not already used. */
  lemma CreateKeepsUniqueIff(s: State, freshId: int)
    requires UniqueIds(s.users)
    ensures UniqueIds(CreateUser(s, freshId).users) <==> !HasId(s.users, freshId)
  {
    var us := CreateUser(s, freshId).users;
    if HasId(s.users, freshId) {
      var i :| 0 <= i < |s.users| && s.users[i].id == freshId;
      assert us[i + 1] == s.users[i];
    } else {
      forall i, j | 0 <= i < j < |us|
        ensures us[i].id != us[j].id
      {
        assert us[j] == s.users[j - 1];
        if i > 0 {
          assert us[i] == s.users[i - 1];
        }
      }
    }
  }

  /** Deleting, updating and editing never break unique ids. */
  lemma TransitionsKeepUniqueIds(s: State, id: int, u: User, f: Field, v: string)
    requires UniqueIds(s.users)
    ensures UniqueIds(DeleteUser(s, id).users)
    ensures UniqueIds(UpdateUser(s).users)
    ensures UniqueIds(StartEdit(s, u).users)
    ensures UniqueIds(HandleChange(s, f, v).users)
  {
    RemoveIdKeepsUnique(s.users, id);
    if s.editing.Some? {
      ReplaceKeepsUnique(s.users, s.editing.value, s.form);
    }
  }

  /** With unique ids, deleting a present id removes exactly one entry. */
  lemma DeleteRemovesExactlyOne(s: State, id: int)
    requires UniqueIds(s.users)
    requires HasId(s.users, id)
    ensures |DeleteUser(s, id).users| == |s.users| - 1
  {
    RemoveIdLength(s.users, id);
    UniqueCountOne(s.users, id);
  }

  /** Deleting keeps the surviving entries in their original order. */
  lemma DeleteKeepsOrder(s: State, id: int)
    ensures IsSubsequence(DeleteUser(s, id).users, s.users)
  {
    RemoveIdSubsequence(s.users, id);
  }

  /** Deleting an id nobody carries changes nothing; deleting twice is deleting once. */
  lemma DeleteAbsentAndTwice(s: State, id: int)
    ensures !HasId(s.users, id) ==> DeleteUser(s, id) == s
    ensures DeleteUser(DeleteUser(s, id), id) == DeleteUser(s, id)
  {
    if !HasId(s.users, id) {
      RemoveAbsentId(s.users, id);
    }
    RemoveIdIdempotent(s.users, id);
  }

  /** Deleting the entry under edit leaves the marker pointing at an id no entry carries. */
  lemma DeleteLeavesMarkerDangling(s: State)
    requires s.editing.Some?
    ensures DeleteUser(s, s.editing.value).editing == s.editing
    ensures !MarkerResolves(DeleteUser(s, s.editing.value))
  {
  }

  /** A concrete run: edit the only user, delete it, and the marker no longer resolves. */
  lemma EditThenDeleteDangles()
    ensures var u := User(1, "A", "a@x.com", "1");
            var s := StartEdit(Initial().(users := [u]), u);
            MarkerResolves(s) && !MarkerResolves(DeleteUser(s, 1))
  {
    var u := User(1, "A", "a@x.com", "1");
    var s := StartEdit(Initial().(users := [u]), u);
    assert s.users[0].id == 1;
  }

  /** Starting an edit on a listed user makes the marker resolve; an update clears it. */
  lemma MarkerResolvesAfterEditAndUpdate(s: State, u: User)
    requires u in s.users
    ensures MarkerResolves(StartEdit(s, u))
    ensures MarkerResolves(UpdateUser(StartEdit(s, u)))
  {
    var i :| 0 <= i < |s.users| && s.users[i] == u;
    assert StartEdit(s, u).users[i].id == u.id;
  }

  /**
   * Editing a user with a truthy id and submitting writes the form (as loaded
   * from that user) over every entry with its id and returns to create-mode.
   */
  lemma EditThenSubmitUpdates(s: State, u: User, freshId: int)
    requires u.id != 0
    ensures var r := Submit(StartEdit(s, u), freshId);
      && |r.users| == |s.users|
      && (forall i :: 0 <= i < |s.users| && s.users[i].id == u.id ==> r.users[i] == ApplyForm(s.users[i], FormOf(u)))
      && (forall i :: 0 <= i < |s.users| && s.users[i].id != u.id ==> r.users[i] == s.users[i])
      && r.editing.None? && r.form == EmptyForm
  {
    var e := StartEdit(s, u);
    var r := Submit(e, freshId);
    forall i | 0 <= i < |s.users| && s.users[i].id == u.id
      ensures r.users[i] == ApplyForm(s.users[i], FormOf(u))
    {
      assert r.users[i].id == s.users[i].id;
      assert FormOf(r.users[i]) == FormOf(u);
    }
  }

  /** With unique ids, editing a listed user and submitting without changes leaves the list as it was. */
  lemma EditThenSubmitUnchangedIsIdentity(s: State, u: User, freshId: int)
    requires UniqueIds(s.users)
    requires u in s.users
    requires u.id != 0
    ensures Submit(StartEdit(s, u), freshId).users == s.users
  {
    ReplaceWithOwnFields(s.users, u);
  }

  /** Typing into a field twice keeps only the second value. */
  lemma HandleChangeLastWins(s: State, f: Field, v: string, w: string)
    ensures HandleChange(HandleChange(s, f, v), f, w) == HandleChange(s, f, w)
  {
    match f
    case Name =>
    case Email =>
    case Phone =>
  }

  /** Typing into two different fields gives the same form in either order. */
  lemma HandleChangeCommutes(s: State, f: Field, g: Field, v: string, w: string)
    requires f != g
    ensures HandleChange(HandleChange(s, f, v), g, w) == HandleChange(HandleChange(s, g, w), f, v)
  {
    match f
    case Name =>
    case Email =>
    case Phone =>
  }

  /** Re-entering a field's current value changes nothing. */
  lemma HandleChangeSameValue(s: State, f: Field)
    ensures HandleChange(s, f, Get(s.form, f)) == s
  {
    match f
    case Name =>
    case Email =>
    case Phone =>
  }

  /** From the mount state, a failed fetch leaves an empty list and stops loading; a successful one shows the data as received. */
  lemma LoadFromInitial(data: seq<User>)
    ensures Load(Initial(), FetchFailed).users == [] && !Load(Initial(), FetchFailed).loading
    ensures Load(Initial(), Fetched(data)).users == data
    ensures SubmitLabel(Initial()) == "Create User"
  {
  }
}
