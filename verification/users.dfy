/**
 * The single entity of the store, `User`, the three-field form buffer that
 * edits it, and the two list operations the handlers apply to the user list:
 * replacing the editable fields of every entry with a given id (the `map` of
 * `updateUser`) and removing every entry with a given id (the `filter` of
 * `deleteUser`).
 */
module Users {
  import opened Wrappers

  /** A user record: a numeric id plus three editable text fields. */
  datatype User = User(id: int, name: string, email: string, phone: string)

  /** The form buffer: a user without its id. */
  datatype Form = Form(name: string, email: string, phone: string)

  /** The three inputs of the form. */
  datatype Field = Name | Email | Phone

  /** The form with every field cleared. */
  const EmptyForm := Form("", "", "")

  /** The `name` attribute of the input bound to a field. */
  function InputName(f: Field): (r: string)
    ensures |r| > 0
  {
    match f
    case Name => "name"
    case Email => "email"
    case Phone => "phone"
  }

  /** The field an input's `name` attribute designates, if any. */
  function FieldNamed(name: string): (r: Option<Field>)
    ensures r.Some? ==> InputName(r.value) == name
  {
    if name == "name" then Some(Name)
    else if name == "email" then Some(Email)
    else if name == "phone" then Some(Phone)
    else None
  }

  /** Every input name is read back as the field it belongs to. */
  lemma FieldNamedInputName(f: Field)
    ensures FieldNamed(InputName(f)) == Some(f)
  {
    match f
    case Name =>
    case Email =>
    case Phone =>
  }

  /** Distinct fields are bound to distinct inputs. */
  lemma InputNamesDistinct(f: Field, g: Field)
    ensures InputName(f) == InputName(g) <==> f == g
  {
    FieldNamedInputName(f);
    FieldNamedInputName(g);
  }

  /** The current value of one field of the form. */
  function Get(form: Form, f: Field): string
  {
    match f
    case Name => form.name
    case Email => form.email
    case Phone => form.phone
  }

  /** The form with one field set to `v`. */
  function Set(form: Form, f: Field, v: string): (r: Form)
    ensures Get(r, f) == v
    ensures forall g :: g != f ==> Get(r, g) == Get(form, g)
  {
    match f
    case Name => form.(name := v)
    case Email => form.(email := v)
    case Phone => form.(phone := v)
  }

  /** The form buffer filled from a user's editable fields. */
  function FormOf(u: User): (r: Form)
    ensures forall f :: Get(r, f) == FieldOf(u, f)
  {
    Form(u.name, u.email, u.phone)
  }

  /** The value of one editable field of a user. */
  function FieldOf(u: User, f: Field): string
  {
    match f
    case Name => u.name
    case Email => u.email
    case Phone => u.phone
  }

  /** A user made from the form buffer and an id. */
  function FromForm(form: Form, id: int): (r: User)
    ensures r.id == id
    ensures forall f :: FieldOf(r, f) == Get(form, f)
  {
    User(id, form.name, form.email, form.phone)
  }

  /** The user with its editable fields overwritten by the form; the id is kept. */
  function ApplyForm(u: User, form: Form): (r: User)
    ensures r.id == u.id
    ensures FormOf(r) == form
  {
    u.(name := form.name, email := form.email, phone := form.phone)
  }

  /** Some entry of the list carries the id. */
  predicate HasId(us: seq<User>, id: int)
  {
    exists i :: 0 <= i < |us| && us[i].id == id
  }

  /** No two entries of the list share an id. */
  predicate UniqueIds(us: seq<User>)
  {
    forall i, j :: 0 <= i < j < |us| ==> us[i].id != us[j].id
  }

  /** The number of entries that carry the id. */
  function CountId(us: seq<User>, id: int): (n: nat)
    ensures n <= |us|
    ensures n == 0 <==> !HasId(us, id)
  {
    if us == [] then 0
    else (if us[0].id == id then 1 else 0) + CountId(us[1..], id)
  }

  /** `a` is `b` with some entries dropped and the rest in their original order. */
  ghost predicate IsSubsequence<T>(a: seq<T>, b: seq<T>)
    decreases |b|
  {
    if a == [] then true
    else if b == [] then false
    else if a[0] == b[0] then IsSubsequence(a[1..], b[1..])
    else IsSubsequence(a, b[1..])
  }

  /**
   * The list with every entry carrying `id` removed, order kept; this is
   * `users.filter(u => u.id !== id)`.
   */
  function RemoveId(us: seq<User>, id: int): (r: seq<User>)
    ensures |r| <= |us|
    ensures forall i :: 0 <= i < |r| ==> r[i].id != id
    ensures forall u :: u in r <==> u in us && u.id != id
  {
    if us == [] then []
    else if us[0].id != id then [us[0]] + RemoveId(us[1..], id)
    else RemoveId(us[1..], id)
  }

  /**
   * The list with the form written over every entry carrying `id`; this is
   * `users.map(u => u.id === editing ? { ...u, ...form } : u)`.
   */
  function ReplaceWhereId(us: seq<User>, id: int, form: Form): (r: seq<User>)
    ensures |r| == |us|
    ensures forall i :: 0 <= i < |us| ==> r[i].id == us[i].id
    ensures forall i :: 0 <= i < |us| && us[i].id == id ==> FormOf(r[i]) == form
    ensures forall i :: 0 <= i < |us| && us[i].id != id ==> r[i] == us[i]
  {
    if us == [] then []
    else [if us[0].id == id then ApplyForm(us[0], form) else us[0]]
         + ReplaceWhereId(us[1..], id, form)
  }

  /** Removing drops exactly the entries that carry the id. */
  lemma {:induction false} RemoveIdLength(us: seq<User>, id: int)
    ensures |RemoveId(us, id)| == |us| - CountId(us, id)
  {
    if us != [] {
      RemoveIdLength(us[1..], id);
    }
  }

  /** With unique ids, a present id is carried by exactly one entry. */
  lemma {:induction false} UniqueCountOne(us: seq<User>, id: int)
    requires UniqueIds(us)
    requires HasId(us, id)
    ensures CountId(us, id) == 1
  {
    if us[0].id == id {
      assert !HasId(us[1..], id) by {
        forall i | 0 <= i < |us[1..]|
          ensures us[1..][i].id != id
        {
          assert us[1..][i] == us[i + 1];
        }
      }
    } else {
      var i :| 0 <= i < |us| && us[i].id == id;
      assert us[1..][i - 1] == us[i];
      UniqueCountOne(us[1..], id);
    }
  }

  /** The result of removing is an order-preserving subsequence of the input. */
  lemma {:induction false} RemoveIdSubsequence(us: seq<User>, id: int)
    ensures IsSubsequence(RemoveId(us, id), us)
  {
    if us != [] {
      RemoveIdSubsequence(us[1..], id);
      if us[0].id != id {
        assert RemoveId(us, id)[1..] == RemoveId(us[1..], id);
      } else {
        // the head carries `id`, so it cannot be the first kept entry
        assert RemoveId(us, id) == [] || RemoveId(us, id)[0] != us[0];
      }
    }
  }

  /** Removing an id no entry carries leaves the list as it was. */
  lemma {:induction false} RemoveAbsentId(us: seq<User>, id: int)
    requires !HasId(us, id)
    ensures RemoveId(us, id) == us
  {
    if us != [] {
      assert !HasId(us[1..], id) by {
        forall i | 0 <= i < |us[1..]|
          ensures us[1..][i].id != id
        {
          assert us[1..][i] == us[i + 1];
        }
      }
      RemoveAbsentId(us[1..], id);
    }
  }

  /** Removing the same id twice is the same as removing it once. */
  lemma RemoveIdIdempotent(us: seq<User>, id: int)
    ensures RemoveId(RemoveId(us, id), id) == RemoveId(us, id)
  {
    RemoveAbsentId(RemoveId(us, id), id);
  }

  /** Removing from a list with unique ids keeps the ids unique. */
  lemma {:induction false} RemoveIdKeepsUnique(us: seq<User>, id: int)
    requires UniqueIds(us)
    ensures UniqueIds(RemoveId(us, id))
  {
    if us != [] {
      var tail := us[1..];
      assert UniqueIds(tail) by {
        forall i, j | 0 <= i < j < |tail|
          ensures tail[i].id != tail[j].id
        {
          assert tail[i] == us[i + 1] && tail[j] == us[j + 1];
        }
      }
      RemoveIdKeepsUnique(tail, id);
      if us[0].id != id {
        var r := RemoveId(us, id);
        assert r[1..] == RemoveId(tail, id);
        forall j | 0 < j < |r|
          ensures r[0].id != r[j].id
        {
          assert r[j] in RemoveId(tail, id);
          assert r[j] in tail;
          var k :| 0 <= k < |tail| && tail[k] == r[j];
          assert tail[k] == us[k + 1];
        }
      }
    }
  }

  /** Overwriting fields never changes ids, so uniqueness is kept. */
  lemma ReplaceKeepsUnique(us: seq<User>, id: int, form: Form)
    requires UniqueIds(us)
    ensures UniqueIds(ReplaceWhereId(us, id, form))
  {
  }

  /** Overwriting fields under an id no entry carries leaves the list as it was. */
  lemma ReplaceAbsentId(us: seq<User>, id: int, form: Form)
    requires !HasId(us, id)
    ensures ReplaceWhereId(us, id, form) == us
  {
    var r := ReplaceWhereId(us, id, form);
    assert forall i :: 0 <= i < |us| ==> r[i] == us[i];
  }

  /** Writing a member's own fields back under its unique id leaves the list as it was. */
  lemma ReplaceWithOwnFields(us: seq<User>, u: User)
    requires UniqueIds(us)
    requires u in us
    ensures ReplaceWhereId(us, u.id, FormOf(u)) == us
  {
    var r := ReplaceWhereId(us, u.id, FormOf(u));
    var k :| 0 <= k < |us| && us[k] == u;
    forall i | 0 <= i < |us|
      ensures r[i] == us[i]
    {
      if us[i].id == u.id {
        assert i == k;
      }
    }
  }
}
