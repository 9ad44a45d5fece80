/** The users collection: the documents registration writes and login looks up by email. */
module Users {
  import opened JsValues
  import opened Outcomes

  /** A stored user document `{ _id, email, password, full_name }`. */
  datatype User = User(id: string, email: JsValue, password: JsValue, fullName: JsValue)

  predicate EmailTaken(users: seq<User>, email: JsValue)
  {
    exists i :: 0 <= i < |users| && users[i].email == email
  }

  predicate IdTaken(users: seq<User>, id: string)
  {
    exists i :: 0 <= i < |users| && users[i].id == id
  }

  /** No two documents carry the same email. */
  predicate EmailsUnique(users: seq<User>)
  {
    forall i, j :: 0 <= i < j < |users| ==> users[i].email != users[j].email
  }

  /** No two documents carry the same `_id` (the collection's primary key). */
  predicate IdsUnique(users: seq<User>)
  {
    forall i, j :: 0 <= i < j < |users| ==> users[i].id != users[j].id
  }

  /** `findOne({ email })`: the earliest stored document whose email equals `email`. */
  function FindByEmail(users: seq<User>, email: JsValue): (r: Option<User>)
    ensures r.None? <==> !EmailTaken(users, email)
    ensures r.Some? ==>
      exists i :: 0 <= i < |users| && users[i] == r.value && r.value.email == email &&
        forall j :: 0 <= j < i ==> users[j].email != email
  {
    if users == [] then None
    else if users[0].email == email then Some(users[0])
    else
      var r := FindByEmail(users[1..], email);
      assert r.None? <==> !EmailTaken(users, email) by {
        if EmailTaken(users, email) {
          var k :| 0 <= k < |users| && users[k].email == email;
          assert users[1..][k - 1] == users[k];
        }
      }
      assert r.Some? ==>
               (exists i :: 1 <= i < |users| && users[i] == r.value && r.value.email == email &&
                  forall j :: 0 <= j < i ==> users[j].email != email) by {
        if r.Some? {
          var k :| 0 <= k < |users| - 1 && users[1..][k] == r.value && r.value.email == email &&
            forall j :: 0 <= j < k ==> users[1..][j].email != email;
          forall j | 0 <= j < k + 1 ensures users[j].email != email {
            if j > 0 { assert users[j] == users[1..][j - 1]; }
          }
          assert users[k + 1] == users[1..][k];
        }
      }
      r
  }

  /** With unique emails the lookup finds the one document that has the email. */
  lemma FindByEmailUnique(users: seq<User>, i: nat)
    requires EmailsUnique(users) && i < |users|
    ensures FindByEmail(users, users[i].email) == Some(users[i])
  {
    var r := FindByEmail(users, users[i].email);
    var k :| 0 <= k < |users| && users[k] == r.value && r.value.email == users[i].email &&
      forall j :: 0 <= j < k ==> users[j].email != users[i].email;
    assert k == i;
  }

  /** A document whose email no earlier document has is what the lookup finds after it is
      appended. */
  lemma FindAppended(users: seq<User>, u: User)
    requires !EmailTaken(users, u.email)
    ensures FindByEmail(users + [u], u.email) == Some(u)
  {
    var s := users + [u];
    var r := FindByEmail(s, u.email);
    assert s[|users|].email == u.email;
    var k :| 0 <= k < |s| && s[k] == r.value && r.value.email == u.email &&
      forall j :: 0 <= j < k ==> s[j].email != u.email;
    assert k == |users|;
  }

  /** The users collection, updated in place by `insertOne`. */
  class UserStore {
    /** The documents in insertion order. */
    var users: seq<User>

    /** The collection's primary-key invariant: every `_id` is stored at most once. */
    ghost predicate Valid()
      reads this
    {
      IdsUnique(users)
    }

    constructor ()
      ensures Valid() && users == []
    {
      users := [];
    }

    /** `insertOne(u)`: adds the document, unless its `_id` is already stored, in which
        case the database refuses it (duplicate key) and nothing changes. */
    method InsertOne(u: User) returns (ok: bool)
      requires Valid()
      modifies this
      ensures Valid()
      ensures ok <==> !IdTaken(old(users), u.id)
      ensures users == if ok then old(users) + [u] else old(users)
    {
      ok := !IdTaken(users, u.id);
      if ok {
        users := users + [u];
      }
    }
  }
}
