/** Pre-validation of a request body against a dispatch table of validators, as
    `validateLoginData` and `validateRegisterData` do it: the body's properties are walked
    in enumeration order, and the first one that has a validator and whose value is falsy
    or fails that validator stops the walk with an error naming its key. */
module FieldValidation {
  import opened JsValues
  import opened Requests
  import opened Outcomes

  /** A validator of `utils/validator`, taken as an uninterpreted test of a value. */
  type Validator = JsValue -> bool

  /** The `validators` object: field name to the validator that checks it. */
  type Table = map<string, Validator>

  /** The loop's test for one property: a validator exists for its key, and its value
      is falsy or fails that validator. */
  predicate Rejects(table: Table, f: Field)
  {
    f.key in table && (!Truthy(f.value) || !table[f.key](f.value))
  }

  /** The key the loop throws for (the first rejected property in enumeration order),
      or None when the loop runs to its end. */
  function FirstRejected(table: Table, fields: seq<Field>): (r: Option<string>)
    ensures r.None? <==> forall i :: 0 <= i < |fields| ==> !Rejects(table, fields[i])
    ensures r.Some? ==>
      exists i :: 0 <= i < |fields| && fields[i].key == r.value && Rejects(table, fields[i]) &&
        forall j :: 0 <= j < i ==> !Rejects(table, fields[j])
  {
    if fields == [] then None
    else if Rejects(table, fields[0]) then Some(fields[0].key)
    else
      var r := FirstRejected(table, fields[1..]);
      assert r.Some? ==>
               (exists i :: 1 <= i < |fields| && fields[i].key == r.value && Rejects(table, fields[i]) &&
                  forall j :: 0 <= j < i ==> !Rejects(table, fields[j])) by {
        if r.Some? {
          var k :| 0 <= k < |fields| - 1 && fields[1..][k].key == r.value && Rejects(table, fields[1..][k]) &&
            forall j :: 0 <= j < k ==> !Rejects(table, fields[1..][j]);
          assert forall j :: 0 <= j < k + 1 ==> !Rejects(table, fields[j]) by {
            forall j | 0 <= j < k + 1 ensures !Rejects(table, fields[j]) {
              if j > 0 { assert fields[j] == fields[1..][j - 1]; }
            }
          }
          assert fields[k + 1] == fields[1..][k];
        }
      }
      r
  }

  /** The properties that have a validator, in their original order. */
  function Validated(table: Table, fields: seq<Field>): (s: seq<Field>)
    ensures forall i :: 0 <= i < |s| ==> s[i].key in table
  {
    if fields == [] then []
    else if fields[0].key in table then [fields[0]] + Validated(table, fields[1..])
    else Validated(table, fields[1..])
  }

  /** Properties without a validator never decide the outcome: dropping them all leaves
      the verdict, and the key it names, as they were. */
  lemma {:induction false} OnlyValidatedKeysMatter(table: Table, fields: seq<Field>)
    ensures FirstRejected(table, Validated(table, fields)) == FirstRejected(table, fields)
  {
    if fields != [] {
      OnlyValidatedKeysMatter(table, fields[1..]);
      if fields[0].key in table {
        var s := [fields[0]] + Validated(table, fields[1..]);
        assert s[0] == fields[0] && s[1..] == Validated(table, fields[1..]);
      }
    }
  }

  /** A property whose key has no validator, appended at the end of the body, is ignored. */
  lemma {:induction false} ExtraKeyIgnored(table: Table, fields: seq<Field>, extra: Field)
    requires extra.key !in table
    ensures FirstRejected(table, fields + [extra]) == FirstRejected(table, fields)
  {
    if fields == [] {
      assert [] + [extra] == [extra];
    } else {
      assert (fields + [extra])[1..] == fields[1..] + [extra];
      ExtraKeyIgnored(table, fields[1..], extra);
    }
  }

  /** A larger table (the same validators plus others) rejects every body the smaller
      one rejects. */
  lemma LargerTableRejectsMore(small: Table, large: Table, fields: seq<Field>)
    requires forall k :: k in small ==> k in large && large[k] == small[k]
    requires FirstRejected(large, fields).None?
    ensures FirstRejected(small, fields).None?
  {
    forall i | 0 <= i < |fields| ensures !Rejects(small, fields[i]) {
      assert !Rejects(large, fields[i]);
    }
  }

  // ---------------------------------------------------------------------------
  // The loop as written. `validators` is an object literal, so `validators[key]` also
  // finds the methods every object inherits from Object.prototype. A body property
  // named after one of them is checked although the table never meant it.

  /** The function-valued members of Object.prototype that `validators[key]` reaches. */
  const InheritedMethods: set<string> :=
    {"constructor", "hasOwnProperty", "isPrototypeOf", "propertyIsEnumerable",
     "toLocaleString", "toString", "valueOf", "__defineGetter__", "__defineSetter__",
     "__lookupGetter__", "__lookupSetter__"}

  /** The loop's test as JavaScript evaluates it. `inherited(key, v)` is the truthiness of
      what the inherited method returns when called on `v`. */
  predicate RejectsAsWritten(table: Table, inherited: (string, JsValue) -> bool, f: Field)
  {
    if f.key in table then !Truthy(f.value) || !table[f.key](f.value)
    else f.key in InheritedMethods && (!Truthy(f.value) || !inherited(f.key, f.value))
  }

  /** The key the loop as written throws for, or None. */
  function FirstRejectedAsWritten(table: Table, inherited: (string, JsValue) -> bool, fields: seq<Field>): (r: Option<string>)
    ensures r.None? <==> forall i :: 0 <= i < |fields| ==> !RejectsAsWritten(table, inherited, fields[i])
    ensures r.Some? ==>
      exists i :: 0 <= i < |fields| && fields[i].key == r.value && RejectsAsWritten(table, inherited, fields[i]) &&
        forall j :: 0 <= j < i ==> !RejectsAsWritten(table, inherited, fields[j])
  {
    if fields == [] then None
    else if RejectsAsWritten(table, inherited, fields[0]) then Some(fields[0].key)
    else
      var r := FirstRejectedAsWritten(table, inherited, fields[1..]);
      assert r.Some? ==>
               (exists i :: 1 <= i < |fields| && fields[i].key == r.value && RejectsAsWritten(table, inherited, fields[i]) &&
                  forall j :: 0 <= j < i ==> !RejectsAsWritten(table, inherited, fields[j])) by {
        if r.Some? {
          var k :| 0 <= k < |fields| - 1 && fields[1..][k].key == r.value && RejectsAsWritten(table, inherited, fields[1..][k]) &&
            forall j :: 0 <= j < k ==> !RejectsAsWritten(table, inherited, fields[1..][j]);
          forall j | 0 <= j < k + 1 ensures !RejectsAsWritten(table, inherited, fields[j]) {
            if j > 0 { assert fields[j] == fields[1..][j - 1]; }
          }
          assert fields[k + 1] == fields[1..][k];
        }
      }
      r
  }

  /** The body `{"constructor": ""}` is refused with that key as written, although the
      table has no validator for it, while the intended loop accepts it. */
  lemma InheritedKeyRejected(table: Table, inherited: (string, JsValue) -> bool)
    requires "constructor" !in table
    ensures FirstRejectedAsWritten(table, inherited, [Field("constructor", Str(""))]) == Some("constructor")
    ensures FirstRejected(table, [Field("constructor", Str(""))]) == None
  {
  }

  /** The two loops agree on every body that uses none of the inherited names. */
  lemma {:induction false} AsWrittenAgreesOffInheritedNames(table: Table, inherited: (string, JsValue) -> bool, fields: seq<Field>)
    requires forall i :: 0 <= i < |fields| ==> fields[i].key in table || fields[i].key !in InheritedMethods
    ensures FirstRejectedAsWritten(table, inherited, fields) == FirstRejected(table, fields)
  {
    if fields != [] {
      AsWrittenAgreesOffInheritedNames(table, inherited, fields[1..]);
    }
  }
}
