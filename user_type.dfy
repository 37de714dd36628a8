/** The computed `name` field of the `User` GraphQL type. */
module UserType {
  import opened Wrappers
  import opened JsStrings

  /** What `Boolean(v)` gives for a name column: a string is truthy unless empty; `null` and `undefined` are falsy. */
  predicate Truthy(v: Option<string>)
  {
    v.Some? && v.value != ""
  }

  /** `values.filter(Boolean)`: the truthy values, in order. */
  function FilterTruthy(values: seq<Option<string>>): (r: seq<string>)
    ensures |r| <= |values|
    ensures forall i :: 0 <= i < |r| ==> r[i] != ""
    ensures forall t :: t in r <==> exists i :: 0 <= i < |values| && Truthy(values[i]) && values[i].value == t
  {
    if values == [] then []
    else
      var rest := FilterTruthy(values[1..]);
      assert forall i :: 1 <= i < |values| ==> values[i] == values[1..][i - 1];
      (if Truthy(values[0]) then [values[0].value] else []) + rest
  }

  /**
   * Filtering keeps the order of the values: it distributes over
   * concatenation, and keeps a single value exactly when it is truthy.
   */
  lemma {:induction false} FilterTruthyConcat(a: seq<Option<string>>, b: seq<Option<string>>)
    ensures FilterTruthy(a + b) == FilterTruthy(a) + FilterTruthy(b)
    ensures forall v :: FilterTruthy([v]) == if Truthy(v) then [v.value] else []
  {
    forall v ensures FilterTruthy([v]) == if Truthy(v) then [v.value] else [] {
      assert [v][1..] == [];
    }
    if a != [] {
      assert (a + b)[1..] == a[1..] + b;
      FilterTruthyConcat(a[1..], b);
    } else {
      assert a + b == b;
    }
  }

  /** The `name` resolver: `[firstName, lastName].filter(Boolean).join(' ')`. */
  function Name(firstName: Option<string>, lastName: Option<string>): (r: string)
    ensures Truthy(firstName) && Truthy(lastName) ==> r == firstName.value + " " + lastName.value
    ensures Truthy(firstName) && !Truthy(lastName) ==> r == firstName.value
    ensures !Truthy(firstName) && Truthy(lastName) ==> r == lastName.value
    ensures !Truthy(firstName) && !Truthy(lastName) ==> r == ""
  {
    var parts := FilterTruthy([firstName, lastName]);
    assert [firstName, lastName][1..] == [lastName];
    assert [lastName][1..] == [];
    assert FilterTruthy([lastName]) == (if Truthy(lastName) then [lastName.value] else []);
    assert parts == (if Truthy(firstName) then [firstName.value] else [])
                  + (if Truthy(lastName) then [lastName.value] else []);
    assert |parts| == 2 ==> parts[1..] == [lastName.value] && Join(parts[1..], " ") == lastName.value;
    Join(parts, " ")
  }

  /** The name is empty exactly when neither part is a non-empty string; it is never `null`. */
  lemma NameEmpty(firstName: Option<string>, lastName: Option<string>)
    ensures Name(firstName, lastName) == "" <==> !Truthy(firstName) && !Truthy(lastName)
  {
  }
}
