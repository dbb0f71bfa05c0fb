/**
 * Id-keyed catalogue lists (tasks, rewards, children): the `find`, `map`
 * and `filter` idioms the storage layer and the three manager screens use.
 */
module Catalog {
  import opened Options

  /** `xs.find(x => idOf(x) === id)`: the first element carrying `id`. */
  function FindById<T>(xs: seq<T>, id: string, idOf: T -> string): (r: Option<T>)
    ensures r.None? <==> forall i :: 0 <= i < |xs| ==> idOf(xs[i]) != id
    ensures r.Some? ==> r.value in xs && idOf(r.value) == id
    ensures r.Some? && idOf(xs[0]) == id ==> r.value == xs[0]
    ensures r.Some? ==> exists i :: 0 <= i < |xs| && xs[i] == r.value && forall j :: 0 <= j < i ==> idOf(xs[j]) != id
  {
    if |xs| == 0 then None
    else if idOf(xs[0]) == id then Some(xs[0])
    else
      var rest := FindById(xs[1..], id, idOf);
      assert forall i :: 1 <= i < |xs| ==> xs[i] == xs[1..][i - 1];
      assert rest.Some? ==> exists i :: 0 <= i < |xs| && xs[i] == rest.value && forall j :: 0 <= j < i ==> idOf(xs[j]) != id by {
        if rest.Some? {
          var k :| 0 <= k < |xs[1..]| && xs[1..][k] == rest.value && forall j :: 0 <= j < k ==> idOf(xs[1..][j]) != id;
          assert xs[k + 1] == rest.value;
          assert forall j :: 0 <= j < k + 1 ==> idOf(xs[j]) != id by {
            forall j | 0 <= j < k + 1 ensures idOf(xs[j]) != id {
              if j > 0 { assert xs[j] == xs[1..][j - 1]; }
            }
          }
        }
      }
      rest
  }

  /** `xs.map(x => idOf(x) === id ? patch(x) : x)`. */
  function EditById<T>(xs: seq<T>, id: string, idOf: T -> string, patch: T -> T): (r: seq<T>)
    ensures |r| == |xs|
    ensures forall i :: 0 <= i < |xs| && idOf(xs[i]) != id ==> r[i] == xs[i]
    ensures forall i :: 0 <= i < |xs| && idOf(xs[i]) == id ==> r[i] == patch(xs[i])
  {
    seq(|xs|, i requires 0 <= i < |xs| => if idOf(xs[i]) == id then patch(xs[i]) else xs[i])
  }

  /** `xs.filter(x => idOf(x) !== id)`. */
  function RemoveById<T(!new)>(xs: seq<T>, id: string, idOf: T -> string): (r: seq<T>)
    ensures forall x :: x in r <==> x in xs && idOf(x) != id
    ensures |r| == |xs| - CountId(xs, id, idOf)
    ensures CountId(xs, id, idOf) == 0 ==> r == xs
    ensures |xs| == 1 ==> r == if idOf(xs[0]) == id then [] else xs
  {
    if |xs| == 0 then []
    else
      var rest := RemoveById(xs[1..], id, idOf);
      assert xs == [xs[0]] + xs[1..];
      if idOf(xs[0]) == id then rest else [xs[0]] + rest
  }

  /**
   * Filtering a concatenation filters each part and keeps them in order; with
   * the one-element case of `RemoveById`, this fixes the result completely:
   * the survivors, in their original order and with their multiplicity.
   */
  lemma {:induction false} RemoveByIdAppend<T(!new)>(a: seq<T>, b: seq<T>, id: string, idOf: T -> string)
    ensures RemoveById(a + b, id, idOf) == RemoveById(a, id, idOf) + RemoveById(b, id, idOf)
  {
    if |a| == 0 {
      assert a + b == b;
    } else {
      var ab := a + b;
      assert ab[0] == a[0] && ab[1..] == a[1..] + b;
      RemoveByIdAppend(a[1..], b, id, idOf);
      var tail := RemoveById(a[1..], id, idOf) + RemoveById(b, id, idOf);
      assert RemoveById(ab[1..], id, idOf) == tail;
      if idOf(a[0]) != id {
        assert [a[0]] + tail == ([a[0]] + RemoveById(a[1..], id, idOf)) + RemoveById(b, id, idOf);
      }
    }
  }

  /** How many elements carry `id`. */
  function CountId<T>(xs: seq<T>, id: string, idOf: T -> string): nat {
    if |xs| == 0 then 0
    else (if idOf(xs[0]) == id then 1 else 0) + CountId(xs[1..], id, idOf)
  }

  /** No element carries `id` exactly when the count of such elements is zero. */
  lemma {:induction false} CountIdZero<T>(xs: seq<T>, id: string, idOf: T -> string)
    ensures CountId(xs, id, idOf) == 0 <==> forall i :: 0 <= i < |xs| ==> idOf(xs[i]) != id
  {
    if |xs| > 0 {
      CountIdZero(xs[1..], id, idOf);
      assert forall i :: 1 <= i < |xs| ==> xs[i] == xs[1..][i - 1];
    }
  }

  /** The id list of a sequence, in order. */
  function Ids<T>(xs: seq<T>, idOf: T -> string): (r: seq<string>)
    ensures |r| == |xs| && forall i :: 0 <= i < |xs| ==> r[i] == idOf(xs[i])
  {
    seq(|xs|, i requires 0 <= i < |xs| => idOf(xs[i]))
  }

  /** An edit whose patch keeps ids leaves the id list, and so every lookup's success, unchanged. */
  lemma EditKeepsIds<T>(xs: seq<T>, id: string, idOf: T -> string, patch: T -> T)
    requires forall x :: idOf(patch(x)) == idOf(x)
    ensures Ids(EditById(xs, id, idOf, patch), idOf) == Ids(xs, idOf)
  {
  }

  /** After an edit, looking the edited id up yields the patched first match. */
  lemma {:induction false} EditThenFind<T>(xs: seq<T>, id: string, idOf: T -> string, patch: T -> T)
    requires forall x :: idOf(patch(x)) == idOf(x)
    ensures var before := FindById(xs, id, idOf);
            var after := FindById(EditById(xs, id, idOf, patch), id, idOf);
            after == if before.Some? then Some(patch(before.value)) else None
  {
    var ys := EditById(xs, id, idOf, patch);
    if |xs| > 0 && idOf(xs[0]) != id {
      assert EditById(xs, id, idOf, patch)[1..] == EditById(xs[1..], id, idOf, patch);
      EditThenFind(xs[1..], id, idOf, patch);
      assert ys[1..] == EditById(xs[1..], id, idOf, patch);
    }
  }

  /**
   * A manager form's submit: while editing (a non-empty id), every element with
   * that id is patched in place; otherwise `added` is appended at the end.
   */
  function SaveForm<T>(xs: seq<T>, editing: Option<string>, idOf: T -> string, patch: T -> T, added: T): (r: seq<T>)
    ensures Truthy(editing) ==> r == EditById(xs, editing.value, idOf, patch)
    ensures !Truthy(editing) ==> |r| == |xs| + 1 && r[..|xs|] == xs && r[|xs|] == added
  {
    if Truthy(editing) then EditById(xs, editing.value, idOf, patch) else xs + [added]
  }

  /** Appending an element under an unused id makes it the one found under that id. */
  lemma AppendedIsFound<T>(xs: seq<T>, x: T, idOf: T -> string)
    requires FindById(xs, idOf(x), idOf).None?
    ensures FindById(xs + [x], idOf(x), idOf) == Some(x)
  {
    var r := FindById(xs + [x], idOf(x), idOf);
    assert (xs + [x])[|xs|] == x;
    assert r.value in xs + [x];
    assert r.value !in xs;
  }

  /** Every id occurs at most once. */
  predicate UniqueIds<T>(xs: seq<T>, idOf: T -> string) {
    forall i, j :: 0 <= i < j < |xs| ==> idOf(xs[i]) != idOf(xs[j])
  }
}
