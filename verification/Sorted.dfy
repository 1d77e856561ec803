/** Sorting by a key, one item placed at a time. */
module Sorted {

  ghost predicate By<T>(items: seq<T>, key: T -> int) {
    forall i, j :: 0 <= i < j < |items| ==> key(items[i]) <= key(items[j])
  }

  ghost predicate Distinct<T>(items: seq<T>) {
    forall i, j :: 0 <= i < j < |items| ==> items[i] != items[j]
  }

  /** Puts `x` behind the items with no larger key. */
  method Place<T>(items: seq<T>, x: T, key: T -> int) returns (out: seq<T>)
    requires By(items, key) && Distinct(items) && x !in items
    ensures By(out, key) && Distinct(out)
    ensures forall y :: y in out <==> y in items || y == x
  {
    var k := 0;
    while k < |items| && key(items[k]) <= key(x)
      invariant k <= |items|
      invariant forall i :: 0 <= i < k ==> key(items[i]) <= key(x)
    {
      k := k + 1;
    }
    out := items[..k] + [x] + items[k..];
    Placed(items, k, x, out, key);
  }

  ghost predicate Inserted<T>(items: seq<T>, k: nat, x: T, out: seq<T>) {
    && |out| == |items| + 1 && k <= |items| && out[k] == x
    && (forall i :: 0 <= i < k ==> out[i] == items[i])
    && (forall i :: k < i < |out| ==> out[i] == items[i - 1])
  }

  lemma Placed<T>(items: seq<T>, k: nat, x: T, out: seq<T>, key: T -> int)
    requires Inserted(items, k, x, out)
    requires By(items, key) && Distinct(items) && x !in items
    requires forall i :: 0 <= i < k ==> key(items[i]) <= key(x)
    requires k < |items| ==> key(x) <= key(items[k])
    ensures By(out, key) && Distinct(out)
    ensures forall y :: y in out <==> y in items || y == x
  {
    forall y
      ensures y in out <==> y in items || y == x
    {
      if y in items {
        var i :| 0 <= i < |items| && items[i] == y;
        if i < k {
          assert out[i] == y;
        } else {
          assert out[i + 1] == y;
        }
      }
      if y in out {
        var i :| 0 <= i < |out| && out[i] == y;
        if i > k {
          assert items[i - 1] == y;
        }
      }
    }
    forall i, j | 0 <= i < j < |out|
      ensures key(out[i]) <= key(out[j]) && out[i] != out[j]
    {
      if i == k {
        assert items[j - 1] in items;
      } else if j == k {
        assert items[i] in items;
      }
    }
  }
}
