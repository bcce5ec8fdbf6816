/**
 * The list operations behind `Add` and `Remove`, as functions on the
 * sequence of entries, and what they guarantee.
 *
 * `Remove` finds the first entry with the wanted id (`FirstOrDefault`) and
 * then removes that entry from the list (`List.Remove`). `RemoveFirst` is
 * an independent reference definition of "delete the first entry with this
 * id"; the lemmas show the two-step library version agrees with it and
 * establish what removing does to the rest of the basket.
 */
module BasketLists {
  import opened Wrappers
  import opened Dtos

  /** Some entry of `s` carries `id`. */
  ghost predicate HasId(s: seq<MenuItem>, id: int) {
    exists i :: 0 <= i < |s| && s[i].id == id
  }

  /** `k` is the position of the first entry of `s` carrying `id`. */
  ghost predicate IsFirstMatch(s: seq<MenuItem>, id: int, k: int) {
    0 <= k < |s| && s[k].id == id && forall j :: 0 <= j < k ==> s[j].id != id
  }

  /** The number of entries of `s` carrying `id` (the quantity of that item). */
  function CountId(s: seq<MenuItem>, id: int): (c: nat)
    ensures c <= |s|
  {
    if s == [] then 0
    else (if s[0].id == id then 1 else 0) + CountId(s[1..], id)
  }

  /**
   * `FirstOrDefault(i => i.Id == id)`: the first entry carrying `id`, or
   * nothing (null) when no entry does.
   */
  function FirstOrDefault(s: seq<MenuItem>, id: int): (r: Option<MenuItem>)
    ensures r.None? <==> !HasId(s, id)
    ensures r.Some? ==> exists k :: IsFirstMatch(s, id, k) && s[k] == r.value
  {
    if s == [] then None
    else if s[0].id == id then
      assert IsFirstMatch(s, id, 0);
      Some(s[0])
    else
      var r := FirstOrDefault(s[1..], id);
      if r.Some? then
        assert forall k :: IsFirstMatch(s[1..], id, k) ==> IsFirstMatch(s, id, k + 1) && s[k + 1] == s[1..][k];
        r
      else
        assert forall i :: 0 < i < |s| ==> s[i] == s[1..][i - 1];
        r
  }

  /**
   * `List<T>.IndexOf(x)`: the position of the first entry equal to `x`, or
   * `|s|` (standing in for -1) when there is none.
   */
  function IndexOf(s: seq<MenuItem>, x: MenuItem): (i: nat)
    ensures i <= |s|
    ensures i < |s| ==> s[i] == x && x !in s[..i]
    ensures i == |s| <==> x !in s
  {
    if s == [] then 0
    else if s[0] == x then 0
    else
      var i := IndexOf(s[1..], x);
      assert s[..i + 1] == [s[0]] + s[1..][..i];
      assert s == [s[0]] + s[1..];
      i + 1
  }

  /**
   * `List<T>.Remove(x)`: removes the first entry equal to `x`, if any, and
   * keeps the remaining entries in order. Exactly one copy of `x` leaves
   * the basket, and nothing else does.
   */
  function ListRemove(s: seq<MenuItem>, x: MenuItem): (r: seq<MenuItem>)
    ensures multiset(r) == multiset(s) - multiset{x}
    ensures |r| == if x in s then |s| - 1 else |s|
    ensures x !in s ==> r == s
    ensures forall k :: 0 <= k < |s| && s[k] == x && x !in s[..k] ==> r == s[..k] + s[k + 1..]
  {
    var i := IndexOf(s, x);
    if i == |s| then s
    else
      assert s == s[..i] + [x] + s[i + 1..];
      assert forall j :: 0 <= j < i ==> s[j] != x by {
        forall j | 0 <= j < i ensures s[j] != x { assert s[..i][j] == s[j]; }
      }
      assert forall k :: 0 <= k < |s| && s[k] == x && x !in s[..k] ==> k == i by {
        forall k | 0 <= k < |s| && s[k] == x && x !in s[..k] ensures k == i {
          assert forall j :: 0 <= j < k ==> s[..k][j] == s[j];
        }
      }
      s[..i] + s[i + 1..]
  }

  /** Reference definition: delete the first entry carrying `id`, keep the rest in order. */
  function RemoveFirst(s: seq<MenuItem>, id: int): (r: seq<MenuItem>)
    ensures multiset(r) <= multiset(s)
  {
    if s == [] then []
    else
      assert s == [s[0]] + s[1..];
      if s[0].id == id then s[1..]
      else [s[0]] + RemoveFirst(s[1..], id)
  }

  /**
   * Removing the first match at `k` deletes exactly the entry at `k`: every
   * entry before it and every entry after it stays, in the same order.
   */
  lemma {:induction false} RemoveFirstAt(s: seq<MenuItem>, id: int, k: int)
    requires IsFirstMatch(s, id, k)
    ensures RemoveFirst(s, id) == s[..k] + s[k + 1..]
  {
    if k > 0 {
      assert IsFirstMatch(s[1..], id, k - 1);
      RemoveFirstAt(s[1..], id, k - 1);
      assert s[..k] == [s[0]] + s[1..][..k - 1];
      assert s[k + 1..] == s[1..][k..];
    }
  }

  /**
   * `List.Remove(existing)`, where `existing` is what `FirstOrDefault`
   * found, deletes the first entry carrying `id`: no earlier entry can be
   * equal to it, since every earlier entry has another id.
   */
  lemma ListRemoveOfFirstMatch(s: seq<MenuItem>, id: int, k: int)
    requires IsFirstMatch(s, id, k)
    ensures ListRemove(s, s[k]) == RemoveFirst(s, id)
  {
    assert s[k] !in s[..k] by {
      forall j | 0 <= j < k ensures s[..k][j] != s[k] { assert s[j].id != id; }
    }
    RemoveFirstAt(s, id, k);
  }

  /** With no entry carrying `id`, removing by `id` changes nothing. */
  lemma {:induction false} RemoveFirstMiss(s: seq<MenuItem>, id: int)
    requires !HasId(s, id)
    ensures RemoveFirst(s, id) == s
  {
    if s != [] {
      assert s[0].id != id;
      assert !HasId(s[1..], id) by {
        forall i | 0 <= i < |s[1..]| ensures s[1..][i].id != id {
          assert s[1..][i] == s[i + 1];
        }
      }
      RemoveFirstMiss(s[1..], id);
    }
  }

  /** The quantity of an id is positive exactly when the basket holds an entry with that id. */
  lemma {:induction false} CountPositive(s: seq<MenuItem>, id: int)
    ensures CountId(s, id) > 0 <==> HasId(s, id)
  {
    if s != [] {
      CountPositive(s[1..], id);
      if HasId(s[1..], id) {
        var i :| 0 <= i < |s[1..]| && s[1..][i].id == id;
        assert s[i + 1].id == id;
      }
      if HasId(s, id) && s[0].id != id {
        var i :| 0 <= i < |s| && s[i].id == id;
        assert s[1..][i - 1].id == id;
      }
    }
  }

  /**
   * Removing by `id` takes one unit off that id's quantity when there is
   * one, leaves every other id's quantity alone, and shortens the basket by
   * exactly the number of entries removed.
   */
  lemma {:induction false} RemoveFirstCounts(s: seq<MenuItem>, id: int, other: int)
    ensures CountId(RemoveFirst(s, id), other)
         == if other == id && HasId(s, id) then CountId(s, other) - 1 else CountId(s, other)
    ensures |RemoveFirst(s, id)| == if HasId(s, id) then |s| - 1 else |s|
  {
    if s == [] {
    } else if s[0].id == id {
      assert HasId(s, id) by { assert s[0].id == id; }
    } else {
      RemoveFirstCounts(s[1..], id, other);
      var t := RemoveFirst(s[1..], id);
      assert ([s[0]] + t)[1..] == t;
      if HasId(s[1..], id) {
        var i :| 0 <= i < |s[1..]| && s[1..][i].id == id;
        assert s[i + 1].id == id;
      }
      if HasId(s, id) {
        var i :| 0 <= i < |s| && s[i].id == id;
        assert s[1..][i - 1].id == id;
      }
    }
  }

  /** Appending an entry raises the quantity of its id by one and leaves the others alone. */
  lemma {:induction false} AppendCounts(s: seq<MenuItem>, x: MenuItem, id: int)
    ensures CountId(s + [x], id) == CountId(s, id) + (if x.id == id then 1 else 0)
  {
    if s != [] {
      assert (s + [x])[1..] == s[1..] + [x];
      AppendCounts(s[1..], x, id);
    }
  }

  /**
   * Round trip: appending an item whose id is not yet in the basket and then
   * removing by that id gives back the original basket.
   */
  lemma {:induction false} AppendThenRemoveFirst(s: seq<MenuItem>, x: MenuItem)
    requires !HasId(s, x.id)
    ensures RemoveFirst(s + [x], x.id) == s
  {
    var k := |s|;
    assert IsFirstMatch(s + [x], x.id, k) by {
      forall j | 0 <= j < k ensures (s + [x])[j].id != x.id {
        assert (s + [x])[j] == s[j];
      }
    }
    RemoveFirstAt(s + [x], x.id, k);
    assert (s + [x])[..k] == s;
  }

  /**
   * When the id is already present, removing right after appending takes
   * out the OLDEST copy, so the newly appended entry survives at the end.
   */
  lemma {:induction false} AppendThenRemoveOldest(s: seq<MenuItem>, x: MenuItem)
    requires HasId(s, x.id)
    ensures RemoveFirst(s + [x], x.id) == RemoveFirst(s, x.id) + [x]
  {
    var i :| 0 <= i < |s| && s[i].id == x.id;
    if s[0].id != x.id {
      assert (s + [x])[1..] == s[1..] + [x];
      assert s[1..][i - 1].id == x.id;
      AppendThenRemoveOldest(s[1..], x);
    }
  }
}
