/** The chat's message list as a value: the removals and the conditional append that
    the chat screen applies to it, and what they keep, drop and preserve. */
module MessageList {
  import opened Messages

  /** Index `i` holds the one and only entry of `s` with the id `id`. */
  predicate OnlyAt(s: seq<Message>, id: int, i: int)
  {
    0 <= i < |s| && s[i].id == id && forall j :: 0 <= j < |s| && s[j].id == id ==> j == i
  }

  /** Some entry of `s` carries the id `id` (the array's `contains(where:)`). */
  predicate HasId(s: seq<Message>, id: int)
  {
    exists i :: 0 <= i < |s| && s[i].id == id
  }

  /** No two entries of `s` share an id. */
  predicate DistinctIds(s: seq<Message>)
  {
    forall i, j :: 0 <= i < j < |s| ==> s[i].id != s[j].id
  }

  /** The array's `removeAll(where: drop)`: the entries for which `drop` is false,
      in their original order. */
  function RemoveAll(s: seq<Message>, drop: Message -> bool): (r: seq<Message>)
    ensures |r| <= |s|
    ensures forall x :: x in r <==> x in s && !drop(x)
  {
    if s == [] then []
    else if drop(s[0]) then RemoveAll(s[1..], drop)
    else [s[0]] + RemoveAll(s[1..], drop)
  }

  /** The list after a send-failure rollback of the placeholder id `id`. */
  function WithoutId(s: seq<Message>, id: int): (r: seq<Message>)
    ensures !HasId(r, id)
    ensures forall x :: x in s && x.id != id ==> x in r
    ensures forall x :: x in r ==> x in s
  {
    var r := RemoveAll(s, (m: Message) => m.id == id);
    assert forall i :: 0 <= i < |r| ==> r[i] in r;
    r
  }

  /** The list with every pending entry swept away. */
  function Confirmed(s: seq<Message>): (r: seq<Message>)
    ensures forall i :: 0 <= i < |r| ==> !IsPending(r[i])
    ensures forall x :: x in s && !IsPending(x) ==> x in r
    ensures forall x :: x in r ==> x in s
  {
    RemoveAll(s, IsPending)
  }

  /** The list after a realtime insert of `m` that belongs to the conversation:
      pending entries are swept, then `m` is appended unless its id survived. */
  function Reconcile(s: seq<Message>, m: Message): (r: seq<Message>)
    ensures Confirmed(s) <= r
    ensures HasId(r, m.id)
    ensures forall x :: x in r && IsPending(x) ==> x == m
  {
    var kept := Confirmed(s);
    if HasId(kept, m.id) then kept
    else
      var r := kept + [m];
      assert r[|kept|] == m;
      r
  }

  /** Removal distributes over concatenation. */
  lemma {:induction false} RemoveAllAppend(a: seq<Message>, b: seq<Message>, drop: Message -> bool)
    ensures RemoveAll(a + b, drop) == RemoveAll(a, drop) + RemoveAll(b, drop)
  {
    if a == [] {
      assert a + b == b;
    } else {
      assert (a + b)[0] == a[0];
      assert (a + b)[1..] == a[1..] + b;
      RemoveAllAppend(a[1..], b, drop);
    }
  }

  /** A kept entry stays after every kept entry that preceded it and before every kept
      entry that followed it: removal preserves relative order. */
  lemma RemoveAllKeepsOrder(a: seq<Message>, x: Message, b: seq<Message>, drop: Message -> bool)
    requires !drop(x)
    ensures RemoveAll(a + [x] + b, drop) == RemoveAll(a, drop) + [x] + RemoveAll(b, drop)
  {
    RemoveAllAppend(a + [x], b, drop);
    RemoveAllAppend(a, [x], drop);
    assert RemoveAll([x], drop) == [x] by {
      assert [x][1..] == [];
    }
  }

  /** Every copy of a kept entry survives and no copy of a dropped one does. */
  lemma {:induction false} RemoveAllCount(s: seq<Message>, drop: Message -> bool, x: Message)
    ensures multiset(RemoveAll(s, drop))[x] == if drop(x) then 0 else multiset(s)[x]
  {
    if s != [] {
      RemoveAllCount(s[1..], drop, x);
      assert s == [s[0]] + s[1..];
      assert multiset(s) == multiset{s[0]} + multiset(s[1..]);
    }
  }

  /** Removal leaves the list unchanged exactly when nothing in it matches. */
  lemma {:induction false} RemoveAllNoop(s: seq<Message>, drop: Message -> bool)
    ensures RemoveAll(s, drop) == s <==> forall i :: 0 <= i < |s| ==> !drop(s[i])
  {
    if s != [] {
      RemoveAllNoop(s[1..], drop);
      if RemoveAll(s, drop) == s {
        assert forall i :: 0 <= i < |s| ==> s[i] in RemoveAll(s, drop);
      }
      if forall i :: 0 <= i < |s| ==> !drop(s[i]) {
        assert forall i :: 0 <= i < |s[1..]| ==> !drop(s[1..][i]) by {
          forall i | 0 <= i < |s[1..]| ensures !drop(s[1..][i]) {
            assert s[1..][i] == s[i + 1];
          }
        }
      }
    }
  }

  /** Removal never introduces a duplicate id. */
  lemma {:induction false} RemoveAllKeepsDistinct(s: seq<Message>, drop: Message -> bool)
    requires DistinctIds(s)
    ensures DistinctIds(RemoveAll(s, drop))
  {
    if s != [] {
      var tail := s[1..];
      assert DistinctIds(tail) by {
        forall i, j | 0 <= i < j < |tail| ensures tail[i].id != tail[j].id {
          assert tail[i] == s[i + 1] && tail[j] == s[j + 1];
        }
      }
      RemoveAllKeepsDistinct(tail, drop);
      var rest := RemoveAll(tail, drop);
      if !drop(s[0]) {
        forall j | 0 <= j < |rest| ensures rest[j].id != s[0].id {
          assert rest[j] in rest;
          var k :| 0 <= k < |tail| && tail[k] == rest[j];
          assert tail[k] == s[k + 1];
        }
        var r := [s[0]] + rest;
        forall i, j | 0 <= i < j < |r| ensures r[i].id != r[j].id {
          assert r[j] == rest[j - 1];
          if i > 0 {
            assert r[i] == rest[i - 1];
          }
        }
      }
    }
  }

  /** Rolling back a placeholder whose id collides with nothing already listed
      restores the list to what it was before the send. */
  lemma RollbackUndoesSend(s: seq<Message>, t: Message)
    requires !HasId(s, t.id)
    ensures WithoutId(s + [t], t.id) == s
  {
    var drop := (m: Message) => m.id == t.id;
    RemoveAllAppend(s, [t], drop);
    RemoveAllNoop(s, drop);
    assert [t][1..] == [];
  }

  /** Rolling back a placeholder whose id collides with a listed entry removes that
      entry too: the rollback is the same as removing the id from the list before the send. */
  lemma RollbackRemovesCollision(s: seq<Message>, t: Message, i: int)
    requires 0 <= i < |s| && s[i].id == t.id
    ensures WithoutId(s + [t], t.id) == WithoutId(s, t.id) != s
  {
    var drop := (m: Message) => m.id == t.id;
    RemoveAllAppend(s, [t], drop);
    assert [t][1..] == [];
    assert RemoveAll([t], drop) == [];
    RemoveAllNoop(s, drop);
  }

  /** The incoming message is appended at the end exactly when no entry of the list
      before the sweep has its id with an id below the pending range; otherwise the
      result is exactly the swept list. */
  lemma ReconcileAppendsIff(s: seq<Message>, m: Message)
    ensures Reconcile(s, m) == Confirmed(s) + [m] <==>
              forall i :: 0 <= i < |s| && !IsPending(s[i]) ==> s[i].id != m.id
    ensures Reconcile(s, m) == Confirmed(s) <==>
              exists i :: 0 <= i < |s| && !IsPending(s[i]) && s[i].id == m.id
  {
    var c := Confirmed(s);
    if HasId(c, m.id) {
      var k :| 0 <= k < |c| && c[k].id == m.id;
      assert c[k] in c;
      var i :| 0 <= i < |s| && s[i] == c[k];
      assert !IsPending(s[i]) && s[i].id == m.id;
    } else {
      forall i | 0 <= i < |s| && !IsPending(s[i]) ensures s[i].id != m.id {
        assert s[i] in s;
        assert s[i] in c;
      }
    }
    assert |c + [m]| != |c|;
  }

  /** On a list without duplicate ids, reconciliation keeps ids distinct and leaves
      exactly one entry with the incoming id. */
  lemma ReconcileIdOnce(s: seq<Message>, m: Message)
    requires DistinctIds(s)
    ensures DistinctIds(Reconcile(s, m))
    ensures exists i :: OnlyAt(Reconcile(s, m), m.id, i)
  {
    var c := Confirmed(s);
    RemoveAllKeepsDistinct(s, IsPending);
    var r := Reconcile(s, m);
    if HasId(c, m.id) {
      var i :| 0 <= i < |c| && c[i].id == m.id;
      assert r == c;
      assert OnlyAt(r, m.id, i);
    } else {
      assert r == c + [m];
      forall i, j | 0 <= i < j < |r| ensures r[i].id != r[j].id {
        assert r[i] == c[i];
        if j < |c| {
          assert r[j] == c[j];
        }
      }
      assert r[|c|].id == m.id;
      assert OnlyAt(r, m.id, |c|);
    }
  }

  /** Delivering the same realtime insert twice has the effect of delivering it once. */
  lemma ReconcileIdempotent(s: seq<Message>, m: Message)
    ensures Reconcile(Reconcile(s, m), m) == Reconcile(s, m)
  {
    var c := Confirmed(s);
    var r := Reconcile(s, m);
    RemoveAllNoop(c, IsPending);
    assert Confirmed(c) == c;
    if HasId(c, m.id) {
      assert r == c;
    } else {
      assert r == c + [m];
      RemoveAllAppend(c, [m], IsPending);
      assert [m][1..] == [];
      if IsPending(m) {
        assert Confirmed(r) == c;
      } else {
        assert Confirmed(r) == r;
        assert r[|c|].id == m.id;
      }
    }
  }
}
