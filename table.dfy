/** The state behind the task store, as plain values: the dictionary `db`
    from id to task, the keys of `db` in the order they were first inserted
    (the order a dictionary's values are listed in), and the id counter. */
module Table {
  import opened Tasks

  /** No key is logged twice. */
  predicate Distinct(s: seq<int>) {
    forall i, j :: 0 <= i < j < |s| ==> s[i] != s[j]
  }

  /** Each key logged comes after every key logged before it. */
  predicate Increasing(s: seq<int>) {
    forall i, j :: 0 <= i < j < |s| ==> s[i] < s[j]
  }

  /** The insertion log once key `k` is deleted: the other keys, in their order. */
  function Without(s: seq<int>, k: int): (r: seq<int>)
    ensures forall x :: x in r <==> x in s && x != k
    ensures forall i :: 0 <= i < |r| ==> r[i] in s && r[i] != k
    ensures Distinct(s) ==> Distinct(r)
    ensures k !in s ==> r == s
    ensures Distinct(s) && k in s ==> |r| == |s| - 1
  {
    if s == [] then []
    else if s[0] == k then Without(s[1..], k)
    else [s[0]] + Without(s[1..], k)
  }

  /** Deleting a key from an ascending log leaves it ascending. */
  lemma {:induction false} WithoutIncreasing(s: seq<int>, k: int)
    requires Increasing(s)
    ensures Increasing(Without(s, k))
  {
    if s != [] {
      var rest := s[1..];
      assert Increasing(rest) by {
        forall i, j | 0 <= i < j < |rest| ensures rest[i] < rest[j] {
          assert rest[i] == s[i + 1] && rest[j] == s[j + 1];
        }
      }
      WithoutIncreasing(rest, k);
      if s[0] != k {
        var w := Without(rest, k);
        assert Without(s, k) == [s[0]] + w;
        forall i | 0 <= i < |w| ensures s[0] < w[i] {
          var j :| 0 <= j < |rest| && rest[j] == w[i];
          assert rest[j] == s[j + 1];
        }
      }
    }
  }

  /** The tasks stored under `keys`, in the order of `keys`. */
  function Values(db: map<int, Task>, keys: seq<int>): (r: seq<Task>)
    requires forall i :: 0 <= i < |keys| ==> keys[i] in db
    ensures |r| == |keys|
    ensures forall i :: 0 <= i < |keys| ==> r[i] == db[keys[i]]
  {
    if keys == [] then [] else [db[keys[0]]] + Values(db, keys[1..])
  }

  /** A listing with the task of id `id` taken out, the rest in their order. */
  function RemoveTask(ts: seq<Task>, id: int): (r: seq<Task>)
    ensures forall t :: t in r <==> t in ts && t.id != Some(id)
    ensures |r| <= |ts|
  {
    if ts == [] then []
    else if ts[0].id == Some(id) then RemoveTask(ts[1..], id)
    else [ts[0]] + RemoveTask(ts[1..], id)
  }

  /** What the store keeps true between operations: `counter` is the next
      id to hand out and is at least 1; every key is an id already handed
      out, the record under it carries that id and a valid priority; the
      log holds exactly the keys, each once, and since ids are handed out
      in increasing order, in ascending order. */
  ghost predicate Inv(db: map<int, Task>, order: seq<int>, counter: int) {
    && 1 <= counter
    && (forall k :: k in db ==> 1 <= k < counter)
    && (forall k :: k in db ==> db[k].id == Some(k) && ValidPriority(db[k].priority))
    && (forall k :: k in db ==> k in order)
    && (forall i :: 0 <= i < |order| ==> order[i] in db)
    && Distinct(order)
    && Increasing(order)
  }

  /** A log without repetitions has as many entries as distinct keys. */
  lemma {:induction false} DistinctCardinality(s: seq<int>)
    requires Distinct(s)
    ensures |set x | x in s| == |s|
  {
    if s != [] {
      var rest := s[1..];
      assert Distinct(rest) by {
        forall i, j | 0 <= i < j < |rest| ensures rest[i] != rest[j] {
          assert rest[i] == s[i + 1] && rest[j] == s[j + 1];
        }
      }
      DistinctCardinality(rest);
      assert s[0] !in rest by {
        forall i | 0 <= i < |rest| ensures rest[i] != s[0] {
          assert rest[i] == s[i + 1];
        }
      }
      assert (set x | x in s) == {s[0]} + (set x | x in rest) by {
        assert s == [s[0]] + rest;
      }
    }
  }

  /** Under the invariant the log is exactly as long as the table is large. */
  lemma OrderSize(db: map<int, Task>, order: seq<int>, counter: int)
    requires Inv(db, order, counter)
    ensures |order| == |db|
  {
    DistinctCardinality(order);
    var keys := set x | x in order;
    forall x | x in keys ensures x in db.Keys {
      var j :| 0 <= j < |order| && order[j] == x;
    }
    forall x | x in db.Keys ensures x in keys {
      assert x in order;
    }
    assert db.Keys == keys;
  }

  /** Listing the table in log order misses no stored task. */
  lemma ValuesAreStored(db: map<int, Task>, order: seq<int>, counter: int)
    requires Inv(db, order, counter)
    ensures forall k :: k in db ==> db[k] in Values(db, order)
    ensures forall i :: 0 <= i < |order| ==> Values(db, order)[i].id == Some(order[i])
  {
    var r := Values(db, order);
    forall i | 0 <= i < |order| ensures r[i].id == Some(order[i]) {
      var k := order[i];
      assert k in db && r[i] == db[k];
      assert db[k].id == Some(k);
    }
    forall k | k in db ensures db[k] in r {
      var i :| 0 <= i < |order| && order[i] == k;
      assert r[i] == db[k];
    }
  }

  /** Listing after a deletion is the old listing with the deleted task taken out. */
  lemma {:induction false} ValuesWithout(db: map<int, Task>, keys: seq<int>, k: int)
    requires forall i :: 0 <= i < |keys| ==> keys[i] in db
    requires forall i :: 0 <= i < |keys| ==> db[keys[i]].id == Some(keys[i])
    ensures Values(db - {k}, Without(keys, k)) == RemoveTask(Values(db, keys), k)
  {
    if keys != [] {
      var rest := keys[1..];
      ValuesWithout(db, rest, k);
      var vs := Values(db, keys);
      assert vs == [db[keys[0]]] + Values(db, rest);
      assert vs[0].id == Some(keys[0]);
      if keys[0] != k {
        var w := Without(rest, k);
        assert Without(keys, k) == [keys[0]] + w;
        assert Values(db - {k}, [keys[0]] + w) == [db[keys[0]]] + Values(db - {k}, w);
      }
    }
  }

  /** Storing a task under the counter keeps the invariant once the counter
      moves on, and appends that task to the listing. */
  lemma InsertKeepsInv(db: map<int, Task>, order: seq<int>, counter: int, t: Task)
    requires Inv(db, order, counter)
    requires t.id == Some(counter) && ValidPriority(t.priority)
    ensures counter !in db
    ensures Inv(db[counter := t], order + [counter], counter + 1)
    ensures Values(db[counter := t], order + [counter]) == Values(db, order) + [t]
  {
    var db', order' := db[counter := t], order + [counter];
    assert Increasing(order') by {
      forall i | 0 <= i < |order| ensures order'[i] < counter {
        assert order'[i] == order[i] && order[i] in db;
      }
    }
    assert forall i :: 0 <= i < |order'| ==> order'[i] in db' by {
      forall i | 0 <= i < |order'| ensures order'[i] in db' {
        if i < |order| { assert order'[i] == order[i] && order[i] in db; }
      }
    }
    var vs, vs' := Values(db, order), Values(db', order');
    assert |vs'| == |vs| + 1;
    forall i | 0 <= i < |vs'| ensures vs'[i] == (vs + [t])[i] {
      if i < |order| { assert order'[i] == order[i] && order[i] in db; }
    }
  }

  /** Replacing the task under a stored key by one carrying that key keeps
      the invariant, and changes the listing at that key's place only. */
  lemma ReplaceKeepsInv(db: map<int, Task>, order: seq<int>, counter: int, k: int, t: Task)
    requires Inv(db, order, counter)
    requires k in db && t.id == Some(k) && ValidPriority(t.priority)
    ensures Inv(db[k := t], order, counter)
    ensures |Values(db[k := t], order)| == |Values(db, order)|
    ensures forall i :: 0 <= i < |order| ==>
      Values(db[k := t], order)[i] == if order[i] == k then t else Values(db, order)[i]
  {
  }

  /** Deleting a key keeps the invariant and takes its task out of the listing. */
  lemma DeleteKeepsInv(db: map<int, Task>, order: seq<int>, counter: int, k: int)
    requires Inv(db, order, counter)
    ensures Inv(db - {k}, Without(order, k), counter)
    ensures Values(db - {k}, Without(order, k)) == RemoveTask(Values(db, order), k)
  {
    var db', order' := db - {k}, Without(order, k);
    forall i | 0 <= i < |order'| ensures order'[i] in db' {
      var j :| 0 <= j < |order| && order[j] == order'[i];
      assert order[j] in db;
    }
    ValuesAreStored(db, order, counter);
    forall i | 0 <= i < |order| ensures db[order[i]].id == Some(order[i]) {
      assert Values(db, order)[i] == db[order[i]];
    }
    WithoutIncreasing(order, k);
    ValuesWithout(db, order, k);
  }

  /** Deleting an absent key leaves the table and the log as they are. */
  lemma DeleteAbsent(db: map<int, Task>, order: seq<int>, counter: int, k: int)
    requires Inv(db, order, counter)
    requires k !in db
    ensures db - {k} == db && Without(order, k) == order
  {
    assert db - {k} == db;
    assert k !in order by {
      forall i | 0 <= i < |order| ensures order[i] != k {
        assert order[i] in db;
      }
    }
  }
}
