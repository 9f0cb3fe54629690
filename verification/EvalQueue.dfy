/** The evaluation queue table of internal/op/model_eval_queue.go. Every operation is one
    transaction on the rows; times are seconds and 0 is the zero time. */
module EvalQueue {
  import opened Wrappers

  const RUNNING_LEASE := 15 * 60

  datatype Status = Queued | Running | Done | Stopped

  /** One row. key is the channel and model pair under which duplicates are skipped. */
  datatype Task = Task(key: (int, string), status: Status, position: int, startedAt: int)

  type Rows = map<int, Task>

  predicate Active(t: Task) {
    t.status == Queued || t.status == Running
  }

  /** No two rows share a position, and no pair is queued or running twice. */
  ghost predicate Inv(rows: Rows) {
    && (forall a, b :: a in rows && b in rows && a != b ==> rows[a].position != rows[b].position)
    && (forall a, b :: a in rows && b in rows && a != b && Active(rows[a]) && Active(rows[b]) ==> rows[a].key != rows[b].key)
  }

  /** What may happen to the rows in one operation: only queued rows vanish, a finished row never
      becomes active again, keys stay, and new rows are queued. */
  ghost predicate Evolves(before: Rows, after: Rows) {
    && (forall id :: id in before && id !in after ==> before[id].status == Queued)
    && (forall id :: id in before && id in after ==> after[id].key == before[id].key)
    && (forall id :: id in before && id in after && !Active(before[id]) ==> !Active(after[id]))
    && (forall id :: id in after && id !in before ==> after[id].status == Queued)
  }

  ghost predicate IsHistory(tables: seq<Rows>) {
    forall i :: 0 <= i < |tables| - 1 ==> Evolves(tables[i], tables[i + 1])
  }

  /** Over any history a task that has finished stays finished as long as it exists, and since
      finished rows are never deleted and ids never reused, that is for good. */
  lemma {:induction false} FinishedForGood(tables: seq<Rows>, i: nat, j: nat, id: int)
    requires IsHistory(tables) && i <= j < |tables| && id in tables[i] && !Active(tables[i][id])
    ensures id in tables[j] && !Active(tables[j][id])
    decreases j
  {
    if i < j {
      FinishedForGood(tables, i, j - 1, id);
      assert Evolves(tables[j - 1], tables[j]);
    }
  }

  // ---- Operations on the rows ----

  /** Rows in ids get a new status, and a new start time if one is given. */
  function SetStatus(rows: Rows, ids: set<int>, status: Status, startedAt: Option<int>): Rows {
    map id | id in rows ::
      if id in ids then rows[id].(status := status, startedAt := if startedAt.Some? then startedAt.value else rows[id].startedAt)
      else rows[id]
  }

  ghost function Expired(rows: Rows, now: int): set<int> {
    set id | id in rows && rows[id].status == Running && (rows[id].startedAt == 0 || rows[id].startedAt < now - RUNNING_LEASE)
  }

  function WithStatus(rows: Rows, status: Status): set<int> {
    set id | id in rows && rows[id].status == status
  }

  /** A change of status touches nothing else of a row. */
  lemma SetStatusMeans(rows: Rows, ids: set<int>, status: Status, startedAt: Option<int>)
    ensures var after := SetStatus(rows, ids, status, startedAt);
            && after.Keys == rows.Keys
            && (forall id :: id in rows ==> after[id].key == rows[id].key && after[id].position == rows[id].position)
            && (forall id :: id in rows && id !in ids ==> after[id] == rows[id])
            && (forall id :: id in rows && id in ids ==> after[id].status == status)
            && (forall id :: id in rows && id in ids ==>
                  after[id].startedAt == match startedAt case Some(t) => t case None => rows[id].startedAt)
  {
  }

  /** Changing status keeps the table consistent if no finished row is revived. */
  lemma SetStatusKeepsInv(rows: Rows, ids: set<int>, status: Status, startedAt: Option<int>)
    requires Inv(rows)
    requires (status == Queued || status == Running) ==> forall id :: id in ids && id in rows ==> Active(rows[id])
    ensures Inv(SetStatus(rows, ids, status, startedAt)) && Evolves(rows, SetStatus(rows, ids, status, startedAt))
  {
  }

  /** The next rows to run: as many as allowed, in front of all other queued rows. */
  ghost predicate Front(rows: Rows, limit: nat, ids: set<int>) {
    && ids <= WithStatus(rows, Queued) && |ids| <= limit
    && (|ids| < limit ==> ids == WithStatus(rows, Queued))
    && forall a, b :: a in ids && b in rows && rows[b].status == Queued && b !in ids ==> rows[a].position < rows[b].position
  }

  lemma PoppedIsFront(rows: Rows, n: nat, popped: set<int>, rest: set<int>)
    requires popped !! rest && popped + rest == WithStatus(rows, Queued) && |popped| <= n && (|popped| < n ==> rest == {})
    requires forall a, b :: a in popped && b in rest ==> rows[a].position < rows[b].position
    ensures Front(rows, n, popped)
    ensures forall a, b :: a in popped && b in rows && rows[b].position < rows[a].position ==> (rows[b].status == Queued ==> b in popped)
  {
    assert rest == {} ==> popped == WithStatus(rows, Queued);
    forall b | b in rows && rows[b].status == Queued && b !in popped ensures b in rest {
      assert b in WithStatus(rows, Queued);
    }
  }

  lemma StartPopped(rows: Rows, ids: set<int>, now: int)
    requires Inv(rows) && ids <= WithStatus(rows, Queued)
    ensures Inv(SetStatus(rows, ids, Running, Some(now))) && Evolves(rows, SetStatus(rows, ids, Running, Some(now)))
    ensures SetStatus(rows, ids, Running, Some(now)).Keys == rows.Keys
  {
    SetStatusKeepsInv(rows, ids, Running, Some(now));
  }

  /** The queued row directly in front of a queued row. */
  ghost predicate Neighbor(rows: Rows, id: int, before: int) {
    && id in rows && before in rows && rows[id].status == Queued && rows[before].status == Queued
    && rows[before].position < rows[id].position
    && forall b :: b in rows && rows[b].status == Queued && b != before ==>
         rows[b].position < rows[before].position || rows[b].position >= rows[id].position
  }

  function Swap(rows: Rows, a: int, b: int): Rows
    requires a in rows && b in rows
  {
    rows[a := rows[a].(position := rows[b].position)][b := rows[b].(position := rows[a].position)]
  }

  lemma SwapKeepsInv(rows: Rows, a: int, b: int)
    requires Inv(rows) && a in rows && b in rows && a != b
    ensures Inv(Swap(rows, a, b)) && Evolves(rows, Swap(rows, a, b))
  {
  }

  /** The queued rows that stand in front of id. */
  ghost function Ahead(rows: Rows, id: int): set<int>
    requires id in rows
  {
    set b | b in rows && rows[b].status == Queued && rows[b].position < rows[id].position
  }

  /** Moving up takes exactly the neighbour out of the way and changes the order of no other pair. */
  lemma SwapOvertakesOne(rows: Rows, id: int, before: int)
    requires Inv(rows) && Neighbor(rows, id, before)
    ensures var after := Swap(rows, id, before);
            && Ahead(after, id) == Ahead(rows, id) - {before}
            && Ahead(after, before) == Ahead(rows, before) + {id}
            && after.Keys == rows.Keys && (forall c :: c in rows ==> after[c] == rows[c].(position := after[c].position))
            && (forall c :: c in rows && c != id && c != before ==> after[c] == rows[c])
            && forall c :: c in rows && c != id && c != before && rows[c].status == Queued ==> Ahead(after, c) == Ahead(rows, c)
  {
    var after := Swap(rows, id, before);
    assert forall b :: b in Ahead(after, id) <==> b in Ahead(rows, id) && b != before;
    assert forall b :: b in Ahead(after, before) <==> b in Ahead(rows, before) || b == id;
    forall c | c in rows && c != id && c != before && rows[c].status == Queued ensures Ahead(after, c) == Ahead(rows, c) {
      assert forall b :: b in Ahead(after, c) <==> b in Ahead(rows, c);
    }
  }

  /** The keys read so far have active rows; new rows stand in order behind all old ones. */
  ghost predicate Appended(before: Rows, after: Rows, keys: seq<(int, string)>, added: seq<int>) {
    && after.Keys == before.Keys + (set id | id in added)
    && (forall id :: id in before ==> after[id] == before[id])
    && NewInOrder(before, after, keys, added) && AddedKeys(before, after, keys, added)
    && (forall key :: key in keys ==> HasActive(after, key))
  }

  /** The pairs to add, in order: those that are not active yet, each at its first occurrence. */
  ghost function Wanted(before: Rows, keys: seq<(int, string)>): seq<(int, string)> {
    if keys == [] then []
    else
      var init, last := keys[..|keys| - 1], keys[|keys| - 1];
      if HasActive(before, last) || last in init then Wanted(before, init) else Wanted(before, init) + [last]
  }

  ghost predicate AddedKeys(before: Rows, after: Rows, keys: seq<(int, string)>, added: seq<int>) {
    |added| == |Wanted(before, keys)| && forall i :: 0 <= i < |added| ==> added[i] in after && after[added[i]].key == Wanted(before, keys)[i]
  }

  /** A row of this pair waits or runs. */
  ghost predicate InProgress(rows: Rows, key: (int, string)) {
    exists id :: id in rows && rows[id].key == key && (rows[id].status == Queued || rows[id].status == Running)
  }

  ghost function InProgressPairs(rows: Rows): iset<(int, string)> {
    iset key: (int, string) | InProgress(rows, key)
  }

  /** rs holds exactly the elements of s that are in scope, each once, in the order in which they first occur. */
  ghost predicate OnceInOrder<T(!new)>(s: seq<T>, rs: seq<T>, skipped: iset<T>) {
    && (forall x :: x in rs <==> x in s && x !in skipped)
    && (forall i, j :: 0 <= i < j < |rs| ==> rs[i] != rs[j])
    && (forall i, j, n :: 0 <= i < j < |rs| && 0 <= n < |s| && s[n] == rs[j] ==> rs[i] in s[..n])
  }

  lemma OnceMore<T(!new)>(s: seq<T>, rs: seq<T>, skipped: iset<T>, x: T)
    requires OnceInOrder(s, rs, skipped)
    ensures OnceInOrder(s + [x], if x in s || x in skipped then rs else rs + [x], skipped)
  {
    var more, next := s + [x], if x in s || x in skipped then rs else rs + [x];
    assert forall y :: y in more <==> y in s || y == x;
    forall y ensures y in next <==> y in more && y !in skipped {
    }
    forall i, j, n | 0 <= i < j < |next| && 0 <= n < |more| && more[n] == next[j] ensures next[i] in more[..n] {
      if n < |s| {
        assert more[..n] == s[..n] && s[n] == next[j] && next[j] in s && j < |rs|;
      } else {
        assert more[..n] == s;
      }
    }
  }

  /** What an enqueue adds: the given pairs that are not in progress, each once, in the given order. */
  lemma {:induction false} WantedAre(before: Rows, keys: seq<(int, string)>)
    ensures OnceInOrder(keys, Wanted(before, keys), InProgressPairs(before))
    decreases |keys|
  {
    hide OnceInOrder, HasActive, InProgress, InProgressPairs;
    if keys == [] {
      OnceOfNothing(InProgressPairs(before));
    } else {
      var init, last := keys[..|keys| - 1], keys[|keys| - 1];
      WantedAre(before, init);
      OnceMore(init, Wanted(before, init), InProgressPairs(before), last);
      ActiveIff(before, last);
      assert keys == init + [last];
    }
  }

  lemma OnceOfNothing<T(!new)>(skipped: iset<T>)
    ensures OnceInOrder([], [], skipped)
  {
  }

  lemma ActiveIff(rows: Rows, key: (int, string))
    ensures HasActive(rows, key) <==> key in InProgressPairs(rows)
  {
  }

  lemma WantedSnoc(before: Rows, keys: seq<(int, string)>, key: (int, string))
    ensures Wanted(before, keys + [key])
         == if HasActive(before, key) || key in keys then Wanted(before, keys) else Wanted(before, keys) + [key]
  {
    assert (keys + [key])[..|keys|] == keys;
  }

  /** After the pairs read so far have been added, a pair is active if it was before or was read. */
  lemma ActiveMeansKnown(before: Rows, after: Rows, keys: seq<(int, string)>, added: seq<int>, key: (int, string))
    requires Appended(before, after, keys, added)
    ensures HasActive(after, key) <==> HasActive(before, key) || key in keys
  {
    hide AddedKeys;
    if HasActive(after, key) {
      var id :| id in after && Active(after[id]) && after[id].key == key;
      if id in before {
        assert after[id] == before[id];
      } else {
        assert id in added;
      }
    }
    if HasActive(before, key) {
      var id :| id in before && Active(before[id]) && before[id].key == key;
      assert after[id] == before[id];
    }
  }

  ghost predicate NewInOrder(before: Rows, after: Rows, keys: seq<(int, string)>, added: seq<int>) {
    && (forall id :: id in added ==> id in after && id !in before && after[id].status == Queued && after[id].key in keys)
    && (forall i, j :: 0 <= i < j < |added| ==> after[added[i]].position < after[added[j]].position)
    && (forall i, id :: i in added && id in before ==> before[id].position < after[i].position)
  }

  predicate HasActive(rows: Rows, key: (int, string)) {
    exists id :: id in rows && Active(rows[id]) && rows[id].key == key
  }

  lemma AppendedEvolves(before: Rows, after: Rows, keys: seq<(int, string)>, added: seq<int>)
    requires Appended(before, after, keys, added)
    ensures Evolves(before, after)
  {
  }

  lemma NothingAppended(rows: Rows)
    ensures Appended(rows, rows, [], [])
  {
  }

  lemma SkipStep(before: Rows, after: Rows, keys: seq<(int, string)>, added: seq<int>, key: (int, string))
    requires Appended(before, after, keys, added) && HasActive(after, key)
    ensures Appended(before, after, keys + [key], added)
  {
    hide HasActive, Wanted, AddedKeys;
    ActiveMeansKnown(before, after, keys, added, key);
    SkipKeepsKeys(before, after, keys, added, key);
  }

  lemma SkipKeepsKeys(before: Rows, after: Rows, keys: seq<(int, string)>, added: seq<int>, key: (int, string))
    requires AddedKeys(before, after, keys, added) && (HasActive(before, key) || key in keys)
    ensures AddedKeys(before, after, keys + [key], added)
  {
    hide HasActive;
    WantedSnoc(before, keys, key);
  }

  lemma InsertKeepsInv(rows: Rows, key: (int, string), id: int, position: int)
    requires Inv(rows) && !HasActive(rows, key) && id !in rows && forall i :: i in rows ==> rows[i].position < position
    ensures Inv(rows[id := Task(key, Queued, position, 0)])
    ensures HasActive(rows[id := Task(key, Queued, position, 0)], key)
  {
    var now := rows[id := Task(key, Queued, position, 0)];
    assert Active(now[id]) && now[id].key == key;
  }

  lemma InsertKeepsActive(rows: Rows, t: Task, id: int, key: (int, string))
    requires HasActive(rows, key) && id !in rows
    ensures HasActive(rows[id := t], key)
  {
    var i :| i in rows && Active(rows[i]) && rows[i].key == key;
    assert rows[id := t][i] == rows[i];
  }

  lemma NewStaysInOrder(before: Rows, after: Rows, keys: seq<(int, string)>, added: seq<int>, key: (int, string), id: int, position: int)
    requires NewInOrder(before, after, keys, added) && before.Keys <= after.Keys
    requires forall i :: i in before ==> before[i].position < position
    requires forall i :: i in after ==> after[i].position < position && i < id
    ensures NewInOrder(before, after[id := Task(key, Queued, position, 0)], keys + [key], added + [id])
  {
    var now, all := after[id := Task(key, Queued, position, 0)], added + [id];
    assert forall i :: i in all <==> i in added || i == id;
    assert forall i :: 0 <= i < |added| ==> all[i] == added[i] && added[i] in added;
    assert all[|added|] == id;
  }

  lemma AddedKeysStep(before: Rows, after: Rows, keys: seq<(int, string)>, added: seq<int>, key: (int, string), id: int, position: int)
    requires AddedKeys(before, after, keys, added) && !HasActive(before, key) && key !in keys && id !in after
    ensures AddedKeys(before, after[id := Task(key, Queued, position, 0)], keys + [key], added + [id])
  {
    hide HasActive;
    WantedSnoc(before, keys, key);
  }

  lemma AppendStep(before: Rows, after: Rows, keys: seq<(int, string)>, added: seq<int>, key: (int, string), id: int, position: int)
    requires Appended(before, after, keys, added) && Inv(after) && !HasActive(after, key)
    requires forall i :: i in after ==> after[i].position < position && i < id
    ensures Appended(before, after[id := Task(key, Queued, position, 0)], keys + [key], added + [id])
    ensures Inv(after[id := Task(key, Queued, position, 0)])
  {
    hide Inv, HasActive, NewInOrder, AddedKeys;
    NewStaysInOrder(before, after, keys, added, key, id, position);
    ActiveMeansKnown(before, after, keys, added, key);
    AddedKeysStep(before, after, keys, added, key, id, position);
    InsertKeepsInv(after, key, id, position);
    var now := after[id := Task(key, Queued, position, 0)];
    forall k | k in keys + [key] ensures HasActive(now, k) {
      if k in keys {
        InsertKeepsActive(after, Task(key, Queued, position, 0), id, k);
      }
    }
    assert (set i | i in added + [id]) == (set i | i in added) + {id};
  }

  lemma NothingEvolves(rows: Rows)
    ensures Evolves(rows, rows)
  {
  }

  predicate Resolve(ids: seq<int>, lookup: int -> Option<(int, string)>) {
    forall i :: 0 <= i < |ids| ==> lookup(ids[i]).Some?
  }

  /** The pairs of the channel models in the order given, each once. */
  function Pairs(ids: seq<int>, lookup: int -> Option<(int, string)>): seq<(int, string)>
    requires Resolve(ids, lookup)
  {
    if ids == [] then []
    else
      var init, last := ids[..|ids| - 1], ids[|ids| - 1];
      var key := lookup(last).value;
      if key in Pairs(init, lookup) then Pairs(init, lookup) else Pairs(init, lookup) + [key]
  }

  ghost function Looked(ids: seq<int>, lookup: int -> Option<(int, string)>): seq<(int, string)>
    requires Resolve(ids, lookup)
  {
    seq(|ids|, i requires 0 <= i < |ids| => lookup(ids[i]).value)
  }

  /** Each pair of the given channel models once, in the given order. */
  lemma {:induction false} PairsAre(ids: seq<int>, lookup: int -> Option<(int, string)>)
    requires Resolve(ids, lookup)
    ensures OnceInOrder(Looked(ids, lookup), Pairs(ids, lookup), iset{})
    decreases |ids|
  {
    if ids != [] {
      var init, last := ids[..|ids| - 1], ids[|ids| - 1];
      PairsAre(init, lookup);
      OnceMore(Looked(init, lookup), Pairs(init, lookup), iset{}, lookup(last).value);
      assert Looked(ids, lookup) == Looked(init, lookup) + [lookup(last).value];
    }
  }

  lemma PairsSnoc(ids: seq<int>, lookup: int -> Option<(int, string)>, i: nat)
    requires i < |ids| && Resolve(ids[..i], lookup) && lookup(ids[i]).Some?
    ensures Resolve(ids[..i + 1], lookup)
    ensures Pairs(ids[..i + 1], lookup)
         == Pairs(ids[..i], lookup) + if lookup(ids[i]).value in Pairs(ids[..i], lookup) then [] else [lookup(ids[i]).value]
  {
    assert ids[..i + 1] == ids[..i] + [ids[i]] && ids[..i + 1][..i] == ids[..i];
  }

  datatype QueueError = NotFound | Conflict | Bounds

  class Queue {
    var rows: Rows
    var nextId: int

    ghost predicate Valid()
      reads this
    {
      Inv(rows) && forall id :: id in rows ==> id < nextId
    }

    constructor ()
      ensures Valid() && rows == map[]
    {
      rows, nextId := map[], 1;
    }

    method MaxPosition() returns (max: int)
      ensures max >= -1 && forall id :: id in rows ==> rows[id].position <= max
      ensures max == -1 || exists id :: id in rows && rows[id].position == max
    {
      max := -1;
      var todo := rows.Keys;
      while exists id :: id in todo
        invariant todo <= rows.Keys && max >= -1
        invariant forall id :: id in rows && id !in todo ==> rows[id].position <= max
        invariant max == -1 || exists id :: id in rows && rows[id].position == max
        decreases todo
      {
        var id :| id in todo;
        todo := todo - {id};
        if rows[id].position > max {
          max := rows[id].position;
        }
      }
    }

    /** Appends the pairs that are not active yet behind all existing rows, in the given order. */
    method Enqueue(keys: seq<(int, string)>) returns (added: seq<int>)
      requires Valid()
      modifies this
      ensures Valid() && Evolves(old(rows), rows)
      ensures Appended(old(rows), rows, keys, added)
    {
      hide Appended, Inv, Evolves, HasActive;
      var max := MaxPosition();
      added := [];
      NothingAppended(rows);
      assert keys[..0] == [];
      for i := 0 to |keys|
        invariant Valid()
        invariant Appended(old(rows), rows, keys[..i], added)
        invariant forall id :: id in rows ==> rows[id].position <= max
      {
        assert keys[..i + 1] == keys[..i] + [keys[i]];
        if HasActive(rows, keys[i]) {
          SkipStep(old(rows), rows, keys[..i], added, keys[i]);
          continue;
        }
        max := max + 1;
        AppendStep(old(rows), rows, keys[..i], added, keys[i], nextId, max);
        rows := rows[nextId := Task(keys[i], Queued, max, 0)];
        added := added + [nextId];
        nextId := nextId + 1;
      }
      assert keys[..|keys|] == keys;
      AppendedEvolves(old(rows), rows, keys, added);
    }

    /** Looks up the channel models first: one that is missing or disabled refuses the whole request. */
    method EnqueueModels(ids: seq<int>, lookup: int -> Option<(int, string)>) returns (r: Option<seq<int>>)
      requires Valid()
      modifies this
      ensures Valid() && Evolves(old(rows), rows)
      ensures r.Some? <==> Resolve(ids, lookup)
      ensures r.None? ==> rows == old(rows) && nextId == old(nextId)
      ensures r.Some? ==> Appended(old(rows), rows, Pairs(ids, lookup), r.value)
    {
      hide Appended, Inv, Evolves;
      var keys: seq<(int, string)> := [];
      for i := 0 to |ids|
        invariant rows == old(rows) && nextId == old(nextId)
        invariant Resolve(ids[..i], lookup) && keys == Pairs(ids[..i], lookup)
      {
        var key := lookup(ids[i]);
        if key.None? {
          NothingEvolves(rows);
          return None;
        }
        PairsSnoc(ids, lookup, i);
        if key.value !in keys {
          keys := keys + [key.value];
        }
      }
      assert ids[..|ids|] == ids;
      var added := Enqueue(keys);
      return Some(added);
    }

    /** Sets the front of the queue running. A limit that is not positive counts as 1. */
    method PopNext(limit: int, now: int) returns (popped: set<int>)
      requires Valid()
      modifies this
      ensures Valid() && Evolves(old(rows), rows) && nextId == old(nextId)
      ensures Front(old(rows), if limit <= 0 then 1 else limit, popped)
      ensures rows == SetStatus(old(rows), popped, Running, Some(now))
      ensures forall a, b :: a in popped && b in old(rows) && old(rows)[b].position < old(rows)[a].position ==>
                (old(rows)[b].status == Queued ==> b in popped)
    {
      hide Inv, Evolves, SetStatus, Front;
      var n := if limit <= 0 then 1 else limit;
      popped := {};
      var rest := WithStatus(rows, Queued);
      while |popped| < n && exists id :: id in rest
        invariant rows == old(rows) && nextId == old(nextId)
        invariant popped !! rest && popped + rest == WithStatus(rows, Queued) && |popped| <= n
        invariant forall a, b :: a in popped && b in rest ==> rows[a].position < rows[b].position
        decreases rest
      {
        var id := First(rest);
        popped := popped + {id};
        rest := rest - {id};
      }
      PoppedIsFront(rows, n, popped, rest);
      StartPopped(rows, popped, now);
      rows := SetStatus(rows, popped, Running, Some(now));
    }

    method First(ids: set<int>) returns (first: int)
      requires Valid() && ids <= rows.Keys && exists id :: id in ids
      ensures first in ids && forall id :: id in ids && id != first ==> rows[first].position < rows[id].position
    {
      first :| first in ids;
      var todo := ids - {first};
      while exists id :: id in todo
        invariant first in ids && first !in todo && todo <= ids
        invariant forall id :: id in ids && id !in todo && id != first ==> rows[first].position < rows[id].position
        decreases todo
      {
        var id :| id in todo;
        todo := todo - {id};
        if rows[id].position < rows[first].position {
          first := id;
        }
      }
    }

    /** Returns running rows whose lease has run out to the queue. */
    method ResetRunning(now: int)
      requires Valid()
      modifies `rows
      ensures Valid() && Evolves(old(rows), rows)
      ensures rows == SetStatus(old(rows), Expired(old(rows), now), Queued, None)
      ensures forall id :: id in old(rows) && old(rows)[id].status == Running ==>
                (rows[id].status == Queued <==> old(rows)[id].startedAt == 0 || now - old(rows)[id].startedAt > RUNNING_LEASE)
    {
      SetStatusKeepsInv(rows, Expired(rows, now), Queued, None);
      rows := map id | id in rows ::
        if rows[id].status == Running && (rows[id].startedAt == 0 || rows[id].startedAt < now - RUNNING_LEASE)
        then rows[id].(status := Queued) else rows[id];
    }

    /** At process start: with one instance everything running is a leftover. */
    method ResetRunningOnStart(multiInstance: bool, now: int)
      requires Valid()
      modifies `rows
      ensures Valid() && Evolves(old(rows), rows)
      ensures rows == if multiInstance then SetStatus(old(rows), Expired(old(rows), now), Queued, None)
                      else SetStatus(old(rows), WithStatus(old(rows), Running), Queued, Some(0))
    {
      if multiInstance {
        ResetRunning(now);
        return;
      }
      SetStatusKeepsInv(rows, WithStatus(rows, Running), Queued, Some(0));
      rows := map id | id in rows :: if rows[id].status == Running then rows[id].(status := Queued, startedAt := 0) else rows[id];
    }

    /** Returns those of the given rows that are still running. */
    method RequeueRunning(ids: set<int>)
      requires Valid()
      modifies `rows
      ensures Valid() && Evolves(old(rows), rows)
      ensures rows == SetStatus(old(rows), ids * WithStatus(old(rows), Running), Queued, Some(0))
    {
      SetStatusKeepsInv(rows, ids * WithStatus(rows, Running), Queued, Some(0));
      if ids == {} {
        assert rows == SetStatus(rows, {}, Queued, Some(0));
        return;
      }
      rows := map id | id in rows :: if id in ids && rows[id].status == Running then rows[id].(status := Queued, startedAt := 0) else rows[id];
    }

    /** Swaps a queued row with the one in front of it. */
    method MoveUp(id: int) returns (r: Option<QueueError>)
      requires Valid()
      modifies `rows
      ensures Valid() && Evolves(old(rows), rows)
      ensures r == if id !in old(rows) then Some(NotFound) else if old(rows)[id].status != Queued then Some(Conflict)
                   else if Ahead(old(rows), id) == {} then Some(Bounds) else None
      ensures r.Some? ==> rows == old(rows)
      ensures r.None? ==> exists before :: Neighbor(old(rows), id, before) && rows == Swap(old(rows), id, before)
    {
      if id !in rows {
        return Some(NotFound);
      }
      if rows[id].status != Queued {
        return Some(Conflict);
      }
      var ahead := set b | b in rows && rows[b].status == Queued && rows[b].position < rows[id].position;
      if !exists b :: b in ahead {
        assert ahead == {};
        return Some(Bounds);
      }
      var before := Last(ahead);
      assert Neighbor(rows, id, before);
      SwapKeepsInv(rows, id, before);
      var t, n := rows[id], rows[before];
      rows := rows[id := t.(position := n.position)];
      rows := rows[before := n.(position := t.position)];
      return None;
    }

    method Last(ids: set<int>) returns (last: int)
      requires Valid() && ids <= rows.Keys && exists id :: id in ids
      ensures last in ids && forall id :: id in ids && id != last ==> rows[id].position < rows[last].position
    {
      last :| last in ids;
      var todo := ids - {last};
      while exists id :: id in todo
        invariant last in ids && last !in todo && todo <= ids
        invariant forall id :: id in ids && id !in todo && id != last ==> rows[id].position < rows[last].position
        decreases todo
      {
        var id :| id in todo;
        todo := todo - {id};
        if rows[id].position > rows[last].position {
          last := id;
        }
      }
    }

    method Stop(id: int) returns (r: Option<QueueError>)
      requires Valid()
      modifies `rows
      ensures Valid() && Evolves(old(rows), rows)
      ensures r == if id !in old(rows) then Some(NotFound) else if old(rows)[id].status != Queued then Some(Conflict) else None
      ensures rows == if r.None? then SetStatus(old(rows), {id}, Stopped, None) else old(rows)
    {
      if id !in rows {
        return Some(NotFound);
      }
      if rows[id].status != Queued {
        return Some(Conflict);
      }
      SetStatusKeepsInv(rows, {id}, Stopped, None);
      rows := rows[id := rows[id].(status := Stopped)];
      return None;
    }

    /** Deletes all queued rows. */
    method Clear() returns (removed: nat)
      requires Valid()
      modifies `rows
      ensures Valid() && Evolves(old(rows), rows)
      ensures rows == old(rows) - WithStatus(old(rows), Queued) && removed == |WithStatus(old(rows), Queued)|
    {
      removed := |WithStatus(rows, Queued)|;
      rows := rows - WithStatus(rows, Queued);
    }

    /** Completes a row, whatever its status is. */
    method MarkDone(id: int)
      requires Valid()
      modifies `rows
      ensures Valid() && Evolves(old(rows), rows)
      ensures rows == SetStatus(old(rows), {id}, Done, None)
    {
      SetStatusKeepsInv(rows, {id}, Done, None);
      if id in rows {
        rows := rows[id := rows[id].(status := Done)];
      }
    }
  }
}
