/** The published snapshots of the API keys, internal/op/apikey.go: writers build the next snapshot
    under a lock and publish it; readers use one snapshot without a lock. */
module ApiKeyIndex {
  import opened Wrappers

  const MIN_LENGTH := 16

  /** A key row with its plaintext. rest stands for the fields a client may edit. */
  datatype Key = Key(value: string, rest: int, createdAt: int, lastUsedAt: int)

  type Table = map<int, Key>

  datatype Snapshot = Snapshot(byId: Table, byKey: map<string, int>)

  datatype Error = Validation | ValueExists | NotFound | Storage

  predicate DistinctValues(table: Table) {
    forall a, b :: a in table && b in table && a != b ==> table[a].value != table[b].value
  }

  /** byKey leads from every plaintext to its row and back. */
  predicate MutualInverse(s: Snapshot) {
    && (forall id :: id in s.byId ==> s.byId[id].value in s.byKey && s.byKey[s.byId[id].value] == id)
    && (forall v :: v in s.byKey ==> s.byKey[v] in s.byId && s.byId[s.byKey[v]].value == v)
  }

  /** Equal up to the time of last use, which is written to the rows alone. */
  predicate SameButUse(a: Table, b: Table) {
    a.Keys == b.Keys && forall id :: id in a ==> a[id].(lastUsedAt := 0) == b[id].(lastUsedAt := 0)
  }

  /** What reading all rows in some order builds: of rows with equal plaintext one wins. */
  predicate IndexOf(table: Table, s: Snapshot) {
    && s.byId == table && (forall id :: id in table ==> table[id].value in s.byKey)
    && forall v :: v in s.byKey ==> s.byKey[v] in table && table[s.byKey[v]].value == v
  }

  /** A snapshot read from the rows is consistent exactly when no two rows share a plaintext. */
  lemma ConsistentIffDistinct(table: Table, s: Snapshot)
    requires IndexOf(table, s)
    ensures MutualInverse(s) <==> DistinctValues(table)
  {
    if MutualInverse(s) {
      forall a, b | a in table && b in table && a != b ensures table[a].value != table[b].value {
        assert s.byKey[table[a].value] == a && s.byKey[table[b].value] == b;
      }
    }
  }

  lemma SameValues(a: Table, b: Table)
    requires SameButUse(a, b)
    ensures DistinctValues(a) <==> DistinctValues(b)
    ensures forall id :: id in a ==> a[id].value == b[id].value && a[id].rest == b[id].rest && a[id].createdAt == b[id].createdAt
  {
    forall id | id in a ensures a[id].value == b[id].value && a[id].rest == b[id].rest && a[id].createdAt == b[id].createdAt {
      assert a[id].(lastUsedAt := 0) == b[id].(lastUsedAt := 0);
    }
  }

  /** A plaintext is accepted by a current snapshot exactly when a row has it, and as that row. */
  lemma AuthenticatesIff(table: Table, s: Snapshot, value: string)
    requires MutualInverse(s) && SameButUse(s.byId, table)
    ensures value in s.byKey <==> exists id :: id in table && table[id].value == value
    ensures value in s.byKey ==> s.byKey[value] in table && table[s.byKey[value]].value == value
  {
    SameValues(s.byId, table);
    if value in s.byKey {
      var id := s.byKey[value];
      assert id in s.byId && s.byId[id].value == value;
    }
    forall id | id in table && table[id].value == value ensures value in s.byKey {
      assert s.byId[id].value == value;
    }
  }

  /** A plaintext belongs to another key exactly when some other row has it. */
  lemma TakenIff(table: Table, s: Snapshot, value: string, id: int)
    requires MutualInverse(s) && SameButUse(s.byId, table)
    ensures value in s.byKey && s.byKey[value] != id <==> exists other :: other in table && other != id && table[other].value == value
  {
    AuthenticatesIff(table, s, value);
    SameValues(s.byId, table);
    forall other | other in table && other != id && table[other].value == value ensures value in s.byKey && s.byKey[value] != id {
      assert s.byId[other].value == value && s.byKey[value] == other;
    }
  }

  lemma PutKeepsInverse(s: Snapshot, id: int, key: Key)
    requires MutualInverse(s) && (key.value in s.byKey ==> s.byKey[key.value] == id)
    ensures var kept := if id in s.byId && s.byId[id].value != key.value then s.byKey - {s.byId[id].value} else s.byKey;
            MutualInverse(Snapshot(s.byId[id := key], kept[key.value := id]))
  {
  }

  lemma DropKeepsInverse(s: Snapshot, id: int)
    requires MutualInverse(s) && id in s.byId
    ensures MutualInverse(Snapshot(s.byId - {id}, s.byKey - {s.byId[id].value}))
  {
  }

  lemma InverseIsDistinct(s: Snapshot)
    requires MutualInverse(s)
    ensures DistinctValues(s.byId)
  {
    forall a, b | a in s.byId && b in s.byId && a != b ensures s.byId[a].value != s.byId[b].value {
      assert s.byKey[s.byId[a].value] == a && s.byKey[s.byId[b].value] == b;
    }
  }

  class ApiKeys {
    var table: Table
    var nextId: int
    var snapshot: Snapshot
    /** Every snapshot published so far with the rows at that moment. */
    ghost var published: seq<(Snapshot, Table)>

    ghost predicate Valid()
      reads this
    {
      && MutualInverse(snapshot) && SameButUse(snapshot.byId, table)
      && nextId > 0 && (forall id :: id in table ==> 0 < id < nextId)
      && forall i :: 0 <= i < |published| ==> MutualInverse(published[i].0) && SameButUse(published[i].0.byId, published[i].1)
    }

    /** The server starts with rows of an earlier run and reads them. */
    constructor (rows: Table, nextId: int)
      requires DistinctValues(rows) && nextId > 0 && forall id :: id in rows ==> 0 < id < nextId
      ensures Valid() && table == rows && snapshot.byId == rows
    {
      table, this.nextId, published := rows, nextId, [];
      snapshot := Snapshot(map[], map[]);
      new;
      var s := ReadAll();
      ConsistentIffDistinct(rows, s);
      snapshot, published := s, [(s, rows)];
    }

    method Publish(next: Snapshot)
      requires MutualInverse(next) && SameButUse(next.byId, table)
      requires nextId > 0 && forall id :: id in table ==> 0 < id < nextId
      requires forall i :: 0 <= i < |published| ==> MutualInverse(published[i].0) && SameButUse(published[i].0.byId, published[i].1)
      modifies `snapshot, `published
      ensures Valid() && snapshot == next && published == old(published) + [(next, table)]
    {
      snapshot := next;
      published := published + [(next, table)];
    }

    predicate Taken(value: string, exclude: int)
      reads this
    {
      value in snapshot.byKey && snapshot.byKey[value] != exclude
    }

    method Create(value: string, rest: int, now: int, dbFails: bool) returns (r: Result<int, Error>)
      requires Valid()
      modifies this
      ensures Valid()
      ensures |value| < MIN_LENGTH ==> r == Failure(Validation)
      ensures |value| >= MIN_LENGTH && (exists id :: id in old(table) && old(table)[id].value == value) ==> r == Failure(ValueExists)
      ensures r.Failure? ==> table == old(table) && snapshot == old(snapshot) && published == old(published)
      ensures r.Failure? && !dbFails ==> |value| < MIN_LENGTH || exists id :: id in old(table) && old(table)[id].value == value
      ensures r.Success? ==> r.value !in old(table) && table == old(table)[r.value := Key(value, rest, now, 0)]
      ensures r.Success? ==> published == old(published) + [(snapshot, table)] && snapshot.byId[r.value] == table[r.value]
    {
      hide SameButUse, MutualInverse;
      if |value| < MIN_LENGTH {
        return Failure(Validation);
      }
      AuthenticatesIff(table, snapshot, value);
      if Taken(value, 0) {
        return Failure(ValueExists);
      }
      KnownIds(snapshot, table);
      if dbFails {
        return Failure(Storage);
      }
      var id, key := nextId, Key(value, rest, now, 0);
      PutKeepsInverse(snapshot, id, key);
      PutKeepsSame(snapshot.byId, table, id, key);
      table, nextId := table[id := key], nextId + 1;
      Publish(Snapshot(snapshot.byId[id := key], snapshot.byKey[value := id]));
      return Success(id);
    }

    static lemma KnownIds(s: Snapshot, table: Table)
      requires MutualInverse(s) && SameButUse(s.byId, table)
      ensures s.byId.Keys == table.Keys && forall v :: v in s.byKey ==> s.byKey[v] in table
    {
    }

    static lemma PutKeepsSame(a: Table, b: Table, id: int, key: Key)
      requires SameButUse(a, b)
      ensures SameButUse(a[id := key], b[id := key])
    {
    }

    static lemma DropKeepsSame(a: Table, b: Table, id: int)
      requires SameButUse(a, b)
      ensures SameButUse(a - {id}, b - {id})
    {
    }

    /** Changes a row. An empty value keeps the plaintext. The time of last use that is written is
        the one of the snapshot, so the row keeps its own exactly when the two agree. */
    method Update(id: int, value: string, rest: int, dbFails: bool) returns (r: Option<Error>)
      requires Valid()
      modifies this
      ensures Valid()
      ensures r.Some? ==> table == old(table) && snapshot == old(snapshot) && published == old(published)
      ensures r == if value != "" && |value| < MIN_LENGTH then Some(Validation)
                   else if id !in old(table) then Some(NotFound)
                   else if value != "" && (exists other :: other in old(table) && other != id && old(table)[other].value == value)
                     then Some(ValueExists)
                   else if dbFails then Some(Storage) else None
      ensures r.None? ==> var was := old(table)[id];
                          var plain := if value == "" then was.value else value;
                          table == old(table)[id := Key(plain, rest, was.createdAt, old(snapshot).byId[id].lastUsedAt)]
      ensures r.None? ==> (table[id].lastUsedAt == old(table)[id].lastUsedAt <==> old(snapshot).byId[id].lastUsedAt == old(table)[id].lastUsedAt)
      ensures r.None? ==> published == old(published) + [(snapshot, table)]
    {
      hide SameButUse, MutualInverse;
      if value != "" && |value| < MIN_LENGTH {
        return Some(Validation);
      }
      KnownIds(snapshot, table);
      if id !in snapshot.byId {
        return Some(NotFound);
      }
      SameValues(snapshot.byId, table);
      var existing := snapshot.byId[id];
      var key := Key(if value == "" then existing.value else value, rest, existing.createdAt, existing.lastUsedAt);
      TakenIff(table, snapshot, key.value, id);
      OwnValue(snapshot, id);
      if Taken(key.value, id) {
        return Some(ValueExists);
      }
      if dbFails {
        return Some(Storage);
      }
      PutKeepsInverse(snapshot, id, key);
      PutKeepsSame(snapshot.byId, table, id, key);
      table := table[id := key];
      var byKey := snapshot.byKey;
      if key.value != existing.value {
        byKey := byKey - {existing.value};
      }
      Publish(Snapshot(snapshot.byId[id := key], byKey[key.value := id]));
      return None;
    }

    static lemma OwnValue(s: Snapshot, id: int)
      requires MutualInverse(s) && id in s.byId
      ensures s.byId[id].value in s.byKey && s.byKey[s.byId[id].value] == id
    {
    }

    method Delete(id: int, dbFails: bool) returns (r: Option<Error>)
      requires Valid()
      modifies this
      ensures Valid()
      ensures r == if id !in old(table) then Some(NotFound) else if dbFails then Some(Storage) else None
      ensures r.Some? ==> table == old(table) && snapshot == old(snapshot) && published == old(published)
      ensures r.None? ==> table == old(table) - {id} && old(table)[id].value !in snapshot.byKey
      ensures r.None? ==> published == old(published) + [(snapshot, table)]
    {
      hide SameButUse, MutualInverse;
      KnownIds(snapshot, table);
      if id !in snapshot.byId {
        return Some(NotFound);
      }
      if dbFails {
        return Some(Storage);
      }
      SameValues(snapshot.byId, table);
      var existing := snapshot.byId[id];
      DropKeepsInverse(snapshot, id);
      DropKeepsSame(snapshot.byId, table, id);
      table := table - {id};
      Publish(Snapshot(snapshot.byId - {id}, snapshot.byKey - {existing.value}));
      return None;
    }

    /** The authentication middleware notes a use in the row, not in the snapshot. */
    method Touch(id: int, now: int)
      requires Valid()
      modifies `table
      ensures Valid() && SameButUse(table, old(table))
      ensures table == if id in old(table) then old(table)[id := old(table)[id].(lastUsedAt := now)] else old(table)
    {
      if id in table {
        table := table[id := table[id].(lastUsedAt := now)];
      }
    }

    method ReadAll() returns (s: Snapshot)
      ensures IndexOf(table, s)
    {
      var byId, byKey: map<string, int> := map[], map[];
      var todo := table.Keys;
      while exists id :: id in todo
        invariant todo <= table.Keys && byId == map id | id in table && id !in todo :: table[id]
        invariant forall id :: id in byId ==> byId[id].value in byKey
        invariant forall v :: v in byKey ==> byKey[v] in byId && byId[byKey[v]].value == v
        decreases todo
      {
        var id :| id in todo;
        todo := todo - {id};
        byId := byId[id := table[id]];
        byKey := byKey[table[id].value := id];
      }
      s := Snapshot(byId, byKey);
    }

    method Refresh(dbFails: bool) returns (r: Option<Error>)
      requires Valid()
      modifies this
      ensures Valid() && table == old(table)
      ensures r == if dbFails then Some(Storage) else None
      ensures r.Some? ==> snapshot == old(snapshot) && published == old(published)
      ensures r.None? ==> snapshot.byId == table && published == old(published) + [(snapshot, table)]
    {
      if dbFails {
        return Some(Storage);
      }
      var next := ReadAll();
      InverseIsDistinct(snapshot);
      SameValues(snapshot.byId, table);
      ConsistentIffDistinct(table, next);
      Publish(next);
      return None;
    }

    /** Authentication: both lookups use one snapshot and the second never misses. */
    method GetByApiKey(value: string) returns (r: Result<Key, Error>)
      requires Valid()
      ensures r.Success? <==> exists id :: id in table && table[id].value == value
      ensures r.Success? ==> r.value.value == value && exists id :: id in table && table[id].(lastUsedAt := 0) == r.value.(lastUsedAt := 0)
      ensures r.Failure? ==> r.error == NotFound
    {
      AuthenticatesIff(table, snapshot, value);
      if value !in snapshot.byKey {
        return Failure(NotFound);
      }
      var id := snapshot.byKey[value];
      return Success(snapshot.byId[id]);
    }
  }

  /** A key is created, used, and then edited: the time of its use is gone from the row. touched are
      the rows after the use and before the edit. */
  method UpdateRewindsUse(keys: ApiKeys, value: string, rest: int, edited: int, now: int, used: int)
      returns (id: int, touched: Table)
    requires keys.Valid() && |value| >= MIN_LENGTH && used != 0
    requires forall i :: i in keys.table ==> keys.table[i].value != value
    modifies keys
    ensures keys.Valid() && id in touched && id in keys.table
    ensures touched[id] == Key(value, rest, now, used)
    ensures keys.table[id] == Key(value, edited, now, 0) && keys.table[id].lastUsedAt != touched[id].lastUsedAt
  {
    hide MutualInverse, SameButUse, DistinctValues;
    var created := keys.Create(value, rest, now, false);
    id := created.value;
    keys.Touch(id, used);
    touched := keys.table;
    var failed := keys.Update(id, "", edited, false);
  }
}
