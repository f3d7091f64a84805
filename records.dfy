/**
 * The rows of the `ApiKeys` table and the two writes the key store makes to
 * them, as values: `Upsert` (store a hash under a name, overwriting the row
 * that already has the name) and `Delete` (remove the row with a name).
 * Table order is insertion order; a query returns the first matching row.
 */
module ApiKeyRecords {
  import opened Wrappers

  /** The wall-clock time the store reads when it writes a row; opaque here. */
  type Timestamp = int

  /** One row: store-assigned id, principal name, salted hash, issue time. */
  datatype ApiKeyRecord = ApiKeyRecord(id: int, name: string, hash: string, createdAt: Timestamp)

  /** The two columns the store looks rows up by. */
  datatype Column = NameColumn | HashColumn

  function Value(r: ApiKeyRecord, c: Column): string
  {
    match c
    case NameColumn => r.name
    case HashColumn => r.hash
  }

  /** Some row has `v` in column `c`. */
  predicate Contains(rs: seq<ApiKeyRecord>, c: Column, v: string)
  {
    exists i :: 0 <= i < |rs| && Value(rs[i], c) == v
  }

  /** The unique index on `Name`: no two rows share a name. */
  predicate DistinctNames(rs: seq<ApiKeyRecord>)
  {
    forall i, j :: 0 <= i < j < |rs| ==> rs[i].name != rs[j].name
  }

  /** Ids grow along table order and stay below the next id to hand out. */
  predicate IdsBelow(rs: seq<ApiKeyRecord>, nextId: int)
  {
    && (forall i :: 0 <= i < |rs| ==> 0 < rs[i].id < nextId)
    && (forall i, j :: 0 <= i < j < |rs| ==> rs[i].id < rs[j].id)
  }

  /**
   * The index of the first row whose column `c` equals `v`, or None:
   * the query `FirstOrDefaultAsync(k => k.<c> == v)`.
   */
  function FirstWhere(rs: seq<ApiKeyRecord>, c: Column, v: string): (found: Option<nat>)
    ensures found.Some? ==> found.value < |rs| && Value(rs[found.value], c) == v
    ensures found.Some? ==> forall j :: 0 <= j < found.value ==> Value(rs[j], c) != v
    ensures found.None? <==> !Contains(rs, c, v)
  {
    if rs == [] then None
    else if Value(rs[0], c) == v then Some(0)
    else
      match FirstWhere(rs[1..], c, v)
      case None =>
        assert forall i :: 1 <= i < |rs| ==> rs[i] == rs[1..][i - 1];
        None
      case Some(i) => Some(i + 1)
  }

  /** The first row matching is the one that matches with no match before it. */
  lemma FirstWhereAt(rs: seq<ApiKeyRecord>, c: Column, v: string, k: nat)
    requires k < |rs| && Value(rs[k], c) == v
    requires forall j :: 0 <= j < k ==> Value(rs[j], c) != v
    ensures FirstWhere(rs, c, v) == Some(k)
  {
  }

  /** The rows after the first keep their names apart, and apart from the first's. */
  lemma DistinctNamesTail(rs: seq<ApiKeyRecord>)
    requires rs != [] && DistinctNames(rs)
    ensures DistinctNames(rs[1..])
    ensures !Contains(rs[1..], NameColumn, rs[0].name)
  {
    assert forall k :: 0 <= k < |rs[1..]| ==> rs[1..][k] == rs[k + 1];
  }

  /** The row `name` holds after storing `hash` for it at time `now`; `id` is used only for a new row. */
  function Upsert(rs: seq<ApiKeyRecord>, name: string, hash: string, now: Timestamp, id: int): (u: seq<ApiKeyRecord>)
    ensures Contains(u, NameColumn, name)
    ensures |u| == if Contains(rs, NameColumn, name) then |rs| else |rs| + 1
  {
    match FirstWhere(rs, NameColumn, name)
    case Some(i) =>
      var u := rs[i := rs[i].(hash := hash, createdAt := now)];
      assert Value(u[i], NameColumn) == name;
      u
    case None =>
      var u := rs + [ApiKeyRecord(id, name, hash, now)];
      assert Value(u[|rs|], NameColumn) == name;
      u
  }

  /** The table after removing the row named `name`, if there is one. */
  function Delete(rs: seq<ApiKeyRecord>, name: string): (d: seq<ApiKeyRecord>)
    ensures |d| == if Contains(rs, NameColumn, name) then |rs| - 1 else |rs|
  {
    match FirstWhere(rs, NameColumn, name)
    case Some(i) => rs[..i] + rs[i + 1..]
    case None => rs
  }

  /** Position by position, removing index `i` shifts the later rows down by one. */
  lemma RemovedAt(rs: seq<ApiKeyRecord>, i: nat)
    requires i < |rs|
    ensures var d := rs[..i] + rs[i + 1..];
      && |d| == |rs| - 1
      && (forall j :: 0 <= j < i ==> d[j] == rs[j])
      && (forall j :: i <= j < |d| ==> d[j] == rs[j + 1])
  {
  }

  /**
   * The table read as a dictionary from name to stored hash; where two rows
   * share a name the first one is seen, as every query sees it.
   */
  function HashByName(rs: seq<ApiKeyRecord>): map<string, string>
  {
    if rs == [] then map[] else HashByName(rs[1..])[rs[0].name := rs[0].hash]
  }

  // ---------------------------------------------------------------------
  // Upsert

  /** Storing under a name that has a row rewrites that row's hash and time only. */
  lemma UpsertOverwritesExisting(rs: seq<ApiKeyRecord>, name: string, hash: string, now: Timestamp, id: int)
    requires DistinctNames(rs)
    requires Contains(rs, NameColumn, name)
    ensures var u := Upsert(rs, name, hash, now, id);
      && |u| == |rs|
      && forall j :: 0 <= j < |rs| ==>
           if rs[j].name == name
           then u[j] == ApiKeyRecord(rs[j].id, name, hash, now)
           else u[j] == rs[j]
  {
  }

  /** Storing under a new name appends exactly one row and keeps the others. */
  lemma UpsertInsertsMissing(rs: seq<ApiKeyRecord>, name: string, hash: string, now: Timestamp, id: int)
    requires !Contains(rs, NameColumn, name)
    ensures var u := Upsert(rs, name, hash, now, id);
      && |u| == |rs| + 1
      && u[..|rs|] == rs
      && u[|rs|] == ApiKeyRecord(id, name, hash, now)
  {
  }

  /** Rows under any other name are the rows at the same place before. */
  lemma UpsertKeepsOtherRows(rs: seq<ApiKeyRecord>, name: string, hash: string, now: Timestamp, id: int)
    ensures var u := Upsert(rs, name, hash, now, id);
      forall j :: 0 <= j < |u| && u[j].name != name ==> j < |rs| && u[j] == rs[j]
  {
  }

  /**
   * After storing, the name has exactly one row, carrying the new hash and
   * time, and names stay unique.
   */
  lemma UpsertKeepsNamesDistinct(rs: seq<ApiKeyRecord>, name: string, hash: string, now: Timestamp, id: int)
    requires DistinctNames(rs)
    ensures var u := Upsert(rs, name, hash, now, id);
      && DistinctNames(u)
      && Contains(u, NameColumn, name)
      && forall j :: 0 <= j < |u| && u[j].name == name ==> u[j].hash == hash && u[j].createdAt == now
  {
    var u := Upsert(rs, name, hash, now, id);
    match FirstWhere(rs, NameColumn, name)
    case Some(i) => assert Value(u[i], NameColumn) == name;
    case None => assert Value(u[|rs|], NameColumn) == name;
  }

  /** A new row takes the next id, so ids stay increasing and below the counter. */
  lemma UpsertKeepsIds(rs: seq<ApiKeyRecord>, name: string, hash: string, now: Timestamp, nextId: int)
    requires IdsBelow(rs, nextId) && 0 < nextId
    ensures IdsBelow(Upsert(rs, name, hash, now, nextId), nextId + 1)
  {
  }

  /** Upsert on a table whose first row has another name leaves that row first. */
  lemma UpsertTail(rs: seq<ApiKeyRecord>, name: string, hash: string, now: Timestamp, id: int)
    requires rs != [] && rs[0].name != name
    ensures Upsert(rs, name, hash, now, id) == [rs[0]] + Upsert(rs[1..], name, hash, now, id)
  {
    var t := rs[1..];
    assert rs == [rs[0]] + t;
    match FirstWhere(t, NameColumn, name)
    case None =>
      assert FirstWhere(rs, NameColumn, name) == None;
      assert rs + [ApiKeyRecord(id, name, hash, now)] == [rs[0]] + (t + [ApiKeyRecord(id, name, hash, now)]);
    case Some(i) =>
      assert FirstWhere(rs, NameColumn, name) == Some(i + 1);
      var x := t[i].(hash := hash, createdAt := now);
      assert rs[i + 1] == t[i];
      assert rs[i + 1 := x] == [rs[0]] + t[i := x];
  }

  /** Read as a dictionary, storing a hash is a dictionary update. */
  lemma {:induction false} UpsertIsMapUpdate(rs: seq<ApiKeyRecord>, name: string, hash: string, now: Timestamp, id: int)
    ensures HashByName(Upsert(rs, name, hash, now, id)) == HashByName(rs)[name := hash]
  {
    var u := Upsert(rs, name, hash, now, id);
    if rs == [] {
      assert u == [ApiKeyRecord(id, name, hash, now)];
      assert u[1..] == [];
    } else if rs[0].name == name {
      assert u[1..] == rs[1..];
    } else {
      UpsertTail(rs, name, hash, now, id);
      assert u[1..] == Upsert(rs[1..], name, hash, now, id);
      UpsertIsMapUpdate(rs[1..], name, hash, now, id);
    }
  }

  // ---------------------------------------------------------------------
  // Delete

  /** Deleting a name that has no row changes nothing. */
  lemma DeleteAbsentIsNoOp(rs: seq<ApiKeyRecord>, name: string)
    requires !Contains(rs, NameColumn, name)
    ensures Delete(rs, name) == rs
  {
  }

  /** Every row left by a delete was in the table, and so was every row under another name. */
  lemma DeleteKeepsOtherRows(rs: seq<ApiKeyRecord>, name: string)
    ensures forall r :: r in Delete(rs, name) ==> r in rs
    ensures forall r :: r in rs && r.name != name ==> r in Delete(rs, name)
  {
    match FirstWhere(rs, NameColumn, name)
    case None =>
    case Some(i) =>
      var d := rs[..i] + rs[i + 1..];
      RemovedAt(rs, i);
      forall r | r in rs && r.name != name
        ensures r in d
      {
        var k :| 0 <= k < |rs| && rs[k] == r;
        if k < i {
          assert d[k] == r;
        } else {
          assert k > i;
          assert d[k - 1] == r;
        }
      }
  }

  /**
   * With unique names, deleting removes the one row of the name (the count
   * drops by one exactly when it was there) and no row of the name is left.
   */
  lemma DeleteRemovesName(rs: seq<ApiKeyRecord>, name: string)
    requires DistinctNames(rs)
    ensures var d := Delete(rs, name);
      && !Contains(d, NameColumn, name)
      && DistinctNames(d)
      && |d| == if Contains(rs, NameColumn, name) then |rs| - 1 else |rs|
  {
    match FirstWhere(rs, NameColumn, name)
    case None =>
    case Some(i) =>
      var d := rs[..i] + rs[i + 1..];
      RemovedAt(rs, i);
      forall a, b | 0 <= a < b < |d|
        ensures d[a].name != d[b].name
      {
        assert d[a] == rs[if a < i then a else a + 1];
        assert d[b] == rs[if b < i then b else b + 1];
      }
      forall j | 0 <= j < |d|
        ensures Value(d[j], NameColumn) != name
      {
        assert d[j] == rs[if j < i then j else j + 1];
      }
  }

  /** Deleting twice is deleting once. */
  lemma DeleteIsIdempotent(rs: seq<ApiKeyRecord>, name: string)
    requires DistinctNames(rs)
    ensures Delete(Delete(rs, name), name) == Delete(rs, name)
  {
    DeleteRemovesName(rs, name);
  }

  /** Removing a row keeps the ids increasing and below the counter. */
  lemma DeleteKeepsIds(rs: seq<ApiKeyRecord>, name: string, nextId: int)
    requires IdsBelow(rs, nextId)
    ensures IdsBelow(Delete(rs, name), nextId)
  {
    match FirstWhere(rs, NameColumn, name)
    case None =>
    case Some(i) =>
      var d := rs[..i] + rs[i + 1..];
      RemovedAt(rs, i);
      forall j | 0 <= j < |d|
        ensures 0 < d[j].id < nextId
      {
        assert d[j] == rs[if j < i then j else j + 1];
      }
      forall a, b | 0 <= a < b < |d|
        ensures d[a].id < d[b].id
      {
        assert d[a] == rs[if a < i then a else a + 1];
        assert d[b] == rs[if b < i then b else b + 1];
      }
  }

  /** Deleting a name right after storing under it gives what deleting alone gives. */
  lemma DeleteUndoesUpsert(rs: seq<ApiKeyRecord>, name: string, hash: string, now: Timestamp, id: int)
    ensures Delete(Upsert(rs, name, hash, now, id), name) == Delete(rs, name)
  {
    match FirstWhere(rs, NameColumn, name)
    case None =>
      var u := rs + [ApiKeyRecord(id, name, hash, now)];
      assert Upsert(rs, name, hash, now, id) == u;
      FirstWhereAt(u, NameColumn, name, |rs|);
      assert u[..|rs|] + u[|rs| + 1..] == rs;
    case Some(i) =>
      var u := rs[i := rs[i].(hash := hash, createdAt := now)];
      assert Upsert(rs, name, hash, now, id) == u;
      FirstWhereAt(u, NameColumn, name, i);
      assert u[..i] == rs[..i];
      assert u[i + 1..] == rs[i + 1..];
  }

  /** Delete on a table whose first row has another name leaves that row first. */
  lemma DeleteTail(rs: seq<ApiKeyRecord>, name: string)
    requires rs != [] && rs[0].name != name
    ensures Delete(rs, name) == [rs[0]] + Delete(rs[1..], name)
  {
    match FirstWhere(rs[1..], NameColumn, name)
    case None =>
    case Some(i) =>
      assert FirstWhere(rs, NameColumn, name) == Some(i + 1);
      assert rs[..i + 1] == [rs[0]] + rs[1..][..i];
      assert rs[i + 2..] == rs[1..][i + 1..];
  }

  /** A name has a dictionary entry exactly when some row has the name. */
  lemma {:induction false} HashByNameKeys(rs: seq<ApiKeyRecord>, name: string)
    ensures name in HashByName(rs) <==> Contains(rs, NameColumn, name)
  {
    if rs != [] {
      HashByNameKeys(rs[1..], name);
      assert forall i :: 1 <= i < |rs| ==> rs[i] == rs[1..][i - 1];
      if Contains(rs[1..], NameColumn, name) {
        var k :| 0 <= k < |rs[1..]| && rs[1..][k].name == name;
        assert rs[k + 1].name == name;
      }
    }
  }

  lemma MapRemoveAbsent(m: map<string, string>, k: string, v: string)
    requires k !in m
    ensures m[k := v] - {k} == m
  {
  }

  lemma MapRemoveCommutes(m: map<string, string>, k: string, k2: string, v: string)
    requires k != k2
    ensures (m - {k})[k2 := v] == m[k2 := v] - {k}
  {
  }

  /** With unique names, read as a dictionary, deleting a name removes its key. */
  lemma {:induction false} DeleteIsMapRemoval(rs: seq<ApiKeyRecord>, name: string)
    requires DistinctNames(rs)
    ensures HashByName(Delete(rs, name)) == HashByName(rs) - {name}
  {
    if rs != [] {
      DistinctNamesTail(rs);
      var m := HashByName(rs[1..]);
      if rs[0].name == name {
        assert FirstWhere(rs, NameColumn, name) == Some(0);
        assert Delete(rs, name) == rs[1..];
        HashByNameKeys(rs[1..], name);
        MapRemoveAbsent(m, name, rs[0].hash);
      } else {
        DeleteTail(rs, name);
        var d := Delete(rs, name);
        assert d[1..] == Delete(rs[1..], name);
        DeleteIsMapRemoval(rs[1..], name);
        MapRemoveCommutes(m, name, rs[0].name, rs[0].hash);
      }
    }
  }
}
