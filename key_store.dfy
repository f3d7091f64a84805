/**
 * The SQLite key store: the `ApiKeys` table, updated in place, with the
 * store operations of the SQLite key manager (store a hash under a name,
 * find a stored hash, list all rows by name, delete by name).
 */
module ApiKeyStore {
  import opened Wrappers
  import opened ApiKeyRecords
  import opened NameOrdering

  class ApiKeyTable {
    /** The rows, in insertion order. */
    var records: seq<ApiKeyRecord>
    /** The id the database assigns to the next inserted row. */
    var nextId: int

    /** The schema: unique names, store-assigned ids. */
    ghost predicate Valid()
      reads this
    {
      && 0 < nextId
      && DistinctNames(records)
      && IdsBelow(records, nextId)
    }

    /** A freshly created, empty table. */
    constructor ()
      ensures Valid()
      ensures records == [] && nextId == 1
    {
      records := [];
      nextId := 1;
    }

    /**
     * Stores `hash` under `name` at time `now`: overwrites the hash and time
     * of the row that has the name, or inserts a row with a new id.
     */
    method StoreHash(name: string, hash: string, now: Timestamp)
      requires Valid()
      modifies this
      ensures Valid()
      ensures records == Upsert(old(records), name, hash, now, old(nextId))
      ensures nextId == if Contains(old(records), NameColumn, name) then old(nextId) else old(nextId) + 1
      ensures Contains(records, NameColumn, name)
      ensures forall r :: r in records && r.name == name ==> r.hash == hash && r.createdAt == now
    {
      UpsertKeepsNamesDistinct(records, name, hash, now, nextId);
      UpsertKeepsIds(records, name, hash, now, nextId);
      var existingKey := FirstWhere(records, NameColumn, name);
      if existingKey.Some? {
        var i := existingKey.value;
        records := records[i := records[i].(hash := hash, createdAt := now)];
      } else {
        records := records + [ApiKeyRecord(nextId, name, hash, now)];
        nextId := nextId + 1;
      }
    }

    /** The stored hash equal to `base64Hash`, or the empty string when no row has it. */
    method GetStoredHash(base64Hash: string) returns (stored: string)
      ensures stored == if Contains(records, HashColumn, base64Hash) then base64Hash else ""
    {
      var record := FirstWhere(records, HashColumn, base64Hash);
      stored := if record.Some? then records[record.value].hash else "";
    }

    /** Every row, in ascending name order, with no two names equal. */
    method GetAllKeys() returns (keys: seq<ApiKeyRecord>)
      requires Valid()
      ensures multiset(keys) == multiset(records)
      ensures forall i, j :: 0 <= i < j < |keys| ==>
        NameAtMost(keys[i].name, keys[j].name) && keys[i].name != keys[j].name
    {
      keys := SortByName(records);
      SortByNamePermutes(records);
      SortByNameSorted(records);
      SortByNameKeepsDistinct(records);
    }

    /** Removes the row named `name`; a name with no row is left alone. */
    method DeleteKey(name: string)
      requires Valid()
      modifies this
      ensures Valid()
      ensures records == Delete(old(records), name) && nextId == old(nextId)
      ensures !Contains(records, NameColumn, name)
      ensures !Contains(old(records), NameColumn, name) ==> records == old(records)
    {
      DeleteRemovesName(records, name);
      DeleteKeepsIds(records, name, nextId);
      var record := FirstWhere(records, NameColumn, name);
      if record.Some? {
        var i := record.value;
        records := records[..i] + records[i + 1..];
      }
    }
  }
}
