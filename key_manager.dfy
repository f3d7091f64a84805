/**
 * The key manager: issues a key for a name by storing only the salted hash
 * of the key, and validates a presented key by looking its hash up.
 *
 * The hash is base64(SHA-256(UTF-8(salt + key))); SHA-256 (FIPS 180-4),
 * the UTF-8 encoding and base64 (section 4 of RFC 4648) are not modelled
 * and stand together as the function `digest`, given at construction. What
 * the model relies on about them is stated explicitly: every output is 44
 * characters long (`DigestShaped`), and, where a property needs it, that
 * two particular keys do not collide.
 */
module ApiKeyManagement {
  import opened ApiKeyRecords
  import opened ApiKeyStore

  /** The salt used when none is configured. */
  const DefaultSalt: string := "default_salt_change_in_production"

  /** Length of the base64 text of a 32-byte digest, padding included. */
  const EncodedDigestLength: nat := 44

  /** The stored form of `key`: the one expression both issuing and validating use. */
  function KeyHash(digest: string -> string, salt: string, key: string): (h: string)
    ensures DigestShaped(digest) ==> |h| == EncodedDigestLength
  {
    digest(salt + key)
  }

  /** Every hash text is as long as a base64-encoded SHA-256 digest; in particular never empty. */
  ghost predicate DigestShaped(digest: string -> string)
  {
    forall s :: |digest(s)| == EncodedDigestLength
  }

  /** A table accepts `key` when some row stores its hash. */
  predicate Accepts(rs: seq<ApiKeyRecord>, digest: string -> string, salt: string, key: string)
  {
    Contains(rs, HashColumn, KeyHash(digest, salt, key))
  }

  class ApiKeyManager {
    const table: ApiKeyTable
    const digest: string -> string
    const salt: string

    ghost predicate Valid()
      reads this, table
    {
      table.Valid() && DigestShaped(digest)
    }

    constructor (table: ApiKeyTable, digest: string -> string, salt: string := DefaultSalt)
      requires table.Valid() && DigestShaped(digest)
      ensures Valid()
      ensures this.table == table && this.digest == digest && this.salt == salt
    {
      this.table := table;
      this.digest := digest;
      this.salt := salt;
    }

    /**
     * Issues `rawKey` (the base64 text of 32 random bytes, drawn by the
     * caller) to `name`: stores its hash, never the key, under the name and
     * hands the key back. Right afterwards the key validates.
     */
    method Generate(name: string, rawKey: string, now: Timestamp) returns (apiKey: string)
      requires Valid()
      modifies table
      ensures Valid()
      ensures apiKey == rawKey
      ensures table.records == Upsert(old(table.records), name, KeyHash(digest, salt, apiKey), now, old(table.nextId))
      ensures table.nextId == if Contains(old(table.records), NameColumn, name) then old(table.nextId) else old(table.nextId) + 1
      ensures Accepts(table.records, digest, salt, apiKey)
    {
      apiKey := rawKey;
      var hash := KeyHash(digest, salt, apiKey);
      table.StoreHash(name, hash, now);
      IssuedKeyValidates(old(table.records), digest, salt, name, apiKey, now, old(table.nextId));
    }

    /** True exactly when some row stores the hash of `apiKey`; the table is only read. */
    method Validate(apiKey: string) returns (valid: bool)
      requires Valid()
      ensures valid <==> Accepts(table.records, digest, salt, apiKey)
    {
      var hash := KeyHash(digest, salt, apiKey);
      var storedHash := table.GetStoredHash(hash);
      valid := storedHash == hash;
    }
  }

  /** Right after a key is issued to any name, the table accepts it. */
  lemma IssuedKeyValidates(rs: seq<ApiKeyRecord>, digest: string -> string, salt: string,
                           name: string, key: string, now: Timestamp, id: int)
    ensures Accepts(Upsert(rs, name, KeyHash(digest, salt, key), now, id), digest, salt, key)
  {
    var h := KeyHash(digest, salt, key);
    var u := Upsert(rs, name, h, now, id);
    match FirstWhere(rs, NameColumn, name)
    case Some(i) => assert Value(u[i], HashColumn) == h;
    case None => assert Value(u[|rs|], HashColumn) == h;
  }

  /** Issuing one key does not make a key with a different hash valid. */
  lemma IssueAcceptsNoOtherKey(rs: seq<ApiKeyRecord>, digest: string -> string, salt: string,
                               name: string, issued: string, other: string, now: Timestamp, id: int)
    requires !Accepts(rs, digest, salt, other)
    requires KeyHash(digest, salt, issued) != KeyHash(digest, salt, other)
    ensures !Accepts(Upsert(rs, name, KeyHash(digest, salt, issued), now, id), digest, salt, other)
  {
    var u := Upsert(rs, name, KeyHash(digest, salt, issued), now, id);
    UpsertKeepsOtherRows(rs, name, KeyHash(digest, salt, issued), now, id);
    forall j | 0 <= j < |u|
      ensures u[j].hash != KeyHash(digest, salt, other)
    {
      if u[j].name != name {
        assert Value(rs[j], HashColumn) == u[j].hash;
      }
    }
  }

  /**
   * Re-issuing for a name invalidates the key issued before it: after `k1`
   * then `k2` for the same name, `k2` validates and `k1` does not, provided
   * no other row held `k1`'s hash and the two hashes differ.
   */
  lemma ReissueInvalidatesPrevious(rs: seq<ApiKeyRecord>, digest: string -> string, salt: string, name: string,
                                   k1: string, t1: Timestamp, id1: int, k2: string, t2: Timestamp, id2: int)
    requires !Accepts(rs, digest, salt, k1)
    requires KeyHash(digest, salt, k1) != KeyHash(digest, salt, k2)
    ensures var rs1 := Upsert(rs, name, KeyHash(digest, salt, k1), t1, id1);
      var rs2 := Upsert(rs1, name, KeyHash(digest, salt, k2), t2, id2);
      Accepts(rs2, digest, salt, k2) && !Accepts(rs2, digest, salt, k1)
  {
    var h1, h2 := KeyHash(digest, salt, k1), KeyHash(digest, salt, k2);
    var rs1 := Upsert(rs, name, h1, t1, id1);
    var rs2 := Upsert(rs1, name, h2, t2, id2);
    UpsertKeepsOtherRows(rs, name, h1, t1, id1);
    UpsertKeepsOtherRows(rs1, name, h2, t2, id2);
    IssuedKeyValidates(rs1, digest, salt, name, k2, t2, id2);
    forall j | 0 <= j < |rs2|
      ensures rs2[j].hash != h1
    {
      if rs2[j].name != name {
        assert rs1[j] == rs2[j];
        assert Value(rs[j], HashColumn) == rs2[j].hash;
      }
    }
  }

  /**
   * Revoking a name invalidates the key issued to it, unless another row
   * already held that key's hash.
   */
  lemma RevokeInvalidates(rs: seq<ApiKeyRecord>, digest: string -> string, salt: string,
                          name: string, key: string, now: Timestamp, id: int)
    requires !Accepts(rs, digest, salt, key)
    ensures !Accepts(Delete(Upsert(rs, name, KeyHash(digest, salt, key), now, id), name), digest, salt, key)
  {
    var h := KeyHash(digest, salt, key);
    DeleteUndoesUpsert(rs, name, h, now, id);
    DeleteKeepsOtherRows(rs, name);
    var d := Delete(rs, name);
    forall j | 0 <= j < |d|
      ensures d[j].hash != h
    {
      assert d[j] in rs;
      var k :| 0 <= k < |rs| && rs[k] == d[j];
      assert Value(rs[k], HashColumn) == d[j].hash;
    }
  }
}
