# API-key lifecycle and authorization, modelled in Dafny

This project models the core of a small API-key service, adamfoneil/ApiKeys, written in C#.
The service issues opaque keys to named principals and keeps only a salted hash of each key.
At request time it authorizes a request by hashing the key in the request's `ApiKey` header and looking the hash up.

The model has six modules:

- `Wrappers` (`wrappers.dfy`) holds the `Option` type that the lookups return.
- `ApiKeyRecords` (`records.dfy`) holds the rows of the `ApiKeys` table as values. It defines the two writes of the store as functions: `Upsert`, which stores a hash under a name and overwrites the row that already has the name, and `Delete`, which removes the row with a name. Both are built on `FirstWhere`, which is the store's `FirstOrDefaultAsync(k => k.<column> == v)`. `HashByName` reads the table as a dictionary from name to hash, and the lemmas show that an upsert is a dictionary update and a delete is a key removal.
- `NameOrdering` (`ordering.dfy`) gives the order of the listing. `NameAtMost` is the lexicographic order of code points. This is the order SQLite's binary collation gives by comparing UTF-8 bytes. `SortByName` is `ORDER BY Name`, and the lemmas prove that it returns a sorted permutation.
- `ApiKeyStore` (`key_store.dfy`) holds the class `ApiKeyTable`. Its fields are the table's rows and the next id the database hands out. Its methods are the store operations of `SqliteApiKeyManager`, and each method's postcondition ties the new rows to `Upsert`/`Delete` of the old rows. Its invariant `Valid()` is the schema: unique names and store-assigned ids.
- `ApiKeyManagement` (`key_manager.dfy`) holds the class `ApiKeyManager`. Its fields are a salt, a digest function and the table, and its methods are `Generate` and `Validate`. The C# source has an abstract `ApiKeyManager` and a `SqliteApiKeyManager` subclass; the model composes the manager with the table instead.
- `ApiKeyAuthorization` (`authorization.dfy`) is the authorization handler. It has a pure grant rule `Decide`, and `HandleRequirement`, which sets a `succeeded` flag on the authorization context. It also has an end-to-end scenario: issue a key, authorize, revoke, authorize again.

The hash is base64(SHA-256(UTF-8(salt + key))). Together, these steps are one function-valued parameter, `digest`. The model states two assumptions about `digest` explicitly:

- Every output is 44 characters long, the length of base64 text for 32 bytes (`DigestShaped`, part of the manager's invariant).
- Where a property needs collision-freedom, it requires it for the two keys involved, as a precondition of that lemma.

The model does not assume global injectivity. No function into 44-character strings can be injective, so that assumption would be false.

The model follows the code where the code is narrower than "true iff a stored hash equals the digest". `ValidateAsync` returns `storedHash == hash`. The lookup returns the empty string on a miss, so this comparison would also be true when there is no match and the computed hash is empty. It means "a stored hash equals the digest" only because a digest is never empty. `ApiKeyManager.Validate` is proved under `DigestShaped`, and its body keeps the source's comparison.

## Model

| member | source | states |
|---|---|---|
| ApiKeyRecords.FirstWhere | ApiKeys.Service/SqliteApiKeyManager.cs:47-78 | the three lookups at lines 47, 67 and 78: the result is the index of the first row whose column equals the value, with no match before it; it is None exactly when no row matches |
| ApiKeyRecords.Upsert | ApiKeys.Service/SqliteApiKeyManager.cs:47-61 | the rows after storing `hash` under `name`: the row found by name gets the new hash and time, otherwise a row with the next id is appended; afterwards the name has a row, and the row count grows by one exactly when the name had none |
| ApiKeyRecords.UpsertOverwritesExisting | ApiKeys.Service/SqliteApiKeyManager.cs:47-52 | when the name has a row, storing keeps the row count and that row's id and name; it sets the row's hash and time, and every other row stays as it was |
| ApiKeyRecords.UpsertInsertsMissing | ApiKeys.Service/SqliteApiKeyManager.cs:53-61 | when no row has the name, storing appends exactly one row (new id, name, hash, time) after the unchanged old rows |
| ApiKeyRecords.UpsertKeepsOtherRows | ApiKeys.Service/SqliteApiKeyManager.cs:45-63 | every row with a different name after a store is the row at the same position before |
| ApiKeyRecords.UpsertKeepsNamesDistinct | ApiKeys.Service/SqliteApiKeyManager.cs:45-63 | with unique names before, names stay unique, the name has a row, and the name's one row carries the new hash and time |
| ApiKeyRecords.UpsertKeepsIds | ApiKeys.Service/SqliteApiKeyManager.cs:55-60 | a new row takes the next id, so ids stay positive, increasing and below the counter |
| ApiKeyRecords.UpsertIsMapUpdate | ApiKeys.Service/SqliteApiKeyManager.cs:45-63 | read as a name-to-hash dictionary, storing `hash` under `name` is the update `[name := hash]` |
| ApiKeyRecords.Delete | ApiKeys.Service/SqliteApiKeyManager.cs:78-83 | the rows after removing the row found by name, if any; the row count drops by one exactly when the name had a row |
| ApiKeyRecords.DeleteAbsentIsNoOp | ApiKeys.Service/SqliteApiKeyManager.cs:76-84 | deleting a name no row has leaves the table identical |
| ApiKeyRecords.DeleteKeepsOtherRows | ApiKeys.Service/SqliteApiKeyManager.cs:78-83 | every row left was in the table, and every row with another name is still there |
| ApiKeyRecords.DeleteRemovesName | ApiKeys.Service/SqliteApiKeyManager.cs:78-83 | with unique names, afterwards no row has the name, names stay unique, and the count drops by one exactly when the name had a row |
| ApiKeyRecords.DeleteIsIdempotent | ApiKeys.Service/SqliteApiKeyManager.cs:76-84 | deleting a name twice gives the same table as deleting it once |
| ApiKeyRecords.DeleteKeepsIds | ApiKeys.Service/SqliteApiKeyManager.cs:81 | removing a row keeps ids increasing and below the counter |
| ApiKeyRecords.DeleteUndoesUpsert | ApiKeys.Service/SqliteApiKeyManager.cs:45-84 | deleting a name right after storing under it gives the same table as deleting it without the store |
| ApiKeyRecords.DeleteIsMapRemoval | ApiKeys.Service/SqliteApiKeyManager.cs:76-84 | with unique names, read as a dictionary, deleting a name removes exactly that key |
| NameOrdering.NameAtMost | ApiKeys.Service/SqliteApiKeyManager.cs:73 | the binary collation's order on names: the first differing character decides by code point, and a name sorts no later than every name it is a prefix of |
| NameOrdering.SortByName | ApiKeys.Service/SqliteApiKeyManager.cs:73 | `OrderBy(k => k.Name)`: an insertion sort of the rows by `NameAtMost`, as long as the table |
| NameOrdering.NameAtMostTotal | ApiKeys.Service/SqliteApiKeyManager.cs:73 | any two names are comparable in the listing order |
| NameOrdering.NameAtMostTransitive | ApiKeys.Service/SqliteApiKeyManager.cs:73 | the listing order is transitive |
| NameOrdering.NameAtMostAntisymmetric | ApiKeys.Service/SqliteApiKeyManager.cs:73 | two names that each sort no later than the other are equal |
| NameOrdering.SortByNamePermutes | ApiKeys.Service/SqliteApiKeyManager.cs:71-74 | the listing holds exactly the table's rows, each as often as the table does |
| NameOrdering.SortByNameSorted | ApiKeys.Service/SqliteApiKeyManager.cs:71-74 | the listing is in ascending name order |
| NameOrdering.SortByNameKeepsDistinct | ApiKeys.Service/SqliteApiKeyManager.cs:71-74 | a listing of a table with unique names has unique names |
| ApiKeyStore.ApiKeyTable.constructor | ApiKeys.Service/SqliteApiKeyManager.cs:19-29 | a new table is empty, satisfies the schema, and hands out id 1 first |
| ApiKeyStore.ApiKeyTable.StoreHash | ApiKeys.Service/SqliteApiKeyManager.cs:45-63 | the rows become `Upsert` of the old rows, the id counter moves only on insert, the schema holds, and the name's row carries the new hash and time |
| ApiKeyStore.ApiKeyTable.GetStoredHash | ApiKeys.Service/SqliteApiKeyManager.cs:65-69 | returns the hash asked for if some row stores it, otherwise the empty string, and writes nothing |
| ApiKeyStore.ApiKeyTable.GetAllKeys | ApiKeys.Service/SqliteApiKeyManager.cs:71-74 | returns a permutation of all rows, strictly ascending by name |
| ApiKeyStore.ApiKeyTable.DeleteKey | ApiKeys.Service/SqliteApiKeyManager.cs:76-84 | the rows become `Delete` of the old rows, no row has the name afterwards, and an absent name leaves the table unchanged |
| ApiKeyManagement.KeyHash | ApiKeys.Service/ApiKeyManager.cs:19-20 | the stored form of a key, `digest(salt + key)`, the one expression issuing (lines 19-20) and validating (lines 30-31) both compute; under `DigestShaped` it is 44 characters long |
| ApiKeyManagement.ApiKeyManager.constructor | ApiKeys.Service/SqliteApiKeyManager.cs:37-43 | the manager keeps the given table, digest and salt, which defaults to "default_salt_change_in_production" |
| ApiKeyManagement.ApiKeyManager.Generate | ApiKeys.Service/ApiKeyManager.cs:12-26 | returns the raw key itself, stores `digest(salt + key)` (never the key) under the name as an upsert, and the key then validates |
| ApiKeyManagement.ApiKeyManager.Validate | ApiKeys.Service/ApiKeyManager.cs:28-34 | true exactly when some row stores `digest(salt + key)`; it does not write the table |
| ApiKeyManagement.IssuedKeyValidates | ApiKeys.Service/ApiKeyManager.cs:12-34 | after a key is issued to any name, in any table, the table accepts it |
| ApiKeyManagement.IssueAcceptsNoOtherKey | ApiKeys.Service/ApiKeyManager.cs:12-34 | issuing one key does not make another key valid when the two hashes differ |
| ApiKeyManagement.ReissueInvalidatesPrevious | ApiKeys.Service/SqliteApiKeyManager.cs:47-52 | issuing `k1` and then `k2` for the same name accepts `k2` and no longer accepts `k1`, if the hashes differ and no other row held `k1`'s hash |
| ApiKeyManagement.RevokeInvalidates | ApiKeys.Service/SqliteApiKeyManager.cs:76-84 | after issuing a key to a name and deleting the name, the key is not accepted, unless another row held its hash before |
| ApiKeyAuthorization.IsWhiteSpace | ApiKeys.Service/ApiKeyAuthorizationHandler.cs:20 | `char.IsWhiteSpace`: U+0009 to U+000D, U+0020, U+0085, U+00A0, U+1680, U+2000 to U+200A, U+2028, U+2029, U+202F, U+205F and U+3000 |
| ApiKeyAuthorization.IsBlank | ApiKeys.Service/ApiKeyAuthorizationHandler.cs:20 | `string.IsNullOrWhiteSpace` of a header that was sent: empty, or every character white space |
| ApiKeyAuthorization.Decide | ApiKeys.Service/ApiKeyAuthorizationHandler.cs:20-25 | grant exactly when the header is present, has a non-white-space character, and validation answered true |
| ApiKeyAuthorization.AuthorizationHandlerContext.Succeed | ApiKeys.Service/ApiKeyAuthorizationHandler.cs:24 | marks the requirement succeeded and leaves the failure flag alone |
| ApiKeyAuthorization.ApiKeyAuthorizationHandler.constructor | ApiKeys.Service/ApiKeyAuthorizationHandler.cs:8-11 | the handler keeps the manager it is given |
| ApiKeyAuthorization.ApiKeyAuthorizationHandler.HandleRequirement | ApiKeys.Service/ApiKeyAuthorizationHandler.cs:13-27 | validation is called only for a request whose header is present and not blank; the requirement becomes succeeded by `Decide`; failure is never signalled; the key table is unchanged |
| ApiKeyAuthorization.IssuedKeyIsPresented | ApiKeys.Service/ApiKeyAuthorizationHandler.cs:20 | a key of the issued shape (non-empty base64 text) is never blank, so the handler always sends it to validation |
| ApiKeyAuthorization.IssuedKeyIsGranted | ApiKeys.Service/ApiKeyAuthorizationHandler.cs:20-25 | a request carrying a key of the issued shape right after it was issued is granted |
| ApiKeyAuthorization.UnpresentedHeaderIsNeverGranted | ApiKeys.Service/ApiKeyAuthorizationHandler.cs:20 | a missing or blank header is never granted, whatever validation would answer |
| ApiKeyAuthorization.AuthorizeRequest | ApiKeys.Service/ApiKeyAuthorizationHandler.cs:13-27 | with a fresh context, a request is granted exactly when there is a request, its header is presented, and the table accepts the key |
| ApiKeyAuthorization.IssueAuthorizeRevoke | ApiKeys.Service/ApiKeyAuthorizationHandler.cs:13-27 | issue a key to "svc1": it is granted, a key with another hash is not, a missing header is not; after revoking "svc1" the key is not granted |

## Left out

- SHA-256, the UTF-8 encoding and base64 are one opaque `digest` parameter. The model assumes every output is 44 characters long and assumes collision-freedom only for the key pairs that a lemma names.
- `RandomNumberGenerator.Fill` (random bytes): the raw key is a parameter of `Generate`. The model does not check that the key is base64 text of 32 bytes, and `Generate` does not check for collisions with stored hashes, as in the source.
- `DateTime.UtcNow` (wall-clock time): each write takes the time as a `now` parameter.
- Id assignment: the single integer key becomes an `INTEGER PRIMARY KEY AUTOINCREMENT` column, so ids come from SQLite's AUTOINCREMENT sequence and are never reused after a delete; the model keeps that sequence as the counter `nextId`. The sequence's upper limit is not modelled.
- `HasMaxLength(200)` on names and `HasMaxLength(500)` on hashes are not modelled, because neither the mapping layer nor SQLite enforces them on these writes. The non-unique index on `Hash` only affects performance.
- Asynchronous execution, `SaveChangesAsync`, and storage failures are not modelled; failures would propagate as exceptions. Every operation is a synchronous method that succeeds.
- Concurrent `StoreHashAsync` calls for the same name are not modelled; calls run one after another.
- Rows are kept in insertion order, and a query returns the first match. The database gives no order without `ORDER BY`. With unique names, and a hash lookup that returns the hash itself, the results do not depend on the order.
- `ApiKeyAuthorization.HandleRequirement` does not model a header sent several times (joined by commas) or the case-insensitive lookup of the header name. The request is reduced to the value of its `ApiKey` header, and `IHttpContextAccessor` becomes an `Option<HttpContext>` parameter.
- `ApiKeyManager.Validate` compares hashes with plain equality and does not run in constant time. Timing is not a functional property.
- The web application's startup wiring, the demo controller's two constant endpoints, and the authentication stub that always answers "no result" are not modelled, because they contain no logic of their own.
