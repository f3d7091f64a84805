/**
 * The authorization gate: for a request to a resource guarded by the API-key
 * policy, grants the requirement when the request's `ApiKey` header holds a
 * key that validates, and otherwise does nothing. It never records a failure;
 * the surrounding framework denies when no handler granted.
 */
module ApiKeyAuthorization {
  import opened Wrappers
  import opened ApiKeyRecords
  import opened ApiKeyStore
  import opened ApiKeyManagement

  /** The current request as the gate sees it: the value of its `ApiKey` header, if sent. */
  datatype HttpContext = HttpContext(apiKeyHeader: Option<string>)

  /**
   * `char.IsWhiteSpace`: the space, line and paragraph separators of Unicode,
   * the controls U+0009 to U+000D, U+0085 and U+00A0.
   */
  predicate IsWhiteSpace(c: char)
  {
    var n := c as int;
    || (0x09 <= n <= 0x0D) || n == 0x20 || n == 0x85 || n == 0xA0 || n == 0x1680
    || (0x2000 <= n <= 0x200A) || n == 0x2028 || n == 0x2029 || n == 0x202F
    || n == 0x205F || n == 0x3000
  }

  /** `string.IsNullOrWhiteSpace` of a header value that is present: empty or all white space. */
  predicate IsBlank(s: string)
  {
    forall i :: 0 <= i < |s| ==> IsWhiteSpace(s[i])
  }

  /** The header carries something to validate: it was sent and is not blank. */
  predicate Presented(header: Option<string>)
  {
    header.Some? && !IsBlank(header.value)
  }

  /** The grant rule: grant exactly when a key was presented and it validated. */
  function Decide(header: Option<string>, valid: bool): (grant: bool)
    ensures grant <==> valid && header.Some? && exists i :: 0 <= i < |header.value| && !IsWhiteSpace(header.value[i])
  {
    Presented(header) && valid
  }

  /** What validation answers for the header against table rows `rs`. */
  predicate HeaderValid(rs: seq<ApiKeyRecord>, digest: string -> string, salt: string, header: Option<string>)
  {
    header.Some? && Accepts(rs, digest, salt, header.value)
  }

  /** The part of the authorization context the gate touches. */
  class AuthorizationHandlerContext {
    /** Some handler called `Succeed` for the API-key requirement. */
    var succeeded: bool
    /** Some handler called `Fail`. */
    var failCalled: bool

    constructor ()
      ensures !succeeded && !failCalled
    {
      succeeded := false;
      failCalled := false;
    }

    method Succeed()
      modifies this
      ensures succeeded && failCalled == old(failCalled)
    {
      succeeded := true;
    }
  }

  class ApiKeyAuthorizationHandler {
    const manager: ApiKeyManager

    constructor (manager: ApiKeyManager)
      ensures this.manager == manager
    {
      this.manager := manager;
    }

    /**
     * Handles the API-key requirement for the current request `httpContext`
     * (None when there is none). `validated` tells whether the key was sent
     * to validation: only when there is a request whose header is presented.
     * The requirement is granted by the decision rule; nothing is failed and
     * the key table is not written.
     */
    method HandleRequirement(httpContext: Option<HttpContext>, context: AuthorizationHandlerContext)
      returns (ghost validated: bool)
      requires manager.Valid()
      modifies context
      ensures validated <==> httpContext.Some? && Presented(httpContext.value.apiKeyHeader)
      ensures context.succeeded == (old(context.succeeded) || (httpContext.Some? &&
        Decide(httpContext.value.apiKeyHeader,
               HeaderValid(manager.table.records, manager.digest, manager.salt, httpContext.value.apiKeyHeader))))
      ensures context.failCalled == old(context.failCalled)
      ensures unchanged(manager.table) && manager.Valid()
    {
      validated := false;
      if httpContext.None? {
        return;
      }
      var apiKey := httpContext.value.apiKeyHeader;
      if apiKey.Some? && !IsBlank(apiKey.value) {
        validated := true;
        var valid := manager.Validate(apiKey.value);
        if valid {
          context.Succeed();
        }
      }
    }
  }

  /** A character of the base64 alphabet, padding included (section 4 of RFC 4648). */
  predicate IsBase64Char(c: char)
  {
    ('A' <= c <= 'Z') || ('a' <= c <= 'z') || ('0' <= c <= '9') || c == '+' || c == '/' || c == '='
  }

  /** The shape of an issued key: non-empty base64 text (of 32 random bytes, 44 characters). */
  predicate IsBase64Text(key: string)
  {
    |key| > 0 && forall i :: 0 <= i < |key| ==> IsBase64Char(key[i])
  }

  /** An issued key, non-empty base64 text, is never blank, so the gate always validates it. */
  lemma IssuedKeyIsPresented(key: string)
    requires IsBase64Text(key)
    ensures Presented(Some(key))
  {
    assert !IsWhiteSpace(key[0]);
  }

  /** A request carrying a key right after it was issued is granted. */
  lemma IssuedKeyIsGranted(rs: seq<ApiKeyRecord>, digest: string -> string, salt: string,
                           name: string, key: string, now: Timestamp, id: int)
    requires IsBase64Text(key)
    ensures var after := Upsert(rs, name, KeyHash(digest, salt, key), now, id);
      Decide(Some(key), HeaderValid(after, digest, salt, Some(key)))
  {
    IssuedKeyIsPresented(key);
    IssuedKeyValidates(rs, digest, salt, name, key, now, id);
  }

  /** A missing or blank header is never granted, whatever validation would say. */
  lemma UnpresentedHeaderIsNeverGranted(header: Option<string>, valid: bool)
    requires header.None? || IsBlank(header.value)
    ensures !Decide(header, valid)
  {
  }

  /**
   * One evaluation of the API-key policy for a request: a fresh context,
   * this handler, and the framework's default of denying unless granted.
   */
  method AuthorizeRequest(handler: ApiKeyAuthorizationHandler, httpContext: Option<HttpContext>)
    returns (granted: bool)
    requires handler.manager.Valid()
    ensures granted <==>
      && httpContext.Some?
      && Presented(httpContext.value.apiKeyHeader)
      && Accepts(handler.manager.table.records, handler.manager.digest, handler.manager.salt,
                 httpContext.value.apiKeyHeader.value)
  {
    var context := new AuthorizationHandlerContext();
    ghost var validated := handler.HandleRequirement(httpContext, context);
    granted := context.succeeded && !context.failCalled;
  }

  /**
   * The scenario of one issued key: issue `k1` to "svc1"; a request with
   * `k1` is granted, one with a `wrong` key (whose hash differs) is not, one
   * without the header is not; revoke "svc1"; `k1` is no longer granted.
   */
  method IssueAuthorizeRevoke(digest: string -> string, salt: string, k1: string, wrong: string, now: Timestamp)
    returns (k1Granted: bool, wrongGranted: bool, missingGranted: bool, revokedGranted: bool)
    requires DigestShaped(digest)
    requires IsBase64Text(k1)
    requires KeyHash(digest, salt, wrong) != KeyHash(digest, salt, k1)
    ensures k1Granted && !wrongGranted && !missingGranted && !revokedGranted
  {
    IssuedKeyIsPresented(k1);
    var table := new ApiKeyTable();
    var manager := new ApiKeyManager(table, digest, salt);
    var handler := new ApiKeyAuthorizationHandler(manager);

    var key := manager.Generate("svc1", k1, now);
    ghost var issued := [ApiKeyRecord(1, "svc1", KeyHash(digest, salt, k1), now)];
    assert table.records == issued;
    k1Granted := AuthorizeRequest(handler, Some(HttpContext(Some(key))));

    assert !Accepts(issued, digest, salt, wrong);
    wrongGranted := AuthorizeRequest(handler, Some(HttpContext(Some(wrong))));
    missingGranted := AuthorizeRequest(handler, Some(HttpContext(None)));

    table.DeleteKey("svc1");
    assert table.records == [];
    revokedGranted := AuthorizeRequest(handler, Some(HttpContext(Some(key))));
  }
}
