/**
 The five actions of `ValuesController` (`api/values`). Each one reads the
 caller's `scope` claim, runs the scope check against the read scope (the two
 GET actions) or the write scope (POST, PUT, DELETE), and answers with a
 fixed payload or `401 Unauthorized`. The configured read and write scopes
 are parameters: they are configuration values, not constants of the code.
 */
module ValuesController {
  import opened Wrappers
  import opened SpaceSplit
  import opened ScopeCheck

  /** A request, one constructor per action; `value` is the request body. */
  datatype Verb =
    | GetAll
    | GetOne(id: int)
    | Post(value: Option<string>)
    | Put(id: int, value: Option<string>)
    | Delete(id: int)
  {
    /** The two GET actions only read. */
    predicate IsRead() {
      GetAll? || GetOne?
    }
  }

  /** The body of a successful (200) response. */
  datatype Payload =
    | Values(items: seq<string>)   // a JSON array of strings
    | Value(item: string)          // a single JSON string
    | NoBody                       // `Ok()` without content

  datatype Response = Ok(payload: Payload) | Unauthorized

  /** The scope an action requires: reads need the read scope, the rest the write scope. */
  function RequiredScope(verb: Verb, scopeRead: Option<string>, scopeWrite: Option<string>): (r: Option<string>) {
    if verb.IsRead() then scopeRead else scopeWrite
  }

  /** Two requests to the same action, whatever their `id` and `value`. */
  predicate SameAction(v: Verb, w: Verb) {
    || (v.GetAll? && w.GetAll?)
    || (v.GetOne? && w.GetOne?)
    || (v.Post? && w.Post?)
    || (v.Put? && w.Put?)
    || (v.Delete? && w.Delete?)
  }

  /** Dispatches a request to its action and returns that action's response. */
  function Handle(verb: Verb, claim: Option<string>, scopeRead: Option<string>, scopeWrite: Option<string>): (r: Response)
    ensures r.Ok? <==> Authorized(claim, RequiredScope(verb, scopeRead, scopeWrite))
    ensures r.Ok? && verb.GetAll? ==> r.payload == Values(["value1", "value2"])
    ensures r.Ok? && verb.GetOne? ==> r.payload == Value("value1")
    ensures r.Ok? && !verb.IsRead() ==> r.payload == NoBody
  {
    match verb
    case GetAll =>
      if Authorized(claim, scopeRead) then Ok(Values(["value1", "value2"])) else Unauthorized
    case GetOne(_) =>
      if Authorized(claim, scopeRead) then Ok(Value("value1")) else Unauthorized
    case Post(_) =>
      if Authorized(claim, scopeWrite) then Ok(NoBody) else Unauthorized
    case Put(_, _) =>
      if Authorized(claim, scopeWrite) then Ok(NoBody) else Unauthorized
    case Delete(_) =>
      if Authorized(claim, scopeWrite) then Ok(NoBody) else Unauthorized
  }

  /** With a null or empty required scope every action answers `Unauthorized`. */
  lemma EmptyScopeDeniesAction(verb: Verb, claim: Option<string>, scopeRead: Option<string>, scopeWrite: Option<string>)
    requires IsNullOrEmpty(RequiredScope(verb, scopeRead, scopeWrite))
    ensures Handle(verb, claim, scopeRead, scopeWrite) == Unauthorized
  {
    EmptyRequiredDenies(claim, RequiredScope(verb, scopeRead, scopeWrite));
  }

  /** Without a scope claim every action answers `Unauthorized`. */
  lemma AbsentClaimDeniesAction(verb: Verb, scopeRead: Option<string>, scopeWrite: Option<string>)
    ensures Handle(verb, None, scopeRead, scopeWrite) == Unauthorized
  {
    AbsentClaimDenies(RequiredScope(verb, scopeRead, scopeWrite));
  }

  /**
   With a claim present, an action succeeds iff its required scope is non-empty
   and appears in the claim as a whole `' '`-delimited token.
   */
  lemma ActionGrantedIffToken(verb: Verb, claim: string, scopeRead: Option<string>, scopeWrite: Option<string>)
    ensures Handle(verb, Some(claim), scopeRead, scopeWrite).Ok? <==>
      var required := RequiredScope(verb, scopeRead, scopeWrite);
      required.Some? && required.value != "" && HasToken(claim, required.value)
  {
    var required := RequiredScope(verb, scopeRead, scopeWrite);
    if required.Some? {
      AuthorizedIffToken(claim, required.value);
    }
  }

  /** The GET actions never consult the write scope; the others never consult the read scope. */
  lemma ScopesKeptApart(verb: Verb, claim: Option<string>, scopeRead: Option<string>, scopeRead': Option<string>,
                        scopeWrite: Option<string>, scopeWrite': Option<string>)
    ensures verb.IsRead() ==>
      Handle(verb, claim, scopeRead, scopeWrite) == Handle(verb, claim, scopeRead, scopeWrite')
    ensures !verb.IsRead() ==>
      Handle(verb, claim, scopeRead, scopeWrite) == Handle(verb, claim, scopeRead', scopeWrite)
  {
  }

  /**
   A token holding only the write scope cannot read, and one holding only the
   read scope cannot write, unless the two configured scopes coincide.
   */
  lemma SingleScopeStaysInItsLane(verb: Verb, granted: string, scopeRead: Option<string>, scopeWrite: Option<string>)
    requires ' ' !in granted
    ensures verb.IsRead() && scopeWrite == Some(granted) && scopeRead != scopeWrite ==>
      Handle(verb, Some(granted), scopeRead, scopeWrite) == Unauthorized
    ensures !verb.IsRead() && scopeRead == Some(granted) && scopeRead != scopeWrite ==>
      Handle(verb, Some(granted), scopeRead, scopeWrite) == Unauthorized
  {
    SplitSpaceFree(granted);
  }

  /** The `id` and `value` arguments never influence the response. */
  lemma ArgumentsIrrelevant(v: Verb, w: Verb, claim: Option<string>, scopeRead: Option<string>, scopeWrite: Option<string>)
    requires SameAction(v, w)
    ensures Handle(v, claim, scopeRead, scopeWrite) == Handle(w, claim, scopeRead, scopeWrite)
  {
  }

  /** Authorized requests to the same action get the same payload, for every claim that passes. */
  lemma PayloadIndependentOfClaim(verb: Verb, claim: Option<string>, claim': Option<string>,
                                  scopeRead: Option<string>, scopeWrite: Option<string>)
    requires Handle(verb, claim, scopeRead, scopeWrite).Ok?
    requires Handle(verb, claim', scopeRead, scopeWrite).Ok?
    ensures Handle(verb, claim, scopeRead, scopeWrite) == Handle(verb, claim', scopeRead, scopeWrite)
  {
  }
}
