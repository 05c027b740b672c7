# Scope authorization of the B2C values API

The web API exposes five stub endpoints under `api/values` behind JWT bearer
authentication against Azure AD B2C. Its only logic of its own is the check
each action runs before answering: take the token's `scope` claim (a
space-separated list of granted scopes, or absent), and authorize the request
iff the scope the action requires is neither null nor empty and equals, ordinally,
one of the segments `Split(' ')` cuts the claim into. The two GET actions
require the read scope. POST, PUT and DELETE require the write scope. An
authorized action returns a fixed result; any other request gets
`401 Unauthorized`.

The model has four modules:

- `Wrappers` — `Option`, standing for a C# reference that may be null.
- `SpaceSplit` — `SplitSpace`, the .NET `String.Split(' ')`. It keeps empty
  segments, so `"a  b"` splits to `["a", "", "b"]`. Its partners are `Join`
  (the inverse, proved in both directions) and `HasToken`, a
  position-based definition of "occurs as a whole token". `HasToken` is
  proved to agree exactly with segment membership.
- `ScopeCheck` — `Authorized`, the guard repeated in every action, together
  with its properties.
- `ValuesController` — the request (`Verb`), the response (`Response`), and
  `Handle`, which dispatches to the five actions.

The configured read and write scopes (`Startup.ScopeRead` and
`Startup.ScopeWrite`) are free parameters: they are configuration values set
outside the controller, and no action changes them. The claim lookup
`HttpContext.User.FindFirst(...)?.Value` is an `Option<string>` input. Claims
and scopes are sequences of Unicode scalar values (`seq<char>`), and
`String.Equals` is sequence equality. Both are ordinal and case-sensitive.

## Model

| member | source | states |
|---|---|---|
| SpaceSplit.SplitSpace | B2C-WebApi/Controllers/ValuesController.cs:20 | `Split(' ')` always yields at least one segment, even for the empty claim |
| SpaceSplit.SegmentsSpaceFree | B2C-WebApi/Controllers/ValuesController.cs:20 | no segment produced by `Split(' ')` contains a space |
| SpaceSplit.SplitSpaceFree | B2C-WebApi/Controllers/ValuesController.cs:20 | a claim without spaces splits into exactly one segment, the claim itself |
| SpaceSplit.JoinSplit | B2C-WebApi/Controllers/ValuesController.cs:20 | joining the segments with single spaces gives back the claim exactly, so no character is lost or added, empty segments included |
| SpaceSplit.SplitJoin | B2C-WebApi/Controllers/ValuesController.cs:20 | splitting the join of a non-empty list of space-free scopes gives back that list |
| SpaceSplit.SplitAppend | B2C-WebApi/Controllers/ValuesController.cs:20 | the segments of `a + " " + b` are the segments of `a` followed by the segments of `b` |
| SpaceSplit.SegmentIffToken | B2C-WebApi/Controllers/ValuesController.cs:20 | `t` is a segment of `c` iff `t` is a space-free substring of `c` whose two sides are each a space or an end of `c` |
| SpaceSplit.SplitKeepsEmptySegments | B2C-WebApi/Controllers/ValuesController.cs:20 | `"a  b"` splits into `["a", "", "b"]`, so the empty string is one of its segments |
| ScopeCheck.Authorized | B2C-WebApi/Controllers/ValuesController.cs:18-20 | a granted request has a present claim and a required scope that is non-empty and space-free |
| ScopeCheck.EmptyRequiredDenies | B2C-WebApi/Controllers/ValuesController.cs:19 | a null or empty required scope denies every claim, including claims with empty segments |
| ScopeCheck.GuardStopsEmptySegmentMatch | B2C-WebApi/Controllers/ValuesController.cs:19-20 | `"a  b"` has the empty segment, yet an empty required scope is not granted by it |
| ScopeCheck.AbsentClaimDenies | B2C-WebApi/Controllers/ValuesController.cs:18-19 | an absent scope claim is denied for every required scope |
| ScopeCheck.AuthorizedIffToken | B2C-WebApi/Controllers/ValuesController.cs:19-20 | with claim and required scope present, the request is granted iff the scope is non-empty and occurs in the claim as a whole token |
| ScopeCheck.SingleTokenOnlyAdmitsItself | B2C-WebApi/Controllers/ValuesController.cs:20 | a claim without spaces grants only the one scope equal to the whole claim, so no proper prefix or substring of it is granted |
| ScopeCheck.PrefixIsNotToken | B2C-WebApi/Controllers/ValuesController.cs:20 | `read` is not granted by the claim `read.all` |
| ScopeCheck.SecondTokenGrants | B2C-WebApi/Controllers/ValuesController.cs:20 | `read` is granted by the claim `write read` |
| ScopeCheck.ConcatGrantsUnion | B2C-WebApi/Controllers/ValuesController.cs:20 | the claim `c + " " + d` grants a scope iff `c` grants it or `d` grants it |
| ScopeCheck.AppendKeepsGrant | B2C-WebApi/Controllers/ValuesController.cs:20 | adding tokens before or after a claim never revokes a grant |
| ScopeCheck.SwapPreservesGrant | B2C-WebApi/Controllers/ValuesController.cs:20 | swapping the two parts of a claim does not change what it grants |
| ScopeCheck.PermutationPreservesGrant | B2C-WebApi/Controllers/ValuesController.cs:20 | any reordering of the scopes listed in a claim does not change the outcome |
| ValuesController.Handle | B2C-WebApi/Controllers/ValuesController.cs:16-75 | a request succeeds iff the scope its action requires is granted; the collection GET then returns `["value1","value2"]`, the GET by id returns `"value1"`, and POST, PUT and DELETE return an empty `Ok` |
| ValuesController.EmptyScopeDeniesAction | B2C-WebApi/Controllers/ValuesController.cs:16-75 | every action whose required scope is null or empty answers `Unauthorized` whatever the claim |
| ValuesController.AbsentClaimDeniesAction | B2C-WebApi/Controllers/ValuesController.cs:16-75 | every action answers `Unauthorized` when the scope claim is absent |
| ValuesController.ActionGrantedIffToken | B2C-WebApi/Controllers/ValuesController.cs:16-75 | with a claim present, an action succeeds iff its required scope is non-empty and a whole token of the claim |
| ValuesController.ScopesKeptApart | B2C-WebApi/Controllers/ValuesController.cs:16-75 | the GET actions do not depend on the write scope; POST, PUT and DELETE do not depend on the read scope |
| ValuesController.SingleScopeStaysInItsLane | B2C-WebApi/Controllers/ValuesController.cs:16-75 | when the two scopes differ, a claim holding only the write scope never authorizes a GET, and a claim holding only the read scope never authorizes a write |
| ValuesController.ArgumentsIrrelevant | B2C-WebApi/Controllers/ValuesController.cs:28-75 | two requests to the same action get the same response whatever their `id` and `value` |
| ValuesController.PayloadIndependentOfClaim | B2C-WebApi/Controllers/ValuesController.cs:16-75 | all successful requests to one action get the same response, whatever claim let them through |

## Left out

- `Startup` as a whole: configuration loading, service registration, MVC
  routing and logging. All of it is framework wiring with no logic of its own.
- JWT bearer validation. This covers signature and issuer checks, key retrieval
  and the authority URL built with `string.Format`. An external
  authentication library does this work, and the model starts from a claim
  that has already been validated.
- `AuthenticationFailed`. It writes a diagnostic message to the HTTP response
  stream, which is I/O and text encoding.
- Claim extraction (`HttpContext.User.FindFirst`). The claim is an
  `Option<string>` input.
- The `[Authorize]` attribute, routing, model binding and the `IActionResult`
  types. The response is the small `Response` datatype.
- `id` is an unbounded `int`, not a 32-bit one. No action reads it, so its
  width does not matter.
- LINQ `Any`'s left-to-right, short-circuiting evaluation is modelled as
  sequence membership, which gives the same result.
- Strings with unpaired UTF-16 surrogates. A C# string is a sequence of UTF-16
  code units and may hold a lone surrogate, but a Dafny `char` is a Unicode
  scalar value, so such claims and scopes are not represented. On every other
  string, splitting at U+0020 and ordinal equality give the same results as
  on UTF-16.
