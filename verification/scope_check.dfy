/**
 The per-request scope check of `ValuesController`: the `scope` claim of the
 caller's token (absent, or a space-separated list of granted scopes) is
 tested against the scope an action requires. The required scope is a
 configuration string that may be null or empty; in either case nothing is
 authorized.
 */
module ScopeCheck {
  import opened Wrappers
  import opened SpaceSplit

  /** `string.IsNullOrEmpty` of .NET. */
  predicate IsNullOrEmpty(s: Option<string>) {
    s.None? || s.value == ""
  }

  /**
   The guard every action evaluates: the required scope is neither null nor
   empty, the claim is present, and some `' '`-separated segment of the claim
   is ordinally equal to the required scope.
   */
  predicate Authorized(claim: Option<string>, required: Option<string>)
    ensures Authorized(claim, required) ==>
      claim.Some? && required.Some? && required.value != "" && ' ' !in required.value
  {
    if IsNullOrEmpty(required) || claim.None? then false
    else
      SegmentsSpaceFree(claim.value);
      required.value in SplitSpace(claim.value)
  }

  /** A null or empty required scope denies every claim, even one with empty segments. */
  lemma EmptyRequiredDenies(claim: Option<string>, required: Option<string>)
    requires IsNullOrEmpty(required)
    ensures !Authorized(claim, required)
  {
  }

  /**
   Concrete instance: `"a  b"` has an empty segment, so only the emptiness
   guard keeps an empty required scope from being granted.
   */
  lemma GuardStopsEmptySegmentMatch()
    ensures "" in SplitSpace("a  b")
    ensures !Authorized(Some("a  b"), Some(""))
  {
    SplitKeepsEmptySegments();
  }

  /** An absent scope claim is denied whatever scope is required. */
  lemma AbsentClaimDenies(required: Option<string>)
    ensures !Authorized(None, required)
  {
  }

  /**
   With a present claim and a present required scope, the check succeeds iff
   the required scope is non-empty and occurs in the claim as a whole token,
   bounded by spaces or by the ends of the claim.
   */
  lemma AuthorizedIffToken(claim: string, required: string)
    ensures Authorized(Some(claim), Some(required)) <==> required != "" && HasToken(claim, required)
  {
    SegmentIffToken(claim, required);
  }

  /** Matching is on whole tokens: a claim that is one token only admits itself. */
  lemma SingleTokenOnlyAdmitsItself(claim: string, required: string)
    requires ' ' !in claim
    ensures Authorized(Some(claim), Some(required)) <==> required != "" && required == claim
  {
    SplitSpaceFree(claim);
  }

  /** Concrete instance: `read` is a prefix of `read.all` but is not granted by it. */
  lemma PrefixIsNotToken()
    ensures !Authorized(Some("read.all"), Some("read"))
  {
    SingleTokenOnlyAdmitsItself("read.all", "read");
  }

  /** Concrete instance: `read` is granted as the second token of `write read`. */
  lemma SecondTokenGrants()
    ensures Authorized(Some("write read"), Some("read"))
  {
    SingleTokenOnlyAdmitsItself("read", "read");
    assert "write read" == "write" + " " + "read";
    ConcatGrantsUnion("write", "read", Some("read"));
  }

  /** A claim made of two `' '`-separated parts grants exactly what either part grants. */
  lemma ConcatGrantsUnion(c: string, d: string, required: Option<string>)
    ensures Authorized(Some(c + " " + d), required) <==>
      Authorized(Some(c), required) || Authorized(Some(d), required)
  {
    SplitAppend(c, d);
  }

  /** Appending further tokens to a claim never revokes an authorization. */
  lemma AppendKeepsGrant(c: string, extra: string, required: Option<string>)
    requires Authorized(Some(c), required)
    ensures Authorized(Some(c + " " + extra), required)
    ensures Authorized(Some(extra + " " + c), required)
  {
    ConcatGrantsUnion(c, extra, required);
    ConcatGrantsUnion(extra, c, required);
  }

  /** Swapping the two parts of a claim does not change the outcome. */
  lemma SwapPreservesGrant(c: string, d: string, required: Option<string>)
    ensures Authorized(Some(c + " " + d), required) == Authorized(Some(d + " " + c), required)
  {
    ConcatGrantsUnion(c, d, required);
    ConcatGrantsUnion(d, c, required);
  }

  /** Any reordering of the granted scopes in a claim leaves the outcome unchanged. */
  lemma PermutationPreservesGrant(scopes: seq<string>, scopes': seq<string>, required: Option<string>)
    requires |scopes| >= 1 && SpaceFree(scopes) && SpaceFree(scopes')
    requires multiset(scopes) == multiset(scopes')
    ensures Authorized(Some(Join(scopes)), required) == Authorized(Some(Join(scopes')), required)
  {
    assert |scopes'| == |multiset(scopes')| == |multiset(scopes)| == |scopes|;
    SplitJoin(scopes);
    SplitJoin(scopes');
    if required.Some? {
      assert required.value in scopes <==> required.value in multiset(scopes);
      assert required.value in scopes' <==> required.value in multiset(scopes');
    }
  }
}
