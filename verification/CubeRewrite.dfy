/** Rewriting analytics queries: case-insensitive exact matching, and the tenant filter nobody can touch. */
module CubeRewrite {
  import opened Wrappers
  import Parser
  import RelevanceText

  // ----- Queries -----

  datatype Value = Str(s: string) | NotAString(id: nat)

  /** A filter object as callers may send it; anything that is not an object is Ignored. */
  datatype Filter =
    | Node(member: Option<string>, dimension: Option<string>, operator: Option<string>, values: Option<seq<Value>>,
           conjuncts: Group, disjuncts: Group)
    | Ignored

  /** The filters under an "and" or an "or", where there is one. */
  datatype Group = NoGroup | Group(filters: seq<Filter>)

  datatype Query = Query(
    measures: seq<string>, dimensions: seq<string>, segments: seq<string>, timeDimensions: seq<string>,
    filters: Option<seq<Filter>>, order: seq<string>)

  const TENANT_MEMBER := "FeedbackRecords.tenantId"
  const TENANT_CUBE := "FeedbackRecords"
  const REQUIRED_SCOPE := "xm:cube:query"

  /** Visible dimensions matched case-insensitively, with their normalised companions. */
  const CASE_INSENSITIVE_EQUALS_DIMENSIONS: map<string, string> := map[
    "FeedbackRecords.sourceType" := "FeedbackRecords.sourceTypeNormalized",
    "FeedbackRecords.sourceName" := "FeedbackRecords.sourceNameNormalized",
    "FeedbackRecords.fieldType" := "FeedbackRecords.fieldTypeNormalized",
    "FeedbackRecords.fieldLabel" := "FeedbackRecords.fieldLabelNormalized",
    "FeedbackRecords.fieldGroupLabel" := "FeedbackRecords.fieldGroupLabelNormalized",
    "FeedbackRecords.language" := "FeedbackRecords.languageNormalized",
    "FeedbackRecords.valueText" := "FeedbackRecords.valueTextNormalized"]

  predicate IsExact(operator: Option<string>) {
    operator == Some("equals") || operator == Some("notEquals")
  }

  // ----- Collecting members -----

  function Listed(member: Option<string>): seq<string> {
    if member.Some? then [member.value] else []
  }

  function CollectFilterMembers(filters: seq<Filter>): seq<string>
    decreases filters, 0
  {
    if filters == [] then [] else FilterMembers(filters[0]) + CollectFilterMembers(filters[1..])
  }

  function FilterMembers(f: Filter): seq<string>
    decreases f, 1
  {
    match f
    case Ignored => []
    case Node(member, dimension, _, _, conjuncts, disjuncts) =>
      Listed(member) + Listed(dimension)
      + (if conjuncts.Group? then CollectFilterMembers(conjuncts.filters) else [])
      + (if disjuncts.Group? then CollectFilterMembers(disjuncts.filters) else [])
  }

  function CollectQueryMembers(q: Query): seq<string> {
    q.measures + q.dimensions + q.segments + q.timeDimensions
    + (if q.filters.Some? then CollectFilterMembers(q.filters.value) else []) + q.order
  }

  // ----- Normalising filters -----

  type Normalizer = string -> string

  function NormalizeValue(v: Value, norm: Normalizer): Value {
    if v.Str? then Str(norm(v.s)) else v
  }

  function NormalizeValues(values: seq<Value>, norm: Normalizer): seq<Value> {
    seq(|values|, i requires 0 <= i < |values| => NormalizeValue(values[i], norm))
  }

  predicate IsRewritten(f: Filter) {
    f.Node? && f.conjuncts.NoGroup? && f.disjuncts.NoGroup? && IsExact(f.operator)
    && f.member.Some? && f.member.value in CASE_INSENSITIVE_EQUALS_DIMENSIONS
  }

  function NormalizeFilter(f: Filter, norm: Normalizer): Filter
    decreases f, 1
  {
    match f
    case Ignored => f
    case Node(member, _, _, values, conjuncts, disjuncts) =>
      if conjuncts.Group? then f.(conjuncts := Group(NormalizeFilters(conjuncts.filters, norm)))
      else if disjuncts.Group? then f.(disjuncts := Group(NormalizeFilters(disjuncts.filters, norm)))
      else if IsRewritten(f) then
        f.(member := Some(CASE_INSENSITIVE_EQUALS_DIMENSIONS[member.value]),
           values := if values.Some? then Some(NormalizeValues(values.value, norm)) else None)
      else f
  }

  function NormalizeFilters(filters: seq<Filter>, norm: Normalizer): seq<Filter>
    decreases filters, 0
  {
    if filters == [] then [] else [NormalizeFilter(filters[0], norm)] + NormalizeFilters(filters[1..], norm)
  }

  // ----- Rewriting queries -----

  /** The string claims of a security context. */
  type SecurityContext = map<string, string>

  function Claim(context: SecurityContext, claim: string): Option<string> {
    if claim !in context || RelevanceText.Trim(context[claim]) == "" then None
    else Some(RelevanceText.Trim(context[claim]))
  }

  predicate HasClaims(context: SecurityContext, claims: seq<string>) {
    forall i :: 0 <= i < |claims| ==> Claim(context, claims[i]).Some?
  }

  predicate ValidSecurityContext(context: SecurityContext) {
    Claim(context, "tenantId").Some?
    && HasClaims(context, ["feedbackDirectoryId", "workspaceId", "scope", "organizationId", "userId", "jti", "source"])
    && Claim(context, "scope") == Some(REQUIRED_SCOPE)
    && Claim(context, "tenantId") == Claim(context, "feedbackDirectoryId")
  }

  function CubeOf(member: string): string {
    Parser.SplitDots(member)[0]
  }

  predicate QueriesCube(members: seq<string>, cube: string) {
    exists m :: m in members && CubeOf(m) == cube
  }

  function TenantFilter(tenant: string): Filter {
    Node(Some(TENANT_MEMBER), None, Some("equals"), Some([Str(tenant)]), NoGroup, NoGroup)
  }

  datatype Rewrite = Rewritten(query: Query) | InvalidContext | TenantMemberUsed

  function QueryRewrite(q: Query, context: SecurityContext, norm: Normalizer): Rewrite {
    if !ValidSecurityContext(context) then InvalidContext
    else if TENANT_MEMBER in CollectQueryMembers(q) then TenantMemberUsed
    else
      var filters := if q.filters.Some? then NormalizeFilters(q.filters.value, norm) else [];
      var tenant :=
        if QueriesCube(CollectQueryMembers(q), TENANT_CUBE)
        then [TenantFilter(Claim(context, "tenantId").value)] else [];
      Rewritten(q.(filters := Some(filters + tenant)))
  }

  // ----- What filters mean -----

  /** A row's string values by member; how operators other than exact matching decide is left to the database. */
  datatype Row = Row(values: map<string, string>)

  type OtherTest = (string, Option<string>, Option<seq<Value>>) -> bool

  function ValueOf(row: Row, member: string): Option<string> {
    if member in row.values then Some(row.values[member]) else None
  }

  predicate OneOf(v: Option<string>, values: Option<seq<Value>>) {
    v.Some? && values.Some? && Str(v.value) in values.value
  }

  predicate LeafHolds(member: Option<string>, operator: Option<string>, v: Option<string>, values: Option<seq<Value>>,
                      other: OtherTest)
  {
    if operator == Some("equals") then OneOf(v, values)
    else if operator == Some("notEquals") then !OneOf(v, values)
    else other(if operator.Some? then operator.value else "", v, values)
  }

  /** What the database makes of a filter: exact matches are exact. */
  predicate Satisfies(f: Filter, row: Row, other: OtherTest)
    decreases f, 1
  {
    match f
    case Ignored => true
    case Node(member, _, operator, values, conjuncts, disjuncts) =>
      if conjuncts.Group? then AllSatisfied(conjuncts.filters, row, other)
      else if disjuncts.Group? then AnySatisfied(disjuncts.filters, row, other)
      else LeafHolds(member, operator, if member.Some? then ValueOf(row, member.value) else None, values, other)
  }

  predicate AllSatisfied(filters: seq<Filter>, row: Row, other: OtherTest)
    decreases filters, 0
  {
    filters == [] || (Satisfies(filters[0], row, other) && AllSatisfied(filters[1..], row, other))
  }

  predicate AnySatisfied(filters: seq<Filter>, row: Row, other: OtherTest)
    decreases filters, 0
  {
    filters != [] && (Satisfies(filters[0], row, other) || AnySatisfied(filters[1..], row, other))
  }

  /** The text dimensions of feedback records that callers match without regard to case. */
  predicate IsText(member: string) {
    member == "FeedbackRecords.sourceType" || member == "FeedbackRecords.sourceName"
    || member == "FeedbackRecords.fieldType" || member == "FeedbackRecords.fieldLabel"
    || member == "FeedbackRecords.fieldGroupLabel" || member == "FeedbackRecords.language"
    || member == "FeedbackRecords.valueText"
  }

  /** Exactly the text dimensions are mapped, each to the companion that bears its name and "Normalized". */
  lemma CompanionsAreNamed(d: string)
    ensures d in CASE_INSENSITIVE_EQUALS_DIMENSIONS <==> IsText(d)
    ensures IsText(d) ==> CASE_INSENSITIVE_EQUALS_DIMENSIONS[d] == d + "Normalized"
  {
    assert "FeedbackRecords.sourceType" + "Normalized" == "FeedbackRecords.sourceTypeNormalized";
    assert "FeedbackRecords.sourceName" + "Normalized" == "FeedbackRecords.sourceNameNormalized";
    assert "FeedbackRecords.fieldType" + "Normalized" == "FeedbackRecords.fieldTypeNormalized";
    assert "FeedbackRecords.fieldLabel" + "Normalized" == "FeedbackRecords.fieldLabelNormalized";
    assert "FeedbackRecords.fieldGroupLabel" + "Normalized" == "FeedbackRecords.fieldGroupLabelNormalized";
    assert "FeedbackRecords.language" + "Normalized" == "FeedbackRecords.languageNormalized";
    assert "FeedbackRecords.valueText" + "Normalized" == "FeedbackRecords.valueTextNormalized";
  }

  function Normalized(v: Option<string>, norm: Normalizer): Option<string> {
    if v.Some? then Some(norm(v.value)) else None
  }

  /** What the caller means: exact matches on the mapped dimensions ignore case and outer white space. */
  predicate Means(f: Filter, row: Row, norm: Normalizer, other: OtherTest)
    decreases f, 1
  {
    match f
    case Ignored => true
    case Node(member, _, operator, values, conjuncts, disjuncts) =>
      if conjuncts.Group? then AllMeant(conjuncts.filters, row, norm, other)
      else if disjuncts.Group? then AnyMeant(disjuncts.filters, row, norm, other)
      else
        var v := if member.Some? then ValueOf(row, member.value) else None;
        if (operator == Some("equals") || operator == Some("notEquals")) && member.Some? && IsText(member.value) then
          LeafHolds(member, operator, Normalized(v, norm),
                    if values.Some? then Some(NormalizeValues(values.value, norm)) else None, other)
        else LeafHolds(member, operator, v, values, other)
  }

  predicate AllMeant(filters: seq<Filter>, row: Row, norm: Normalizer, other: OtherTest)
    decreases filters, 0
  {
    filters == [] || (Means(filters[0], row, norm, other) && AllMeant(filters[1..], row, norm, other))
  }

  predicate AnyMeant(filters: seq<Filter>, row: Row, norm: Normalizer, other: OtherTest)
    decreases filters, 0
  {
    filters != [] && (Means(filters[0], row, norm, other) || AnyMeant(filters[1..], row, norm, other))
  }

  /** Every companion dimension holds the normalised value of its visible one. */
  predicate HasCompanions(row: Row, norm: Normalizer) {
    forall d :: d in CASE_INSENSITIVE_EQUALS_DIMENSIONS ==>
      ValueOf(row, CASE_INSENSITIVE_EQUALS_DIMENSIONS[d]) == Normalized(ValueOf(row, d), norm)
  }

  // ----- Meaning is preserved -----

  lemma {:induction false} NormalizingKeepsMeaning(f: Filter, row: Row, norm: Normalizer, other: OtherTest)
    requires HasCompanions(row, norm)
    ensures Satisfies(NormalizeFilter(f, norm), row, other) == Means(f, row, norm, other)
    decreases f, 1
  {
    hide LeafHolds, NormalizeValues;
    match f
    case Ignored =>
    case Node(member, _, operator, values, conjuncts, disjuncts) =>
      if conjuncts.Group? {
        AllNormalizingKeepsMeaning(conjuncts.filters, row, norm, other);
      } else if disjuncts.Group? {
        AllNormalizingKeepsMeaning(disjuncts.filters, row, norm, other);
      } else {
        if member.Some? { CompanionsAreNamed(member.value); }
      }
      if IsRewritten(f) {
        MemberDoesNotMatter(member, Some(CASE_INSENSITIVE_EQUALS_DIMENSIONS[member.value]), operator,
                            Normalized(ValueOf(row, member.value), norm),
                            if values.Some? then Some(NormalizeValues(values.value, norm)) else None, other);
      }
  }

  lemma MemberDoesNotMatter(
    a: Option<string>, b: Option<string>, operator: Option<string>, v: Option<string>, values: Option<seq<Value>>,
    other: OtherTest)
    ensures LeafHolds(a, operator, v, values, other) == LeafHolds(b, operator, v, values, other)
  {
  }

  lemma {:induction false} AllNormalizingKeepsMeaning(
    filters: seq<Filter>, row: Row, norm: Normalizer, other: OtherTest)
    requires HasCompanions(row, norm)
    ensures AllSatisfied(NormalizeFilters(filters, norm), row, other) == AllMeant(filters, row, norm, other)
    ensures AnySatisfied(NormalizeFilters(filters, norm), row, other) == AnyMeant(filters, row, norm, other)
    decreases filters, 0
  {
    if filters != [] {
      NormalizingKeepsMeaning(filters[0], row, norm, other);
      AllNormalizingKeepsMeaning(filters[1..], row, norm, other);
    }
  }

  lemma CompanionsAreNotMapped(d: string)
    requires d in CASE_INSENSITIVE_EQUALS_DIMENSIONS
    ensures CASE_INSENSITIVE_EQUALS_DIMENSIONS[d] !in CASE_INSENSITIVE_EQUALS_DIMENSIONS
  {
    var n := CASE_INSENSITIVE_EQUALS_DIMENSIONS[d];
    assert n[|n| - 10..] == "Normalized";
    forall e | e in CASE_INSENSITIVE_EQUALS_DIMENSIONS
      ensures e[|e| - 1] != 'd'
    {
    }
    assert n[|n| - 10..][9] == 'd';
  }

  /** Normalising what is already normalised changes nothing. */
  lemma {:induction false} NormalizingIsIdempotent(f: Filter, norm: Normalizer)
    ensures NormalizeFilter(NormalizeFilter(f, norm), norm) == NormalizeFilter(f, norm)
    decreases f, 1
  {
    hide NormalizeValues;
    match f
    case Ignored =>
    case Node(member, _, _, _, conjuncts, disjuncts) =>
      if conjuncts.Group? {
        AllNormalizingIsIdempotent(conjuncts.filters, norm);
      } else if disjuncts.Group? {
        AllNormalizingIsIdempotent(disjuncts.filters, norm);
      } else if IsRewritten(f) {
        CompanionsAreNotMapped(member.value);
      }
  }

  lemma {:induction false} AllNormalizingIsIdempotent(filters: seq<Filter>, norm: Normalizer)
    ensures NormalizeFilters(NormalizeFilters(filters, norm), norm) == NormalizeFilters(filters, norm)
    decreases filters, 0
  {
    if filters != [] {
      NormalizingIsIdempotent(filters[0], norm);
      AllNormalizingIsIdempotent(filters[1..], norm);
      var once := NormalizeFilters(filters, norm);
      assert once[0] == NormalizeFilter(filters[0], norm) && once[1..] == NormalizeFilters(filters[1..], norm);
    }
  }

  // ----- The security context -----

  /** A context carries a claim whose text, white space aside, is the given one and not empty. */
  predicate Carries(context: SecurityContext, claim: string, text: string) {
    claim in context && RelevanceText.Trim(context[claim]) == text && text != ""
  }

  ghost predicate HasText(context: SecurityContext, claim: string) {
    exists text :: Carries(context, claim, text)
  }

  lemma ClaimIsText(context: SecurityContext, claim: string)
    ensures Claim(context, claim).Some? <==> HasText(context, claim)
    ensures forall text :: Carries(context, claim, text) <==> Claim(context, claim) == Some(text)
  {
    hide RelevanceText.Trim;
    if Claim(context, claim).Some? { assert Carries(context, claim, Claim(context, claim).value); }
  }

  /**
   * A context is valid exactly when it carries all eight claims, the scope for queries, and the same tenant as
   * tenant and as feedback directory.
   */
  lemma ValidContextExactly(context: SecurityContext)
    ensures ValidSecurityContext(context)
       <==> (exists tenant :: Carries(context, "tenantId", tenant) && Carries(context, "feedbackDirectoryId", tenant))
            && Carries(context, "scope", "xm:cube:query") && HasText(context, "workspaceId")
            && HasText(context, "organizationId") && HasText(context, "userId") && HasText(context, "jti")
            && HasText(context, "source")
  {
    hide Claim, Carries, HasText;
    var claims := ["feedbackDirectoryId", "workspaceId", "scope", "organizationId", "userId", "jti", "source"];
    forall i | 0 <= i < |claims|
      ensures Claim(context, claims[i]).Some? <==> HasText(context, claims[i])
      ensures forall text :: Carries(context, claims[i], text) <==> Claim(context, claims[i]) == Some(text)
    {
      ClaimIsText(context, claims[i]);
    }
    ClaimIsText(context, "tenantId");
    ClaimIsText(context, "feedbackDirectoryId");
    ClaimIsText(context, "scope");
    assert HasClaims(context, claims)
      <==> HasText(context, claims[0]) && HasText(context, claims[1]) && HasText(context, claims[2])
           && HasText(context, claims[3]) && HasText(context, claims[4]) && HasText(context, claims[5])
           && HasText(context, claims[6]);
  }

  // ----- The tenant member -----

  /** A filter mentions a member at some depth. */
  predicate Mentions(f: Filter, x: string) {
    match f
    case Ignored => false
    case Node(member, dimension, _, _, conjuncts, disjuncts) =>
      member == Some(x) || dimension == Some(x)
      || (conjuncts.Group? && exists i :: 0 <= i < |conjuncts.filters| && Mentions(conjuncts.filters[i], x))
      || (disjuncts.Group? && exists i :: 0 <= i < |disjuncts.filters| && Mentions(disjuncts.filters[i], x))
  }

  predicate QueryMentions(q: Query, x: string) {
    x in q.measures || x in q.dimensions || x in q.segments || x in q.timeDimensions || x in q.order
    || (q.filters.Some? && exists i :: 0 <= i < |q.filters.value| && Mentions(q.filters.value[i], x))
  }

  lemma {:induction false} MembersAreMentioned(f: Filter, x: string)
    ensures x in FilterMembers(f) <==> Mentions(f, x)
    decreases f, 1
  {
    if f.Node? {
      if f.conjuncts.Group? { AllMembersAreMentioned(f.conjuncts.filters, x); }
      if f.disjuncts.Group? { AllMembersAreMentioned(f.disjuncts.filters, x); }
    }
  }

  lemma {:induction false} AllMembersAreMentioned(filters: seq<Filter>, x: string)
    ensures x in CollectFilterMembers(filters) <==> exists i :: 0 <= i < |filters| && Mentions(filters[i], x)
    decreases filters, 0
  {
    if filters != [] {
      MembersAreMentioned(filters[0], x);
      AllMembersAreMentioned(filters[1..], x);
      if i :| 0 <= i < |filters| && Mentions(filters[i], x) {
        if i > 0 { assert filters[1..][i - 1] == filters[i]; }
      }
      if i :| 0 <= i < |filters[1..]| && Mentions(filters[1..][i], x) {
        assert filters[i + 1] == filters[1..][i];
      }
    }
  }

  lemma CollectedIsMentioned(q: Query, x: string)
    ensures x in CollectQueryMembers(q) <==> QueryMentions(q, x)
  {
    hide CollectFilterMembers, Mentions;
    if q.filters.Some? { AllMembersAreMentioned(q.filters.value, x); }
  }

  /** A query is accepted exactly in a valid context and when it mentions the tenant member nowhere, at any depth. */
  lemma AcceptedExactly(q: Query, context: SecurityContext, norm: Normalizer)
    ensures QueryRewrite(q, context, norm).Rewritten?
       <==> ValidSecurityContext(context) && !QueryMentions(q, TENANT_MEMBER)
  {
    hide ValidSecurityContext, QueryMentions, CollectQueryMembers, NormalizeFilters;
    CollectedIsMentioned(q, TENANT_MEMBER);
  }

  lemma {:induction false} AllSatisfiedAppend(a: seq<Filter>, b: seq<Filter>, row: Row, other: OtherTest)
    ensures AllSatisfied(a + b, row, other) == (AllSatisfied(a, row, other) && AllSatisfied(b, row, other))
  {
    hide Satisfies;
    if a == [] {
      assert a + b == b;
    } else {
      assert (a + b)[0] == a[0] && (a + b)[1..] == a[1..] + b;
      AllSatisfiedAppend(a[1..], b, row, other);
    }
  }

  lemma TenantFilterHolds(tenant: string, row: Row, other: OtherTest)
    ensures AllSatisfied([TenantFilter(tenant)], row, other) <==> ValueOf(row, TENANT_MEMBER) == Some(tenant)
  {
    var f := TenantFilter(tenant);
    assert [f][1..] == [];
    assert Satisfies(f, row, other) == OneOf(ValueOf(row, TENANT_MEMBER), Some([Str(tenant)]));
  }

  /** Some member of the feedback records cube is queried, in any part of the query and at any filter depth. */
  ghost predicate QueriesFeedbackRecords(q: Query) {
    exists m :: QueryMentions(q, m) && CubeOf(m) == TENANT_CUBE
  }

  lemma QueriedIsMentioned(q: Query)
    ensures QueriesCube(CollectQueryMembers(q), TENANT_CUBE) <==> QueriesFeedbackRecords(q)
  {
    hide CollectQueryMembers, QueryMentions, CubeOf;
    forall m
      ensures m in CollectQueryMembers(q) <==> QueryMentions(q, m)
    {
      CollectedIsMentioned(q, m);
    }
  }

  /** A row the caller means, and of the context's tenant if the query is about feedback records. */
  ghost predicate Selected(q: Query, context: SecurityContext, norm: Normalizer, row: Row, other: OtherTest) {
    (q.filters.Some? ==> AllMeant(q.filters.value, row, norm, other)) &&
    (QueriesFeedbackRecords(q) ==> ValueOf(row, TENANT_MEMBER) == Claim(context, "tenantId"))
  }

  /**
   * An accepted query on the feedback records cube selects exactly the rows of the context's tenant that the
   * caller's filters mean; an accepted query on other cubes selects exactly the rows its filters mean.
   */
  lemma RewriteSelects(q: Query, context: SecurityContext, norm: Normalizer, row: Row, other: OtherTest)
    requires QueryRewrite(q, context, norm).Rewritten? && HasCompanions(row, norm)
    ensures var filters := QueryRewrite(q, context, norm).query.filters;
            filters.Some? && (AllSatisfied(filters.value, row, other) <==> Selected(q, context, norm, row, other))
  {
    hide CollectQueryMembers, QueriesCube, HasCompanions, Satisfies, Means, TenantFilter, Claim;
    var filters := if q.filters.Some? then NormalizeFilters(q.filters.value, norm) else [];
    QueriedIsMentioned(q);
    if q.filters.Some? { AllNormalizingKeepsMeaning(q.filters.value, row, norm, other); }
    var tenant := Claim(context, "tenantId").value;
    TenantFilterHolds(tenant, row, other);
    AllSatisfiedAppend(filters, [TenantFilter(tenant)], row, other);
    assert filters + [] == filters;
  }
}
