/** `IQueryableExtensions.ApplySort`: turns an `orderBy` string such as "name, age desc" into
    the sequence of `OrderBy("<Property> ascending|descending")` calls it makes on the query.
    What Dynamic LINQ does with those calls is outside the model; a query here is its rows
    plus the sort directives applied to it so far, oldest first. */
module IQueryableExtensions {
  import opened Wrappers
  import opened Text
  import opened PropertyMappingService

  /** One `OrderBy` call: an entity property and its direction. */
  datatype SortDirective = SortDirective(property: string, descending: bool)

  /** The string handed to Dynamic LINQ's `OrderBy`: the property, then its direction. */
  function OrderByArgument(d: SortDirective): (r: string)
    ensures d.property <= r
    ensures EndsWith(r, " descending") <==> d.descending
  {
    var p := d.property;
    var r := p + (if d.descending then " descending" else " ascending");
    assert d.descending ==> r[|r| - 11..] == " descending";
    assert !d.descending && |r| >= 11 ==> r[|r| - 10] != " descending"[1] by {
      if !d.descending && |r| >= 11 {
        assert r[|r| - 10] == " ascending"[0];
      }
    }
    r
  }

  datatype Query<T> = Query(rows: seq<T>, orderings: seq<SortDirective>)

  /** `ArgumentNullException(paramName)` and the `ArgumentException` for an unmapped key. */
  datatype SortError = ArgumentNull(paramName: string) | KeyMappingMissing(key: string)

  /** The direction after `flips` passes through the revert toggle. */
  function Toggled(descending: bool, revert: bool, flips: nat): bool {
    if revert && flips % 2 == 1 then !descending else descending
  }

  /** The directives one clause emits: one per destination property, last property first,
      the k-th of them after `k + 1` passes through the toggle. */
  function PropertyDirectives(v: PropertyMappingValue, descending: bool): (r: seq<SortDirective>)
    ensures |r| == |v.destinationProperties|
  {
    var ps := v.destinationProperties;
    seq(|ps|, k requires 0 <= k < |ps| => SortDirective(ps[|ps| - 1 - k], Toggled(descending, v.revert, k + 1)))
  }

  /** Without revert every directive keeps the requested direction; with revert the toggle
      flips before every property, so the first is reversed and each next one alternates. */
  lemma PropertyDirectivesShape(v: PropertyMappingValue, descending: bool)
    ensures var r := PropertyDirectives(v, descending);
      && (forall k | 0 <= k < |r| :: r[k].property == v.destinationProperties[|r| - 1 - k])
      && (!v.revert ==> forall k | 0 <= k < |r| :: r[k].descending == descending)
      && (v.revert && |r| > 0 ==> r[0].descending == !descending)
      && (v.revert ==> forall k | 0 <= k < |r| - 1 :: r[k + 1].descending == !r[k].descending)
  {
  }

  /** A clause asks for descending order exactly when, trimmed, it ends in " desc" (case matters). */
  predicate ClauseDescending(clause: string) {
    EndsWith(Trim(clause), " desc")
  }

  function ClauseDirectives(d: MappingDictionary, clause: string): (r: Result<seq<SortDirective>, SortError>)
    ensures r.Failure? <==> !ContainsKey(d, PropertyKey(clause))
    ensures r.Failure? ==> r.error == KeyMappingMissing(PropertyKey(clause))
  {
    var key := PropertyKey(clause);
    match Lookup(d, key)
    case None => Failure(KeyMappingMissing(key))
    case Some(v) => Success(PropertyDirectives(v, ClauseDescending(clause)))
  }

  /** `ds` followed by whatever `rest` emits, or the error `rest` stops with. */
  function Then(ds: seq<SortDirective>, rest: Result<seq<SortDirective>, SortError>): Result<seq<SortDirective>, SortError> {
    match rest
    case Success(more) => Success(ds + more)
    case Failure(e) => Failure(e)
  }

  /** What each clause emits on its own, clause by clause. */
  function ClauseResults(d: MappingDictionary, clauses: seq<string>): (r: seq<Result<seq<SortDirective>, SortError>>)
    ensures |r| == |clauses|
    ensures forall k {:trigger ClauseDirectives(d, clauses[k])} | 0 <= k < |clauses| :: r[k] == ClauseDirectives(d, clauses[k])
  {
    seq(|clauses|, k requires 0 <= k < |clauses| => ClauseDirectives(d, clauses[k]))
  }

  /** What visiting the clauses whose results are `results[i - 1]`, `results[i - 2]`, ...,
      `results[0]` emits: the order `ApplySort` visits them in, stopping at the first error. */
  function PlanClauses(results: seq<Result<seq<SortDirective>, SortError>>, i: nat): Result<seq<SortDirective>, SortError>
    requires i <= |results|
  {
    if i == 0 then Success([])
    else
      match results[i - 1]
      case Failure(e) => Failure(e)
      case Success(ds) => Then(ds, PlanClauses(results, i - 1))
  }

  /** Everything `ApplySort` emits for `orderBy`: nothing for a null or blank string. */
  function SortPlan(orderBy: Option<string>, d: MappingDictionary): Result<seq<SortDirective>, SortError> {
    if IsNullOrWhiteSpace(orderBy) then Success([])
    else
      var clauses := Split(orderBy.value, ',');
      PlanClauses(ClauseResults(d, clauses), |clauses|)
  }

  lemma ThenAppend(a: seq<SortDirective>, b: seq<SortDirective>, rest: Result<seq<SortDirective>, SortError>)
    ensures Then(a, Then(b, rest)) == Then(a + b, rest)
    ensures Then([], rest) == rest
  {
    if rest.Success? {
      assert a + (b + rest.value) == (a + b) + rest.value;
      assert [] + rest.value == rest.value;
    }
  }

  /** Visiting clause `i - 1` moves its directives from the plan still ahead to those emitted. */
  lemma PlanAdvance(results: seq<Result<seq<SortDirective>, SortError>>, i: nat, emitted: seq<SortDirective>)
    requires 0 < i <= |results|
    ensures results[i - 1].Failure? ==> Then(emitted, PlanClauses(results, i)) == Failure(results[i - 1].error)
    ensures results[i - 1].Success? ==>
      Then(emitted, PlanClauses(results, i)) == Then(emitted + results[i - 1].value, PlanClauses(results, i - 1))
  {
    if results[i - 1].Success? {
      ThenAppend(emitted, results[i - 1].value, PlanClauses(results, i - 1));
    }
  }

  /** The inner `foreach`: one `OrderBy` call per destination property, last property first,
      toggling the direction before each call when the mapping reverts. */
  method ApplyClause<T>(query: Query<T>, v: PropertyMappingValue, descending: bool) returns (r: Query<T>)
    ensures r == Query(query.rows, query.orderings + PropertyDirectives(v, descending))
  {
    var directives := PropertyDirectives(v, descending);
    var properties := v.destinationProperties;
    var orderDescending := descending;
    r := query;
    var j := |properties|;
    while j > 0
      invariant 0 <= j <= |properties|
      invariant orderDescending == Toggled(descending, v.revert, |properties| - j)
      invariant r == Query(query.rows, query.orderings + directives[..|properties| - j])
    {
      if v.revert {
        orderDescending := !orderDescending;
      }
      r := Query(r.rows, r.orderings + [SortDirective(properties[j - 1], orderDescending)]);
      assert directives[..|properties| - j + 1] == directives[..|properties| - j] + [directives[|properties| - j]];
      j := j - 1;
    }
    assert directives[..|properties|] == directives;
  }

  /** One pass of the outer `foreach`: trims the clause, reads its direction and key, and
      either applies the key's destination properties or fails on an unmapped key. */
  method ApplyOrderByClause<T>(query: Query<T>, d: MappingDictionary, orderByClause: string)
    returns (r: Result<Query<T>, SortError>)
    ensures match ClauseDirectives(d, orderByClause)
      case Success(ds) => r == Success(Query(query.rows, query.orderings + ds))
      case Failure(e) => r == Failure(e)
  {
    var trimmedOrderByClause := Trim(orderByClause);
    var orderDescending := EndsWith(trimmedOrderByClause, " desc");
    var propertyName := BeforeFirstSpace(trimmedOrderByClause);
    assert propertyName == PropertyKey(orderByClause) && orderDescending == ClauseDescending(orderByClause);
    if !ContainsKey(d, propertyName) {
      return Failure(KeyMappingMissing(propertyName));
    }
    var propertyMappingValue := Lookup(d, propertyName).value;
    var sorted := ApplyClause(query, propertyMappingValue, orderDescending);
    return Success(sorted);
  }

  /** The outer `foreach`: visits the clauses last to first and stops at the first failure;
      `results` holds what each clause emits on its own. */
  method ApplyOrderByClauses<T>(query: Query<T>, d: MappingDictionary, orderByAfterSplit: seq<string>,
                                ghost results: seq<Result<seq<SortDirective>, SortError>>)
    returns (r: Result<Query<T>, SortError>)
    requires |results| == |orderByAfterSplit|
    requires forall k {:trigger ClauseDirectives(d, orderByAfterSplit[k])} | 0 <= k < |orderByAfterSplit| ::
      results[k] == ClauseDirectives(d, orderByAfterSplit[k])
    ensures match PlanClauses(results, |results|)
      case Success(ds) => r == Success(Query(query.rows, query.orderings + ds))
      case Failure(e) => r == Failure(e)
  {
    var sorted := query;
    ghost var emitted: seq<SortDirective> := [];
    ghost var plan := PlanClauses(results, |results|);
    var i := |orderByAfterSplit|;
    ThenAppend([], [], plan);
    while i > 0
      invariant 0 <= i <= |orderByAfterSplit|
      invariant sorted == Query(query.rows, query.orderings + emitted)
      invariant plan == Then(emitted, PlanClauses(results, i))
    {
      var next := ApplyOrderByClause(sorted, d, orderByAfterSplit[i - 1]);
      PlanAdvance(results, i, emitted);
      if next.Failure? {
        return next;
      }
      ghost var directives := results[i - 1].value;
      assert query.orderings + emitted + directives == query.orderings + (emitted + directives);
      sorted := next.value;
      emitted := emitted + directives;
      i := i - 1;
    }
    assert emitted + [] == emitted;
    return Success(sorted);
  }

  /** Rejects a null query or dictionary, returns the query as it is for a blank `orderBy`,
      and otherwise appends the planned directives, or stops at the first unmapped key it meets. */
  method ApplySort<T>(source: Option<Query<T>>, orderBy: Option<string>, mappingDictionary: Option<MappingDictionary>)
    returns (r: Result<Query<T>, SortError>)
    ensures source.None? ==> r == Failure(ArgumentNull("source"))
    ensures source.Some? && mappingDictionary.None? ==> r == Failure(ArgumentNull("mappingDictionary"))
    ensures source.Some? && mappingDictionary.Some? ==>
      match SortPlan(orderBy, mappingDictionary.value)
      case Success(ds) => r == Success(Query(source.value.rows, source.value.orderings + ds))
      case Failure(e) => r == Failure(e)
  {
    if source.None? {
      return Failure(ArgumentNull("source"));
    }
    if mappingDictionary.None? {
      return Failure(ArgumentNull("mappingDictionary"));
    }
    if IsNullOrWhiteSpace(orderBy) {
      assert source.value.orderings + [] == source.value.orderings;
      return Success(source.value);
    }
    var orderByAfterSplit := Split(orderBy.value, ',');
    r := ApplyOrderByClauses(source.value, mappingDictionary.value, orderByAfterSplit,
                             ClauseResults(mappingDictionary.value, orderByAfterSplit));
  }

  /** How many directives the first `i` results emit between them. */
  function EmittedCount(results: seq<Result<seq<SortDirective>, SortError>>, i: nat): nat
    requires i <= |results|
  {
    if i == 0 then 0
    else (if results[i - 1].Success? then |results[i - 1].value| else 0) + EmittedCount(results, i - 1)
  }

  /** Visiting the first `i` results succeeds exactly when none of them failed, and then emits
      all their directives; otherwise it stops with the error of the last failed one. */
  lemma {:induction false} PlanClausesOutcome(results: seq<Result<seq<SortDirective>, SortError>>, i: nat)
    requires i <= |results|
    ensures PlanClauses(results, i).Success? <==> forall k | 0 <= k < i :: results[k].Success?
    ensures PlanClauses(results, i).Success? ==> |PlanClauses(results, i).value| == EmittedCount(results, i)
    ensures PlanClauses(results, i).Failure? ==> exists k | 0 <= k < i ::
      && results[k].Failure? && PlanClauses(results, i).error == results[k].error
      && forall j | k < j < i :: results[j].Success?
  {
    if i > 0 {
      PlanClausesOutcome(results, i - 1);
      if results[i - 1].Failure? {
        assert PlanClauses(results, i).error == results[i - 1].error;
      }
    }
  }

  /** How many destination properties the key of `clause` maps to (none when unmapped). */
  function DestinationsOf(d: MappingDictionary, clause: string): nat {
    match Lookup(d, PropertyKey(clause))
    case None => 0
    case Some(v) => |v.destinationProperties|
  }

  /** How many destination properties the first `i` clauses map to. */
  function DestinationCount(d: MappingDictionary, clauses: seq<string>, i: nat): nat
    requires i <= |clauses|
  {
    if i == 0 then 0 else DestinationsOf(d, clauses[i - 1]) + DestinationCount(d, clauses, i - 1)
  }

  /** A mapped clause emits one directive per destination property of its key; an unmapped one
      emits none and maps to none. */
  lemma ClauseDirectivesCount(d: MappingDictionary, clause: string)
    ensures (if ClauseDirectives(d, clause).Success? then |ClauseDirectives(d, clause).value| else 0)
         == DestinationsOf(d, clause)
  {
  }

  /** Clause `k`'s result succeeds exactly when its key is mapped, and otherwise names that key. */
  lemma ClauseResultsMeaning(d: MappingDictionary, clauses: seq<string>)
    ensures var results := ClauseResults(d, clauses);
      forall k | 0 <= k < |clauses| ::
        && (results[k].Success? <==> ContainsKey(d, PropertyKey(clauses[k])))
        && (results[k].Failure? ==> results[k].error == KeyMappingMissing(PropertyKey(clauses[k])))
        && (if results[k].Success? then |results[k].value| else 0) == DestinationsOf(d, clauses[k])
  {
    var results := ClauseResults(d, clauses);
    forall k | 0 <= k < |clauses|
      ensures results[k].Success? <==> ContainsKey(d, PropertyKey(clauses[k]))
      ensures results[k].Failure? ==> results[k].error == KeyMappingMissing(PropertyKey(clauses[k]))
      ensures (if results[k].Success? then |results[k].value| else 0) == DestinationsOf(d, clauses[k])
    {
      assert results[k] == ClauseDirectives(d, clauses[k]);
      ClauseDirectivesCount(d, clauses[k]);
    }
  }

  /** The first `i` results emit one directive per destination property of the first `i`
      clauses. */
  lemma {:induction false} EmittedDestinations(results: seq<Result<seq<SortDirective>, SortError>>, d: MappingDictionary, clauses: seq<string>, i: nat)
    requires |results| == |clauses| && i <= |clauses|
    requires forall k | 0 <= k < |clauses| ::
      (if results[k].Success? then |results[k].value| else 0) == DestinationsOf(d, clauses[k])
    ensures EmittedCount(results, i) == DestinationCount(d, clauses, i)
  {
    if i > 0 {
      EmittedDestinations(results, d, clauses, i - 1);
    }
  }

  /** Visiting all the clauses succeeds exactly when every key is mapped; it then emits one
      directive per destination property, and otherwise fails naming an unmapped key after
      which every clause is mapped. */
  lemma ClausesOutcome(d: MappingDictionary, clauses: seq<string>)
    ensures var plan := PlanClauses(ClauseResults(d, clauses), |clauses|);
      && (plan.Success? <==> AllKeysMapped(d, clauses))
      && (plan.Success? ==> |plan.value| == DestinationCount(d, clauses, |clauses|))
      && (plan.Failure? ==> exists k | 0 <= k < |clauses| ::
            && !ContainsKey(d, PropertyKey(clauses[k]))
            && plan.error == KeyMappingMissing(PropertyKey(clauses[k]))
            && forall j | k < j < |clauses| :: ContainsKey(d, PropertyKey(clauses[j])))
  {
    var results := ClauseResults(d, clauses);
    ClauseResultsMeaning(d, clauses);
    PlanClausesOutcome(results, |clauses|);
    EmittedDestinations(results, d, clauses, |clauses|);
    var plan := PlanClauses(results, |clauses|);
    if plan.Failure? {
      var k :| 0 <= k < |clauses| && results[k].Failure? && plan.error == results[k].error
        && forall j | k < j < |clauses| :: results[j].Success?;
      assert !ContainsKey(d, PropertyKey(clauses[k]));
    }
  }

  /** `ApplySort` succeeds exactly when `ValidMappingExistsFor` accepts the same string against
      the same dictionary. */
  lemma SortPlanAgreesWithValidation(orderBy: Option<string>, d: MappingDictionary)
    ensures SortPlan(orderBy, d).Success?
        <==> IsNullOrWhiteSpace(orderBy) || AllKeysMapped(d, Split(orderBy.value, ','))
  {
    if !IsNullOrWhiteSpace(orderBy) {
      ClausesOutcome(d, Split(orderBy.value, ','));
    }
  }

  /** A string of two clauses: the right one is visited first, so its directives come first. */
  lemma TwoClauses(d: MappingDictionary, orderBy: string)
    requires !AllWhiteSpace(orderBy) && |Split(orderBy, ',')| == 2
    ensures var clauses := Split(orderBy, ',');
      SortPlan(Some(orderBy), d)
         == match ClauseDirectives(d, clauses[1])
            case Failure(e) => Failure(e)
            case Success(db) =>
              match ClauseDirectives(d, clauses[0])
              case Failure(e) => Failure(e)
              case Success(da) => Success(db + da)
  {
    var clauses := Split(orderBy, ',');
    var results := ClauseResults(d, clauses);
    assert results[0] == ClauseDirectives(d, clauses[0]);
    assert results[1] == ClauseDirectives(d, clauses[1]);
    assert SortPlan(Some(orderBy), d) == PlanClauses(results, 2);
    assert PlanClauses(results, 0) == Success([]);
    if results[0].Success? {
      assert results[0].value + [] == results[0].value;
      assert PlanClauses(results, 1) == Success(results[0].value);
    } else {
      assert PlanClauses(results, 1) == Failure(results[0].error);
    }
  }

  /** A string without commas is a single clause. */
  lemma SingleClause(d: MappingDictionary, orderBy: string)
    requires ',' !in orderBy && !AllWhiteSpace(orderBy)
    ensures SortPlan(Some(orderBy), d) == ClauseDirectives(d, orderBy)
  {
    SplitWithoutSeparator(orderBy, ',');
    var results := ClauseResults(d, [orderBy]);
    assert results[0] == ClauseDirectives(d, orderBy);
    assert PlanClauses(results, 0) == Success([]);
    if results[0].Success? {
      assert results[0].value + [] == results[0].value;
    }
  }

  lemma FoldAge()
    ensures Fold("age") == "AGE"
  {
  }

  /** A one-property mapping emits one directive, flipped when the mapping reverts. */
  lemma OnePropertyDirectives(p: string, revert: bool, descending: bool)
    ensures PropertyDirectives(PropertyMappingValue([p], revert), descending) == [SortDirective(p, revert != descending)]
  {
  }

  /** A two-property mapping without revert emits the second property first. */
  lemma TwoPropertyDirectives(p: string, q: string, descending: bool)
    ensures PropertyDirectives(PropertyMappingValue([p, q], false), descending)
         == [SortDirective(q, descending), SortDirective(p, descending)]
  {
  }

  /** A clause whose key is mapped to `v` emits `v`'s directives in the clause's direction. */
  lemma MappedClause(d: MappingDictionary, orderBy: string, v: PropertyMappingValue, descending: bool)
    requires ',' !in orderBy && !AllWhiteSpace(orderBy)
    requires Lookup(d, PropertyKey(orderBy)) == Some(v) && ClauseDescending(orderBy) == descending
    ensures SortPlan(Some(orderBy), d) == Success(PropertyDirectives(v, descending))
  {
    SingleClause(d, orderBy);
  }

  /** "age desc" and "age DESC" both look up the Age entry. */
  lemma AgeClauseKey(orderBy: string)
    requires orderBy == "age desc" || orderBy == "age DESC"
    ensures Lookup(AuthorPropertyMapping, PropertyKey(orderBy)) == Some(PropertyMappingValue(["DateOfBirth"], true))
  {
    var direction := orderBy[3..];
    PropertyKeyOf("", "age", direction);
    assert "" + "age" + direction == orderBy;
    FoldAge();
    AuthorLookups("age");
  }

  lemma AgeDescDirection(orderBy: string)
    requires orderBy == "age desc"
    ensures ',' !in orderBy && !AllWhiteSpace(orderBy) && ClauseDescending(orderBy)
  {
    assert orderBy[0] == 'a' && orderBy[|orderBy| - 1] == 'c';
    TrimUnpadded(orderBy);
    assert orderBy[|orderBy| - 5..] == " desc";
  }

  /** "age desc" sorts by date of birth ascending: Age reverts its direction. */
  lemma AgeDescending(orderBy: string)
    requires orderBy == "age desc"
    ensures SortPlan(Some(orderBy), AuthorPropertyMapping) == Success([SortDirective("DateOfBirth", false)])
  {
    AgeClauseKey(orderBy);
    AgeDescDirection(orderBy);
    MappedClause(AuthorPropertyMapping, orderBy, PropertyMappingValue(["DateOfBirth"], true), true);
    OnePropertyDirectives("DateOfBirth", true, true);
  }

  lemma AgeUpperDescDirection(orderBy: string)
    requires orderBy == "age DESC"
    ensures ',' !in orderBy && !AllWhiteSpace(orderBy) && !ClauseDescending(orderBy)
  {
    assert orderBy[0] == 'a' && orderBy[|orderBy| - 1] == 'C';
    TrimUnpadded(orderBy);
    assert orderBy[|orderBy| - 4] != " desc"[1];
  }

  /** "age DESC" is not descending (the suffix test is case-sensitive), so the revert makes
      it sort by date of birth descending. */
  lemma AgeUpperDesc(orderBy: string)
    requires orderBy == "age DESC"
    ensures SortPlan(Some(orderBy), AuthorPropertyMapping) == Success([SortDirective("DateOfBirth", true)])
  {
    AgeClauseKey(orderBy);
    AgeUpperDescDirection(orderBy);
    MappedClause(AuthorPropertyMapping, orderBy, PropertyMappingValue(["DateOfBirth"], true), false);
    OnePropertyDirectives("DateOfBirth", true, false);
  }

  lemma NameClauseKey(orderBy: string)
    requires orderBy == "name"
    ensures Lookup(AuthorPropertyMapping, PropertyKey(orderBy)) == Some(PropertyMappingValue(["FirstName", "LastName"], false))
  {
    PropertyKeyOf("", "name", "");
    assert "" + "name" + "" == orderBy;
    FoldExamples();
    AuthorLookups("name");
  }

  lemma NameClauseDirection(orderBy: string)
    requires orderBy == "name"
    ensures ',' !in orderBy && !AllWhiteSpace(orderBy) && !ClauseDescending(orderBy)
  {
    assert orderBy[0] == 'n' && orderBy[|orderBy| - 1] == 'e';
    TrimUnpadded(orderBy);
  }

  /** "name" sorts by the last of its destination properties first: LastName, then FirstName. */
  lemma NameAscending(orderBy: string)
    requires orderBy == "name"
    ensures SortPlan(Some(orderBy), AuthorPropertyMapping)
         == Success([SortDirective("LastName", false), SortDirective("FirstName", false)])
  {
    NameClauseKey(orderBy);
    NameClauseDirection(orderBy);
    MappedClause(AuthorPropertyMapping, orderBy, PropertyMappingValue(["FirstName", "LastName"], false), false);
    TwoPropertyDirectives("FirstName", "LastName", false);
  }
}
