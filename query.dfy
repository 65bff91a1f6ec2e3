/**
 * Label queries (backend/src/query/request.rs). A query is a list of fields,
 * each including or excluding the objects a label lookup finds. The fields
 * run concurrently and are combined as they complete; whatever the
 * completion order, the answer is every object found by a successful
 * including field and by no successful excluding one, in ascending order,
 * and every failed field is reported once with its error.
 *
 * The lookups themselves (`lookup`, `prefix`, `suffix`) have no body in the
 * source; they are a `Resolver` handed in by the caller. The completion
 * order is a parameter too: any permutation of the fields.
 */
module Query {
  import opened Wrappers
  import opened Objects
  import Ordering

  /** `QueryError`. */
  datatype QueryError = Timeout(secs: nat) | Derp

  datatype QueryOp = Include | Exclude

  /** `QueryField`: an operation on the collection and an optional label name and value. */
  datatype QueryField = QueryField(op: QueryOp, collection: string, name: Option<string>, value: Option<string>)

  /** The empty string stands for "no name" or "no value". */
  function Given(s: string): (r: Option<string>)
    ensures r.None? <==> s == []
    ensures r.Some? ==> r.value == s
  {
    if s == [] then None else Some(s)
  }

  /** `QueryField::include`. */
  function IncludeField(collection: string, name: string, value: string): (f: QueryField)
    ensures f.op == Include && f.collection == collection
    ensures (f.name.None? <==> name == []) && (f.value.None? <==> value == [])
    ensures (f.name.Some? ==> f.name.value == name) && (f.value.Some? ==> f.value.value == value)
  {
    QueryField(Include, collection, Given(name), Given(value))
  }

  /** `QueryField::exclude`. */
  function ExcludeField(collection: string, name: string, value: string): (f: QueryField)
    ensures f.op == Exclude && f.collection == collection
    ensures (f.name.None? <==> name == []) && (f.value.None? <==> value == [])
    ensures (f.name.Some? ==> f.name.value == name) && (f.value.Some? ==> f.value.value == value)
  {
    QueryField(Exclude, collection, Given(name), Given(value))
  }

  type Found = Result<seq<ObjectRef>, QueryError>

  /** The three lookups a field can run: by name and value, by name only, by value only. */
  datatype Resolver = Resolver(lookup: QueryField -> Found, prefix: QueryField -> Found, suffix: QueryField -> Found)

  /**
   * `QueryField::run`: the field itself, and the lookup its name and value
   * select; a field with neither cannot be run.
   */
  function RunField(f: QueryField, rs: Resolver): (r: (QueryField, Found))
    ensures r.0 == f
    ensures r.1 == Err(Derp) <== f.name.None? && f.value.None?
    ensures f.name.Some? && f.value.Some? ==> r.1 == rs.lookup(f)
    ensures f.name.Some? && f.value.None? ==> r.1 == rs.prefix(f)
    ensures f.name.None? && f.value.Some? ==> r.1 == rs.suffix(f)
  {
    var res :=
      match (f.name, f.value)
      case (Some(_), Some(_)) => rs.lookup(f)
      case (Some(_), None) => rs.prefix(f)
      case (None, Some(_)) => rs.suffix(f)
      case (None, None) => Err(Derp);
    (f, res)
  }

  /** What field `i` found. */
  function Outcome(fields: seq<QueryField>, i: nat, rs: Resolver): Found
    requires i < |fields|
  {
    RunField(fields[i], rs).1
  }

  /** The objects the successful fields with operation `op` among `done` found. */
  ghost function FoundBy(fields: seq<QueryField>, rs: Resolver, done: set<nat>, op: QueryOp): set<ObjectRef>
  {
    set i, o | i in done && i < |fields| && fields[i].op == op && Outcome(fields, i, rs).Ok?
                 && o in Outcome(fields, i, rs).value :: o
  }

  /** The fields among `done` that failed. */
  ghost function FailedAmong(fields: seq<QueryField>, rs: Resolver, done: set<nat>): set<nat>
  {
    set i | i in done && i < |fields| && Outcome(fields, i, rs).Err?
  }

  /** The indices below `n`. */
  function Range(n: nat): (r: set<nat>)
    ensures forall i: nat :: i in r <==> i < n
    ensures |r| == n
  {
    if n == 0 then {}
    else
      var below := Range(n - 1);
      assert n - 1 !in below;
      below + {n - 1}
  }

  /** The answer of a query: found by an including field and by no excluding one. */
  ghost function Answer(fields: seq<QueryField>, rs: Resolver): set<ObjectRef>
  {
    FoundBy(fields, rs, Range(|fields|), Include) - FoundBy(fields, rs, Range(|fields|), Exclude)
  }

  /** `order` lists every field exactly once. */
  predicate IsCompletionOrder(order: seq<nat>, n: nat)
  {
    |order| == n && (forall k :: 0 <= k < |order| ==> order[k] < n)
    && (forall k, l :: 0 <= k < l < |order| ==> order[k] != order[l])
  }

  /** `QueryResult`: the request's fields and timeout, the answer and the failures. */
  datatype QueryResult = QueryResult(fields: seq<QueryField>, timeoutSecs: nat, results: seq<ObjectRef>, errors: seq<(QueryField, QueryError)>)

  /**
   * What `run_inner` has gathered once the fields in `done` have completed:
   * the excluded objects, and the included ones not (yet) excluded.
   */
  ghost predicate SetsProgress(fields: seq<QueryField>, rs: Resolver, done: set<nat>,
                               results: set<ObjectRef>, excludes: set<ObjectRef>)
  {
    excludes == FoundBy(fields, rs, done, Exclude)
    && results == FoundBy(fields, rs, done, Include) - excludes
  }

  /** One error recorded per failed field among `done`, and nothing else. */
  ghost predicate ErrorsProgress(fields: seq<QueryField>, rs: Resolver, done: set<nat>, errors: seq<(QueryField, QueryError)>)
  {
    |errors| == |FailedAmong(fields, rs, done)|
    && (forall e :: e in errors ==>
          exists i :: i in done && i < |fields| && Outcome(fields, i, rs).Err? && e == (fields[i], Outcome(fields, i, rs).error))
    && (forall i :: i in done && i < |fields| && Outcome(fields, i, rs).Err? ==> (fields[i], Outcome(fields, i, rs).error) in errors)
  }

  ghost predicate Progress(fields: seq<QueryField>, rs: Resolver, done: set<nat>,
                           results: set<ObjectRef>, excludes: set<ObjectRef>, errors: seq<(QueryField, QueryError)>)
  {
    SetsProgress(fields, rs, done, results, excludes) && ErrorsProgress(fields, rs, done, errors)
  }

  /** The result of a query over `fields`: what `run_inner` promises whatever the completion order. */
  ghost predicate Combined(r: QueryResult, fields: seq<QueryField>, rs: Resolver)
  {
    Ordering.Ascending(r.results, Less) && Ordering.Lists(r.results, Answer(fields, rs))
    && |r.errors| == |FailedAmong(fields, rs, Range(|fields|))|
    && (forall e :: e in r.errors ==>
          exists i :: 0 <= i < |fields| && Outcome(fields, i, rs).Err? && e == (fields[i], Outcome(fields, i, rs).error))
    && (forall i :: 0 <= i < |fields| && Outcome(fields, i, rs).Err? ==> (fields[i], Outcome(fields, i, rs).error) in r.errors)
  }

  /**
   * One completed field folded into the state (the body of the `while let`
   * loop of `run_inner`): an including field adds what it found, less what
   * is already excluded; an excluding field removes what it found and
   * remembers it; a failed field is recorded with its error.
   */
  method Absorb(fields: seq<QueryField>, rs: Resolver, ghost done: set<nat>, i: nat,
                results: set<ObjectRef>, excludes: set<ObjectRef>, errors: seq<(QueryField, QueryError)>)
    returns (results': set<ObjectRef>, excludes': set<ObjectRef>, errors': seq<(QueryField, QueryError)>)
    requires i < |fields| && i !in done
    requires Progress(fields, rs, done, results, excludes, errors)
    ensures Progress(fields, rs, done + {i}, results', excludes', errors')
  {
    var (field, res) := RunField(fields[i], rs);
    results', excludes', errors' := results, excludes, errors;
    FoundByStep(fields, rs, done, i);
    match res {
      case Ok(yay) =>
        match field.op {
          case Include =>
            results' := results + ((set o | o in yay) - excludes);
          case Exclude =>
            results' := results - (set o | o in yay);
            excludes' := excludes + (set o | o in yay);
        }
        ErrorsKept(fields, rs, done, i, errors);
      case Err(e) =>
        errors' := errors + [(field, e)];
        ErrorsAdded(fields, rs, done, i, errors);
    }
  }

  lemma ErrorsKept(fields: seq<QueryField>, rs: Resolver, done: set<nat>, i: nat, errors: seq<(QueryField, QueryError)>)
    requires i < |fields| && i !in done && Outcome(fields, i, rs).Ok?
    requires ErrorsProgress(fields, rs, done, errors)
    ensures ErrorsProgress(fields, rs, done + {i}, errors)
  {
    FailedAmongStep(fields, rs, done, i);
    forall e | e in errors
      ensures exists j :: j in done + {i} && j < |fields| && Outcome(fields, j, rs).Err? && e == (fields[j], Outcome(fields, j, rs).error)
    {
      var j :| j in done && j < |fields| && Outcome(fields, j, rs).Err? && e == (fields[j], Outcome(fields, j, rs).error);
      assert j in done + {i};
    }
  }

  lemma ErrorsAdded(fields: seq<QueryField>, rs: Resolver, done: set<nat>, i: nat, errors: seq<(QueryField, QueryError)>)
    requires i < |fields| && i !in done && Outcome(fields, i, rs).Err?
    requires ErrorsProgress(fields, rs, done, errors)
    ensures ErrorsProgress(fields, rs, done + {i}, errors + [(fields[i], Outcome(fields, i, rs).error)])
  {
    FailedAmongStep(fields, rs, done, i);
    var errors' := errors + [(fields[i], Outcome(fields, i, rs).error)];
    forall e | e in errors'
      ensures exists j :: j in done + {i} && j < |fields| && Outcome(fields, j, rs).Err? && e == (fields[j], Outcome(fields, j, rs).error)
    {
      if e in errors {
        var j :| j in done && j < |fields| && Outcome(fields, j, rs).Err? && e == (fields[j], Outcome(fields, j, rs).error);
        assert j in done + {i};
      } else {
        assert i in done + {i};
      }
    }
  }

  /** `QueryRequest`: the fields of a query and how long it may take. */
  class QueryRequest {
    var fields: seq<QueryField>
    var timeoutSecs: nat

    /** `new_with_timeout` (and `new`, which reads the timeout from the configuration). */
    constructor(timeoutSecs: nat)
      ensures fields == [] && this.timeoutSecs == timeoutSecs
    {
      fields := [];
      this.timeoutSecs := timeoutSecs;
    }

    /** `append_field`. */
    method AppendField(f: QueryField)
      modifies this
      ensures fields == old(fields) + [f] && timeoutSecs == old(timeoutSecs)
    {
      fields := fields + [f];
    }

    /**
     * `run_inner`: starts up to `concurrency` fields, runs them all, folding
     * in each outcome as it completes in the given order, drops what is
     * excluded and lists the rest in ascending order. With a bound of 0 no
     * field is started, and the answer is empty.
     */
    method RunInner(rs: Resolver, order: seq<nat>, concurrency: nat) returns (r: QueryResult)
      requires IsCompletionOrder(order, |fields|)
      ensures concurrency > 0 ==> Combined(r, fields, rs)
      ensures concurrency == 0 ==> r.results == [] && r.errors == []
      ensures r.fields == fields && r.timeoutSecs == timeoutSecs
    {
      var started := FillWindow(|fields|, concurrency);
      if started == 0 {
        r := QueryResult(fields, timeoutSecs, [], []);
        if fields == [] {
          ProgressStart(fields, rs);
          Finished(r, fields, rs, {});
        }
        return;
      }
      var results, excludes, errors := RunFields(fields, rs, order);
      results := results - excludes;
      Objects.LessStrictTotal();
      var listed := Ordering.Enumerate(results, Less);
      r := QueryResult(fields, timeoutSecs, listed, errors);
      Finished(r, fields, rs, excludes);
    }

    /**
     * `run`: the query, or `Timeout` when it did not finish within
     * `timeoutSecs` (whether it did is the `finished` parameter).
     */
    method Run(rs: Resolver, order: seq<nat>, concurrency: nat, finished: bool) returns (r: Result<QueryResult, QueryError>)
      requires IsCompletionOrder(order, |fields|)
      ensures !finished ==> r == Err(Timeout(timeoutSecs))
      ensures finished && concurrency > 0 ==> r.Ok? && Combined(r.value, fields, rs) && r.value.fields == fields
      ensures finished && concurrency == 0 ==> r.Ok? && r.value.results == [] && r.value.errors == []
    {
      if !finished {
        return Err(Timeout(timeoutSecs));
      }
      var inner := RunInner(rs, order, concurrency);
      r := Ok(inner);
    }
  }

  // ------------------------------------------------------------ filling the window

  /**
   * The first loop of `run_inner` as written: while fewer than
   * `concurrency` fields are in flight, start the next field if one is
   * left. Each step is one iteration; `fuel` bounds how many are taken,
   * and `None` means the loop had not stopped by then. The result is the
   * number of fields left and the number in flight.
   */
  function FillAsWritten(pending: nat, inFlight: nat, concurrency: nat, fuel: nat): Option<(nat, nat)>
    decreases fuel
  {
    if inFlight >= concurrency then Some((pending, inFlight))
    else if fuel == 0 then None
    else if pending > 0 then FillAsWritten(pending - 1, inFlight + 1, concurrency, fuel - 1)
    else FillAsWritten(pending, inFlight, concurrency, fuel - 1)
  }

  /** With fewer fields than the bound, the loop as written never stops, however long it runs. */
  lemma {:induction false} FillAsWrittenSpins(pending: nat, inFlight: nat, concurrency: nat, fuel: nat)
    requires pending + inFlight < concurrency
    ensures FillAsWritten(pending, inFlight, concurrency, fuel) == None
    decreases fuel
  {
    if fuel > 0 {
      if pending > 0 {
        FillAsWrittenSpins(pending - 1, inFlight + 1, concurrency, fuel - 1);
      } else {
        FillAsWrittenSpins(pending, inFlight, concurrency, fuel - 1);
      }
    }
  }

  /** A one-field query under the default bound of 16 never gets past the loop. */
  lemma OneFieldQueryHangs(fuel: nat)
    ensures FillAsWritten(1, 0, 16, fuel) == None
  {
    FillAsWrittenSpins(1, 0, 16, fuel);
  }

  /** With enough fields, the loop as written stops once the window is full, as the corrected one does. */
  lemma {:induction false} FillAsWrittenStops(pending: nat, inFlight: nat, concurrency: nat, fuel: nat)
    requires inFlight <= concurrency && concurrency - inFlight <= pending && concurrency - inFlight <= fuel
    ensures FillAsWritten(pending, inFlight, concurrency, fuel) == Some((pending - (concurrency - inFlight), concurrency))
    decreases fuel
  {
    if inFlight < concurrency {
      FillAsWrittenStops(pending - 1, inFlight + 1, concurrency, fuel - 1);
    }
  }

  /**
   * The first loop of `run_inner` as evidently intended: start fields until
   * `concurrency` are in flight or none is left.
   */
  method FillWindow(pending: nat, concurrency: nat) returns (started: nat)
    ensures started <= pending && started <= concurrency
    ensures started == pending || started == concurrency
  {
    started := 0;
    while started < concurrency && started < pending
      invariant started <= pending && started <= concurrency
    {
      started := started + 1;
    }
  }

  /** The loop of `run_inner`: every field's outcome folded in, in completion order. */
  method RunFields(fields: seq<QueryField>, rs: Resolver, order: seq<nat>)
    returns (results: set<ObjectRef>, excludes: set<ObjectRef>, errors: seq<(QueryField, QueryError)>)
    requires IsCompletionOrder(order, |fields|)
    ensures Progress(fields, rs, Range(|fields|), results, excludes, errors)
  {
    results, excludes, errors := {}, {}, [];
    ProgressStart(fields, rs);
    var k := 0;
    while k < |order|
      invariant 0 <= k <= |order|
      invariant Progress(fields, rs, Seen(order, k), results, excludes, errors)
    {
      NextUnseen(order, |fields|, k);
      results, excludes, errors := Absorb(fields, rs, Seen(order, k), order[k], results, excludes, errors);
      k := k + 1;
    }
    ProgressDone(fields, rs, order, results, excludes, errors);
  }

  /** Before any field has completed, nothing is gathered. */
  lemma ProgressStart(fields: seq<QueryField>, rs: Resolver)
    ensures Progress(fields, rs, {}, {}, {}, [])
  {
    assert FoundBy(fields, rs, {}, Include) == {};
    assert FoundBy(fields, rs, {}, Exclude) == {};
    assert FailedAmong(fields, rs, {}) == {};
  }

  /** After a whole completion order, every field has completed. */
  lemma ProgressDone(fields: seq<QueryField>, rs: Resolver, order: seq<nat>,
                     results: set<ObjectRef>, excludes: set<ObjectRef>, errors: seq<(QueryField, QueryError)>)
    requires IsCompletionOrder(order, |fields|)
    requires Progress(fields, rs, Seen(order, |order|), results, excludes, errors)
    ensures Progress(fields, rs, Range(|fields|), results, excludes, errors)
  {
    OrderCovers(order, |fields|);
  }

  /** Two runs of the same fields, completing in any two orders, list the same objects in the same order. */
  lemma CompletionOrderIrrelevant(r1: QueryResult, r2: QueryResult, fields: seq<QueryField>, rs: Resolver)
    requires Combined(r1, fields, rs) && Combined(r2, fields, rs)
    ensures r1.results == r2.results
    ensures forall e :: e in r1.errors <==> e in r2.errors
  {
    Objects.LessStrictTotal();
    Ordering.AscendingUnique(r1.results, r2.results, Less);
  }

  /** Once every field has completed, the state is the answer. */
  lemma Finished(r: QueryResult, fields: seq<QueryField>, rs: Resolver, excludes: set<ObjectRef>)
    requires ErrorsProgress(fields, rs, Range(|fields|), r.errors)
    requires excludes == FoundBy(fields, rs, Range(|fields|), Exclude)
    requires Ordering.Ascending(r.results, Less)
    requires Ordering.Lists(r.results, FoundBy(fields, rs, Range(|fields|), Include) - excludes - excludes)
    ensures Combined(r, fields, rs)
  {
    assert FoundBy(fields, rs, Range(|fields|), Include) - excludes - excludes == Answer(fields, rs);
  }

  /** Completing one more field adds what it found to the objects of its operation, and nothing to the other. */
  lemma FoundByStep(fields: seq<QueryField>, rs: Resolver, done: set<nat>, i: nat)
    requires i < |fields|
    ensures var found := if Outcome(fields, i, rs).Ok? then set o | o in Outcome(fields, i, rs).value else {};
      FoundBy(fields, rs, done + {i}, fields[i].op) == FoundBy(fields, rs, done, fields[i].op) + found
      && forall op :: op != fields[i].op ==> FoundBy(fields, rs, done + {i}, op) == FoundBy(fields, rs, done, op)
  {
  }

  /** Completing one more, not yet completed, field counts one more failure exactly when it failed. */
  lemma FailedAmongStep(fields: seq<QueryField>, rs: Resolver, done: set<nat>, i: nat)
    requires i < |fields| && i !in done
    ensures Outcome(fields, i, rs).Err? ==> FailedAmong(fields, rs, done + {i}) == FailedAmong(fields, rs, done) + {i}
    ensures Outcome(fields, i, rs).Ok? ==> FailedAmong(fields, rs, done + {i}) == FailedAmong(fields, rs, done)
  {
  }

  /** The fields among the first `k` of a completion order. */
  function Seen(order: seq<nat>, k: nat): set<nat>
    requires k <= |order|
  {
    if k == 0 then {} else Seen(order, k - 1) + {order[k - 1]}
  }

  /** The first `k` of a completion order are `k` distinct fields, none of them completing again later. */
  lemma {:induction false} SeenFacts(order: seq<nat>, n: nat, k: nat)
    requires IsCompletionOrder(order, n) && k <= |order|
    ensures |Seen(order, k)| == k && Seen(order, k) <= Range(n)
    ensures forall j :: k <= j < |order| ==> order[j] !in Seen(order, k)
    decreases k
  {
    if k > 0 {
      SeenFacts(order, n, k - 1);
    }
  }

  /** The next field of a completion order has not completed yet. */
  lemma NextUnseen(order: seq<nat>, n: nat, k: nat)
    requires IsCompletionOrder(order, n) && k < |order|
    ensures order[k] < n && order[k] !in Seen(order, k)
  {
    SeenFacts(order, n, k);
  }

  /** A completion order reaches every field. */
  lemma OrderCovers(order: seq<nat>, n: nat)
    requires IsCompletionOrder(order, n)
    ensures Seen(order, |order|) == Range(n)
  {
    SeenFacts(order, n, |order|);
    SubsetOfSameSize(Seen(order, |order|), Range(n), n);
  }

  /** A subset as large as a finite set is that set. */
  lemma SubsetOfSameSize(a: set<nat>, b: set<nat>, n: nat)
    requires a <= b && |a| == n && |b| == n
    ensures a == b
  {
    if a != b {
      var x :| x in b && x !in a;
      assert a <= b - {x};
      SubsetSize(a, b - {x});
    }
  }

  lemma SubsetSize(a: set<nat>, b: set<nat>)
    requires a <= b
    ensures |a| <= |b|
  {
    assert b == a + (b - a);
  }
}
