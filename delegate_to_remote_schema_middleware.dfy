/** The delegation middleware's field resolution: try each `@delegate`
    directive in declaration order, splice the first non-null remote data
    into the field's result and report the errors of the last attempt. */
module DelegateToRemoteSchemaMiddleware {
  import opened Common
  import opened StitchingTypes
  import opened DelegationData
  import opened DelegationErrors

  /** A `@delegate` directive: the remote schema's name and its selection
      path as the parser's stack yields it (empty when the directive has no
      path). */
  datatype DelegateDirective = DelegateDirective(schema: string, path: seq<SelectionPathComponent>)

  /** What the remote client answers. */
  datatype ExecutionResult =
    | QueryResult(data: Dict, errors: seq<Error>, contextData: map<string, Value>)
    | NonQueryResult

  /** Builds the remote query for a directive (which may read the scoped
      context data) and executes it on the directive's schema. */
  type RemoteClient = (DelegateDirective, map<string, Value>) -> Outcome<ExecutionResult>

  /** One completed attempt: the directive, the scoped context data the
      query was built from, the remote result's data, errors and context
      data, the data extracted from it and the scoped context data it left
      behind. */
  datatype Attempt = Attempt(
    directive: DelegateDirective,
    scopedBefore: map<string, Value>,
    remoteData: Dict,
    errors: seq<Error>,
    contextData: map<string, Value>,
    data: Value,
    scopedAfter: map<string, Value>)

  /** The variables the directive loop carries, plus the attempts so far and
      the exception that ended it, if any. */
  datatype LoopState = LoopState(
    scoped: map<string, Value>,
    result: Option<Value>,
    schemaName: string,
    errors: seq<Error>,
    attempts: seq<Attempt>,
    fault: Option<Fault>)

  /** Whether the client answered attempt `a` as the attempt records: its
      directive's query, built from `a.scopedBefore`, returned the query
      result the attempt records, whose data extracts to `a.data` and whose
      context data updates the scoped context data to `a.scopedAfter`. */
  predicate Answered(client: RemoteClient, a: Attempt) {
    && client(a.directive, a.scopedBefore) == Returned(QueryResult(a.remoteData, a.errors, a.contextData))
    && Extracted(a.remoteData, |a.directive.path|) == Returned(a.data)
    && a.scopedAfter == UpdateContextData(a.scopedBefore, a.contextData, a.directive.schema)
  }

  /** One pass of the loop body for directive `d` on the client's answer:
      either an exception (from the client, from a remote context key that
      collides with a different value, or from the data extraction), or one
      more attempt that updated the scoped context data and set the result
      when it found data. */
  function Step(d: DelegateDirective, client: RemoteClient, st: LoopState): LoopState {
    var named := st.(schemaName := d.schema);
    match client(d, st.scoped)
    case Throws(f) => named.(fault := Some(f))
    case Returned(NonQueryResult) => named.(fault := Some(OnlyQueryResults))
    case Returned(QueryResult(data, errs, contextData)) =>
      match UpdateContextDataAsWritten(st.scoped, contextData, d.schema)
      case Throws(f) => named.(fault := Some(f))
      case Returned(scoped) =>
        match Extracted(data, |d.path|)
        case Throws(f) => named.(scoped := scoped, fault := Some(f))
        case Returned(v) =>
          var next := named.(scoped := scoped, errors := errs,
                             attempts := st.attempts + [Attempt(d, st.scoped, data, errs, contextData, v, scoped)]);
          if v != Null then next.(result := Some(v)) else next
  }

  /** A loop body as a function from a directive and the loop variables to
      the loop variables after it. */
  type LoopBody = (DelegateDirective, LoopState) -> LoopState

  function StepOf(client: RemoteClient): LoopBody {
    (d, st) => Step(d, client, st)
  }

  /** The bookkeeping of one pass for directive `d` from `st` (without an
      exception so far) that leads to `r`: the schema name is the
      directive's; an exception leaves attempts and result alone; otherwise
      exactly one attempt for `d` is added, whose errors `r` takes over and
      whose data, when found, becomes the result. */
  predicate RecordsPass(d: DelegateDirective, st: LoopState, r: LoopState) {
    && r.schemaName == d.schema
    && (r.fault.Some? ==> r.attempts == st.attempts && r.result == st.result)
    && (r.fault.None? ==>
          && |r.attempts| == |st.attempts| + 1
          && var a := r.attempts[|st.attempts|];
          && r.attempts == st.attempts + [a]
          && a.directive == d
          && r.errors == a.errors
          && r.result == (if a.data != Null then Some(a.data) else st.result))
  }

  /** The scoped data of one pass from `st` to `r`: the attempt it adds
      starts from the scoped data of `st`, and `r` holds the scoped data that
      attempt leaves behind. */
  predicate ChainsPass(st: LoopState, r: LoopState) {
    r.fault.None? && |r.attempts| > |st.attempts| ==>
      var a := r.attempts[|st.attempts|];
      a.scopedBefore == st.scoped && r.scoped == a.scopedAfter
  }

  /** The remote side of one pass from `st` to `r`: the attempt it adds was
      answered by `client`. */
  predicate AnswersPass(client: RemoteClient, st: LoopState, r: LoopState) {
    r.fault.None? && |r.attempts| > |st.attempts| ==> Answered(client, r.attempts[|st.attempts|])
  }

  /** Whether every pass of `body` keeps the books of a pass. */
  ghost predicate Records(body: LoopBody) {
    forall d: DelegateDirective, st: LoopState :: st.fault.None? ==> RecordsPass(d, st, body(d, st))
  }

  /** Whether every pass of `body` carries the scoped data along. */
  ghost predicate Chains(body: LoopBody) {
    forall d: DelegateDirective, st: LoopState :: st.fault.None? ==> ChainsPass(st, body(d, st))
  }

  /** Whether every pass of `body` is answered by `client`. */
  ghost predicate Answers(client: RemoteClient, body: LoopBody) {
    forall d: DelegateDirective, st: LoopState :: st.fault.None? ==> AnswersPass(client, st, body(d, st))
  }

  lemma StepFacts(d: DelegateDirective, client: RemoteClient, st: LoopState)
    requires st.fault.None?
    ensures RecordsPass(d, st, Step(d, client, st))
    ensures ChainsPass(st, Step(d, client, st))
    ensures AnswersPass(client, st, Step(d, client, st))
  {
    var o := client(d, st.scoped);
    if o.Returned? && o.value.QueryResult?
       && UpdateContextDataAsWritten(st.scoped, o.value.contextData, d.schema).Returned? {
      var e := Extracted(o.value.data, |d.path|);
      if e.Returned? {
        var scoped := UpdateContextData(st.scoped, o.value.contextData, d.schema);
        var a := Attempt(d, st.scoped, o.value.data, o.value.errors, o.value.contextData, e.value, scoped);
        assert Answered(client, a);
        var r := Step(d, client, st);
        assert r.attempts == st.attempts + [a];
      }
    }
  }

  /** The middleware's own loop body keeps the books of a pass, carries the
      scoped data along and is answered by the client. */
  lemma StepOfPasses(client: RemoteClient)
    ensures Records(StepOf(client))
    ensures Chains(StepOf(client))
    ensures Answers(client, StepOf(client))
  {
    forall d: DelegateDirective, st: LoopState | st.fault.None?
      ensures RecordsPass(d, st, StepOf(client)(d, st))
      ensures ChainsPass(st, StepOf(client)(d, st))
      ensures AnswersPass(client, st, StepOf(client)(d, st))
    {
      StepFacts(d, client, st);
    }
  }

  /** Whether the loop goes on after a step: no exception, and the attempt
      just made found null data. */
  predicate GoesOn(r: LoopState) {
    r.fault.None? && |r.attempts| > 0 && r.attempts[|r.attempts| - 1].data == Null
  }

  /** The directive loop with body `body` from state `st` over the
      directives `ds` still to try: it stops at an exception or at the
      first attempt that finds data. */
  function Loop(ds: seq<DelegateDirective>, body: LoopBody, st: LoopState): LoopState
    decreases |ds|
  {
    if |ds| == 0 then st
    else
      var r := body(ds[0], st);
      if GoesOn(r) then Loop(ds[1..], body, r) else r
  }

  function InitialState(scoped: map<string, Value>, result: Option<Value>): LoopState {
    LoopState(scoped, result, "", [], [], None)
  }

  /** The errors reported after the loop ends in state `final`: its
      remote errors, annotated, unless an exception escaped. */
  function Reported(final: LoopState, path: Path, fieldLocation: Location): seq<Error>
    requires IsFieldPath(path)
  {
    if final.fault.None? && |final.errors| > 0
    then AnnotatedAll(final.schemaName, path, fieldLocation, final.errors)
    else []
  }

  /** The whole delegation: the loop, then the report of the last attempt's
      errors. */
  datatype Delegation = Delegation(final: LoopState, reported: seq<Error>)

  function Delegate(
    ds: seq<DelegateDirective>, client: RemoteClient, scoped: map<string, Value>, result: Option<Value>,
    path: Path, fieldLocation: Location)
    : Delegation
    requires IsFieldPath(path)
  {
    var final := Loop(ds, StepOf(client), InitialState(scoped, result));
    Delegation(final, Reported(final, path, fieldLocation))
  }

  /** The resolver context state the middleware reads and writes. */
  class MiddlewareContext {
    const path: Path
    const fieldLocation: Location
    var scopedContextData: map<string, Value>
    /** `context.Result`: None until a value is set. */
    var result: Option<Value>
    /** The errors handed to `context.ReportError`, in order. */
    var errors: seq<Error>

    constructor (path: Path, fieldLocation: Location, scopedContextData: map<string, Value>)
      requires IsFieldPath(path)
      ensures this.path == path && this.fieldLocation == fieldLocation
      ensures this.scopedContextData == scopedContextData && result == None && errors == []
    {
      this.path := path;
      this.fieldLocation := fieldLocation;
      this.scopedContextData := scopedContextData;
      result := None;
      errors := [];
    }

    /** The body of InvokeAsync for a field whose delegate directives are
        `directives` (none when the field has no `@delegate`). Returns the
        exception that escapes, if any. */
    method InvokeAsync(directives: seq<DelegateDirective>, client: RemoteClient) returns (fault: Option<Fault>)
      requires IsFieldPath(path)
      modifies this
      ensures var o := Delegate(directives, client, old(scopedContextData), old(result), path, fieldLocation);
        && scopedContextData == o.final.scoped
        && result == o.final.result
        && fault == o.final.fault
        && errors == old(errors) + o.reported
    {
      ghost var final := Loop(directives, StepOf(client), InitialState(scopedContextData, result));
      var schemaName := "";
      var remoteErrors: seq<Error> := [];
      ghost var attempts: seq<Attempt> := [];
      var found := false;
      var i := 0;
      while i < |directives| && !found
        invariant 0 <= i <= |directives|
        invariant errors == old(errors)
        invariant !found ==> result == old(result)
        invariant !found ==>
          Loop(directives[i..], StepOf(client), LoopState(scopedContextData, result, schemaName, remoteErrors, attempts, None))
          == final
        invariant found ==> LoopState(scopedContextData, result, schemaName, remoteErrors, attempts, None) == final
      {
        var d := directives[i];
        assert directives[i..][0] == d && directives[i..][1..] == directives[i + 1..];
        schemaName := d.schema;
        var outcome := client(d, scopedContextData);
        if outcome.Throws? {
          return Some(outcome.fault);
        }
        if outcome.value.NonQueryResult? {
          return Some(OnlyQueryResults);
        }
        var queryResult := outcome.value;
        ghost var before := scopedContextData;
        var merged := UpdateContextDataAsWritten(scopedContextData, queryResult.contextData, d.schema);
        if merged.Throws? {
          return Some(merged.fault);
        }
        scopedContextData := merged.value;
        var data := ExtractData(queryResult.data, |d.path|);
        if data.Throws? {
          return Some(data.fault);
        }
        remoteErrors := queryResult.errors;
        attempts := attempts + [Attempt(d, before, queryResult.data, queryResult.errors, queryResult.contextData,
                                        data.value, scopedContextData)];
        if data.value != Null {
          result := Some(data.value);
          found := true;
        }
        i := i + 1;
      }
      if |remoteErrors| > 0 {
        var reported := ReportErrors(schemaName, path, fieldLocation, remoteErrors);
        errors := errors + reported;
      }
      return None;
    }
  }

  // ---------------------------------------------------------------------
  // Properties of the directive loop
  // ---------------------------------------------------------------------

  /** The attempts made from `st` extend its attempts, one per directive
      tried, in declaration order. */
  lemma {:induction false} LoopTriesInOrder(ds: seq<DelegateDirective>, body: LoopBody, st: LoopState)
    requires Records(body) && st.fault.None?
    ensures var r := Loop(ds, body, st);
      && |st.attempts| <= |r.attempts| <= |st.attempts| + |ds|
      && r.attempts[..|st.attempts|] == st.attempts
      && forall j :: |st.attempts| <= j < |r.attempts| ==> r.attempts[j].directive == ds[j - |st.attempts|]
    decreases |ds|
  {
    if |ds| > 0 {
      var next := body(ds[0], st);
      if GoesOn(next) {
        LoopTriesInOrder(ds[1..], body, next);
        var r := Loop(ds, body, st);
        assert r.attempts[..|next.attempts|] == next.attempts;
        assert r.attempts[..|st.attempts|] == next.attempts[..|st.attempts|];
        forall j | |next.attempts| <= j < |r.attempts|
          ensures r.attempts[j].directive == ds[j - |st.attempts|]
        {
          assert ds[1..][j - |next.attempts|] == ds[j - |st.attempts|];
        }
      }
    }
  }

  /** Whether the last attempt made after `st` found data. */
  predicate FoundData(st: LoopState, r: LoopState) {
    |r.attempts| > |st.attempts| && r.attempts[|r.attempts| - 1].data != Null
  }

  /** Every attempt but the last found null data: the loop never goes past
      a directive whose data was found. */
  lemma {:induction false} LoopStopsAtFirstData(ds: seq<DelegateDirective>, body: LoopBody, st: LoopState)
    requires Records(body) && st.fault.None?
    ensures var r := Loop(ds, body, st);
      forall j :: |st.attempts| <= j < |r.attempts| - 1 ==> r.attempts[j].data == Null
    decreases |ds|
  {
    if |ds| > 0 {
      var next := body(ds[0], st);
      var r := Loop(ds, body, st);
      if GoesOn(next) {
        assert r == Loop(ds[1..], body, next);
        LoopStopsAtFirstData(ds[1..], body, next);
        LoopTriesInOrder(ds[1..], body, next);
        assert r.attempts[..|next.attempts|] == next.attempts;
        forall j | |st.attempts| <= j < |r.attempts| - 1
          ensures r.attempts[j].data == Null
        {
          if j < |next.attempts| {
            assert j == |next.attempts| - 1;
            assert r.attempts[j] == r.attempts[..|next.attempts|][j];
          }
        }
      } else {
        assert r == next;
      }
    }
  }

  /** The loop sets the result exactly when its last attempt found data, and
      to that data. */
  lemma {:induction false} LoopSetsFoundData(ds: seq<DelegateDirective>, body: LoopBody, st: LoopState)
    requires Records(body) && st.fault.None?
    ensures var r := Loop(ds, body, st);
      if FoundData(st, r) then r.result == Some(r.attempts[|r.attempts| - 1].data) else r.result == st.result
    decreases |ds|
  {
    if |ds| > 0 {
      var next := body(ds[0], st);
      var r := Loop(ds, body, st);
      if GoesOn(next) {
        assert r == Loop(ds[1..], body, next);
        LoopSetsFoundData(ds[1..], body, next);
        LoopTriesInOrder(ds[1..], body, next);
        assert next.result == st.result;
        if |r.attempts| == |next.attempts| {
          assert r.attempts == r.attempts[..|next.attempts|] == next.attempts;
          assert !FoundData(st, r) && !FoundData(next, r);
        } else {
          assert FoundData(st, r) <==> FoundData(next, r);
        }
      } else {
        assert r == next;
      }
    }
  }

  /** Without an exception and without found data, every directive is
      tried. */
  lemma {:induction false} LoopTriesAll(ds: seq<DelegateDirective>, body: LoopBody, st: LoopState)
    requires Records(body) && st.fault.None?
    ensures var r := Loop(ds, body, st);
      r.fault.None? && !FoundData(st, r) ==> |r.attempts| == |st.attempts| + |ds|
    decreases |ds|
  {
    if |ds| > 0 {
      var next := body(ds[0], st);
      if GoesOn(next) {
        LoopTriesAll(ds[1..], body, next);
        var r := Loop(ds, body, st);
        assert r == Loop(ds[1..], body, next);
        assert FoundData(next, r) ==> FoundData(st, r);
      } else {
        assert Loop(ds, body, st) == next;
      }
    }
  }

  /** An exception escapes only from a pass that recorded no attempt, so
      when the loop ends in one, the attempts before it (if any) found null
      data. */
  lemma {:induction false} LoopFaultAfterNullData(ds: seq<DelegateDirective>, body: LoopBody, st: LoopState)
    requires Records(body) && st.fault.None?
    requires |st.attempts| == 0 || st.attempts[|st.attempts| - 1].data == Null
    ensures var r := Loop(ds, body, st);
      r.fault.Some? ==> |r.attempts| == 0 || r.attempts[|r.attempts| - 1].data == Null
    decreases |ds|
  {
    if |ds| > 0 {
      var next := body(ds[0], st);
      if GoesOn(next) {
        assert Loop(ds, body, st) == Loop(ds[1..], body, next);
        LoopFaultAfterNullData(ds[1..], body, next);
      } else {
        assert Loop(ds, body, st) == next;
      }
    }
  }

  /** Each attempt is what the client answered for its directive. */
  lemma {:induction false} LoopAttemptsAnswered(
    ds: seq<DelegateDirective>, client: RemoteClient, body: LoopBody, st: LoopState)
    requires Records(body) && Answers(client, body) && st.fault.None?
    ensures var r := Loop(ds, body, st);
      forall j :: |st.attempts| <= j < |r.attempts| ==> Answered(client, r.attempts[j])
    decreases |ds|
  {
    if |ds| > 0 {
      var next := body(ds[0], st);
      var r := Loop(ds, body, st);
      if GoesOn(next) {
        assert r == Loop(ds[1..], body, next);
        LoopAttemptsAnswered(ds[1..], client, body, next);
        LoopTriesInOrder(ds[1..], body, next);
        var k := |st.attempts|;
        assert r.attempts[..|next.attempts|] == next.attempts;
        assert r.attempts[k] == r.attempts[..|next.attempts|][k] == next.attempts[k];
        forall j | k <= j < |r.attempts|
          ensures Answered(client, r.attempts[j])
        {
          if j == k {}
        }
      } else {
        assert r == next;
      }
    }
  }

  /** The first attempt starts from the scoped data the loop starts from,
      each later one from the scoped data the previous attempt left behind. */
  lemma {:induction false} LoopAttemptsChain(ds: seq<DelegateDirective>, body: LoopBody, st: LoopState)
    requires Records(body) && Chains(body) && st.fault.None?
    ensures var r := Loop(ds, body, st);
      && (|r.attempts| > |st.attempts| ==> r.attempts[|st.attempts|].scopedBefore == st.scoped)
      && (forall j :: |st.attempts| <= j < |r.attempts| - 1 ==>
            r.attempts[j + 1].scopedBefore == r.attempts[j].scopedAfter)
    decreases |ds|
  {
    if |ds| > 0 {
      var next := body(ds[0], st);
      var r := Loop(ds, body, st);
      if GoesOn(next) {
        assert r == Loop(ds[1..], body, next);
        LoopAttemptsChain(ds[1..], body, next);
        LoopTriesInOrder(ds[1..], body, next);
        var k := |st.attempts|;
        assert r.attempts[..|next.attempts|] == next.attempts;
        assert r.attempts[k] == r.attempts[..|next.attempts|][k] == next.attempts[k];
        assert next.scoped == next.attempts[k].scopedAfter;
        forall j | k <= j < |r.attempts| - 1
          ensures r.attempts[j + 1].scopedBefore == r.attempts[j].scopedAfter
        {
          if j == k {}
        }
      } else {
        assert r == next;
      }
    }
  }

  /** The loop ends with the errors and schema name of its last attempt. */
  lemma {:induction false} LoopEndsWithLastAttempt(ds: seq<DelegateDirective>, body: LoopBody, st: LoopState)
    requires Records(body) && st.fault.None?
    ensures var r := Loop(ds, body, st);
      |r.attempts| > |st.attempts| && r.fault.None? ==>
        var last := r.attempts[|r.attempts| - 1];
        r.errors == last.errors && r.schemaName == last.directive.schema
    decreases |ds|
  {
    if |ds| > 0 {
      var next := body(ds[0], st);
      var r := Loop(ds, body, st);
      if GoesOn(next) {
        assert r == Loop(ds[1..], body, next);
        LoopEndsWithLastAttempt(ds[1..], body, next);
        LoopChangesNothingWithoutAttempts(ds[1..], body, next);
        if |r.attempts| == |next.attempts| && r.fault.None? {
          assert r == next;
          assert r.attempts[|r.attempts| - 1] == next.attempts[|st.attempts|];
        }
      } else {
        assert r == next;
        if next.fault.None? {
          assert r.attempts[|r.attempts| - 1] == next.attempts[|st.attempts|];
        }
      }
    }
  }

  /** The loop ends with the scoped data its last attempt left behind. */
  lemma {:induction false} LoopEndsWithScopedAfter(ds: seq<DelegateDirective>, body: LoopBody, st: LoopState)
    requires Records(body) && Chains(body) && st.fault.None?
    ensures var r := Loop(ds, body, st);
      |r.attempts| > |st.attempts| && r.fault.None? ==>
        r.scoped == r.attempts[|r.attempts| - 1].scopedAfter
    decreases |ds|
  {
    if |ds| > 0 {
      var next := body(ds[0], st);
      var r := Loop(ds, body, st);
      if GoesOn(next) {
        assert r == Loop(ds[1..], body, next);
        LoopEndsWithScopedAfter(ds[1..], body, next);
        LoopChangesNothingWithoutAttempts(ds[1..], body, next);
        if |r.attempts| == |next.attempts| && r.fault.None? {
          assert r == next;
          assert r.attempts[|r.attempts| - 1] == next.attempts[|st.attempts|];
        }
      } else {
        assert r == next;
        if next.fault.None? {
          assert r.attempts[|r.attempts| - 1] == next.attempts[|st.attempts|];
        }
      }
    }
  }

  /** A loop that makes no attempt and raises nothing changes nothing. */
  lemma {:induction false} LoopChangesNothingWithoutAttempts(ds: seq<DelegateDirective>, body: LoopBody, st: LoopState)
    requires Records(body) && st.fault.None?
    ensures var r := Loop(ds, body, st);
      && |r.attempts| >= |st.attempts|
      && (|r.attempts| == |st.attempts| && r.fault.None? ==> r == st)
    decreases |ds|
  {
    if |ds| > 0 {
      var next := body(ds[0], st);
      var r := Loop(ds, body, st);
      if GoesOn(next) {
        assert r == Loop(ds[1..], body, next);
        LoopChangesNothingWithoutAttempts(ds[1..], body, next);
        assert |r.attempts| > |st.attempts|;
      } else {
        assert r == next;
      }
    }
  }

  /** Errors are reported only for the last directive tried, only when it
      answered with errors, each tagged with that directive's schema name;
      nothing is reported when an exception escapes. The requirements are
      what LoopEndsWithLastAttempt and LoopChangesNothingWithoutAttempts establish for the state the loop ends
      in when it starts with no errors. */
  lemma ReportedByLastAttempt(final: LoopState, path: Path, fieldLocation: Location)
    requires IsFieldPath(path)
    requires |final.attempts| == 0 && final.fault.None? ==> final.errors == []
    requires |final.attempts| > 0 && final.fault.None? ==>
      && final.errors == final.attempts[|final.attempts| - 1].errors
      && final.schemaName == final.attempts[|final.attempts| - 1].directive.schema
    ensures var reported := Reported(final, path, fieldLocation);
      var n := |final.attempts|;
      && (final.fault.Some? || n == 0 ==> reported == [])
      && (final.fault.None? && n > 0 ==>
            reported == (if |final.attempts[n - 1].errors| > 0
                         then AnnotatedAll(final.attempts[n - 1].directive.schema, path, fieldLocation,
                                           final.attempts[n - 1].errors)
                         else []))
      && (forall e :: e in reported ==>
            n > 0 && e.extensions[SchemaNameErrorField] == Text(final.attempts[n - 1].directive.schema))
  {
    if final.fault.None? && |final.errors| > 0 {
      AnnotatedAllTagged(final.schemaName, path, fieldLocation, final.errors);
    }
  }

  /** The delegation reports errors only for the last directive tried, only
      when it answered with errors, each tagged with that directive's schema
      name, and nothing when an exception escapes. */
  lemma {:induction false} DelegateReportsLastAttempt(
    ds: seq<DelegateDirective>, client: RemoteClient, scoped: map<string, Value>, result: Option<Value>,
    path: Path, fieldLocation: Location)
    requires IsFieldPath(path)
    ensures var o := Delegate(ds, client, scoped, result, path, fieldLocation);
      var n := |o.final.attempts|;
      && (o.final.fault.Some? || n == 0 ==> o.reported == [])
      && (o.final.fault.None? && n > 0 ==>
            o.reported == (if |o.final.attempts[n - 1].errors| > 0
                           then AnnotatedAll(o.final.attempts[n - 1].directive.schema, path, fieldLocation,
                                             o.final.attempts[n - 1].errors)
                           else []))
      && (forall e :: e in o.reported ==>
            n > 0 && e.extensions[SchemaNameErrorField] == Text(o.final.attempts[n - 1].directive.schema))
  {
    var st := InitialState(scoped, result);
    var final := Loop(ds, StepOf(client), st);
    assert Delegate(ds, client, scoped, result, path, fieldLocation)
        == Delegation(final, Reported(final, path, fieldLocation));
    assert final.attempts == [] && final.fault.None? ==> final.errors == [] by {
      StepOfPasses(client);
      LoopEndsFromStart(ds, StepOf(client), st);
    }
    assert final.attempts != [] && final.fault.None? ==>
      && final.errors == final.attempts[|final.attempts| - 1].errors
      && final.schemaName == final.attempts[|final.attempts| - 1].directive.schema
    by {
      StepOfPasses(client);
      LoopEndsFromStart(ds, StepOf(client), st);
    }
    ReportedByLastAttempt(final, path, fieldLocation);
  }

  /** From a state with no attempts and no errors, the loop ends with no
      errors when it made no attempt, and otherwise with the errors and
      schema name of its last one: the requirements of ReportedByLastAttempt. */
  lemma LoopEndsFromStart(ds: seq<DelegateDirective>, body: LoopBody, st: LoopState)
    requires Records(body) && st.fault.None? && st.attempts == [] && st.errors == []
    ensures var r := Loop(ds, body, st);
      && (|r.attempts| == 0 && r.fault.None? ==> r.errors == [])
      && (|r.attempts| > 0 && r.fault.None? ==>
            && r.errors == r.attempts[|r.attempts| - 1].errors
            && r.schemaName == r.attempts[|r.attempts| - 1].directive.schema)
  {
    LoopEndsWithLastAttempt(ds, body, st);
    LoopChangesNothingWithoutAttempts(ds, body, st);
  }

  /** The middleware's directive loop tries the directives in declaration
      order, each answered by the client, and goes past a directive only when
      its data was null: it stops at the first found data and otherwise, with
      no exception, tries all of them; an exception escapes only after
      attempts that all found null data. */
  lemma DelegateTriesDirectives(
    ds: seq<DelegateDirective>, client: RemoteClient, scoped: map<string, Value>, result: Option<Value>)
    ensures var r := Loop(ds, StepOf(client), InitialState(scoped, result));
      var n := |r.attempts|;
      && n <= |ds|
      && (forall j :: 0 <= j < n ==> r.attempts[j].directive == ds[j] && Answered(client, r.attempts[j]))
      && (forall j :: 0 <= j < n - 1 ==> r.attempts[j].data == Null)
      && (r.fault.None? && (n == 0 || r.attempts[n - 1].data == Null) ==> n == |ds|)
      && (r.fault.Some? ==> n == 0 || r.attempts[n - 1].data == Null)
  {
    StepOfPasses(client);
    LoopTriesFromStart(ds, client, StepOf(client), InitialState(scoped, result));
  }

  /** DelegateTriesDirectives for any loop body that keeps the books and is
      answered by the client, from a state with no attempts. */
  lemma LoopTriesFromStart(ds: seq<DelegateDirective>, client: RemoteClient, body: LoopBody, st: LoopState)
    requires Records(body) && Answers(client, body) && st.fault.None? && st.attempts == []
    ensures var r := Loop(ds, body, st);
      var n := |r.attempts|;
      && n <= |ds|
      && (forall j :: 0 <= j < n ==> r.attempts[j].directive == ds[j] && Answered(client, r.attempts[j]))
      && (forall j :: 0 <= j < n - 1 ==> r.attempts[j].data == Null)
      && (r.fault.None? && (n == 0 || r.attempts[n - 1].data == Null) ==> n == |ds|)
      && (r.fault.Some? ==> n == 0 || r.attempts[n - 1].data == Null)
  {
    var r := Loop(ds, body, st);
    assert r.fault.Some? ==> |r.attempts| == 0 || r.attempts[|r.attempts| - 1].data == Null by {
      LoopFaultAfterNullData(ds, body, st);
    }
    LoopTriesInOrder(ds, body, st);
    LoopAttemptsAnswered(ds, client, body, st);
    LoopStopsAtFirstData(ds, body, st);
    LoopTriesAll(ds, body, st);
    assert (|r.attempts| == 0 || r.attempts[|r.attempts| - 1].data == Null) ==> !FoundData(st, r);
  }

  /** The middleware's directive loop sets the field's result exactly when
      its last attempt found data, and to that data. */
  lemma DelegateSetsResult(
    ds: seq<DelegateDirective>, client: RemoteClient, scoped: map<string, Value>, result: Option<Value>)
    ensures var r := Loop(ds, StepOf(client), InitialState(scoped, result));
      var n := |r.attempts|;
      if n > 0 && r.attempts[n - 1].data != Null then r.result == Some(r.attempts[n - 1].data)
      else r.result == result
  {
    var st := InitialState(scoped, result);
    StepOfPasses(client);
    LoopSetsFoundData(ds, StepOf(client), st);
  }

  /** The middleware's directive loop threads the scoped context data: the
      first attempt starts from the field's scoped data, each later one from
      what the previous one left behind, and the loop leaves behind what its
      last attempt did (the scoped data unchanged when there was none). */
  lemma DelegateThreadsScopedData(
    ds: seq<DelegateDirective>, client: RemoteClient, scoped: map<string, Value>, result: Option<Value>)
    ensures var r := Loop(ds, StepOf(client), InitialState(scoped, result));
      var n := |r.attempts|;
      && (n > 0 ==> r.attempts[0].scopedBefore == scoped)
      && (forall j :: 0 <= j < n - 1 ==> r.attempts[j + 1].scopedBefore == r.attempts[j].scopedAfter)
      && (r.fault.None? && n > 0 ==> r.scoped == r.attempts[n - 1].scopedAfter)
      && (r.fault.None? && n == 0 ==> r.scoped == scoped)
  {
    var st := InitialState(scoped, result);
    StepOfPasses(client);
    LoopAttemptsChain(ds, StepOf(client), st);
    LoopEndsWithScopedAfter(ds, StepOf(client), st);
    LoopChangesNothingWithoutAttempts(ds, StepOf(client), st);
  }

  /** As written, a delegation whose remote context data repeats a scoped
      key with another value ends the loop with that exception, leaving the
      scoped context data and the result as they were and reporting no
      error. */
  lemma DelegateCollisionExample()
    ensures var client: RemoteClient := (d, s) => Returned(QueryResult([], [], map["origin" := Scalar("b")]));
      var o := Delegate([DelegateDirective("accounts", [])], client, map["origin" := Scalar("a")], None,
                        [FieldName("me")], Location(1, 1));
      && o.final.fault == Some(DuplicateKeyWithDifferentValue)
      && o.final.scoped == map["origin" := Scalar("a")]
      && o.final.result == None && o.final.attempts == [] && o.reported == []
  {
    var client: RemoteClient := (d, s) => Returned(QueryResult([], [], map["origin" := Scalar("b")]));
    var scoped := map["origin" := Scalar("a")];
    var builder := scoped[SchemaNameKey := Scalar("accounts")];
    assert "origin" in builder && builder["origin"] != Scalar("b");
    var d := DelegateDirective("accounts", []);
    assert Step(d, client, InitialState(scoped, None)).fault == Some(DuplicateKeyWithDifferentValue);
  }
}
