/** How a compound ends, how it splits, and what a server with no handles answers. */
module CompoundLaws {
  import opened Wrappers
  import opened Words
  import opened Protocol
  import opened ServerSpec

  // How a compound c ends as r: every new result but the last is Ok, the status is the last
  // result's, and it ends early only at a failing operation or, without a response, at a handler's
  // error.
  ghost predicate Shaped(c: Compound, r: Compound) {
    && c.results <= r.results && |r.results| <= |c.results| + |c.ops|
    && (forall i :: |c.results| <= i < |r.results| - 1 ==> r.results[i].status == NfsStatus.Ok)
    && (r.results != c.results ==> r.status == r.results[|r.results| - 1].status)
    && (r.results == c.results ==> r.status == NfsStatus.Ok)
    && (r.aborted ==> r.status == NfsStatus.Ok && |r.results| < |c.results| + |c.ops|)
    && (!r.aborted && r.status == NfsStatus.Ok ==> |r.results| == |c.results| + |c.ops| && r.ops == [])
  }

  lemma ShapedStep(c: Compound, o: Outcome, r: Compound)
    requires c.ops != [] && !c.aborted && c.status == NfsStatus.Ok
    requires if Finished(Advance(c, o)) then r == Advance(c, o) else Shaped(Advance(c, o), r)
    ensures Shaped(c, r)
  {
    var next := Advance(c, o);
    if !Finished(next) {
      assert r.results[|c.results|] == next.results[|c.results|];
    }
  }

  lemma {:induction false} CompoundShape(s: Server, c: Compound, env: nat -> Choice, tick: nat)
    requires c.status == NfsStatus.Ok && !c.aborted
    ensures Shaped(c, Execute(s, c, env, tick).compound)
    decreases |c.ops|
  {
    if c.ops != [] {
      var step := Apply(s, c.ops[0], c.fh, env(tick));
      ExecuteStep(s, c, env, tick, step.server, step.outcome);
      var next := Advance(c, step.outcome);
      if !Finished(next) {
        CompoundShape(step.server, next, env, tick + 1);
      }
      ShapedStep(c, step.outcome, Execute(step.server, next, env, tick + 1).compound);
    }
  }

  //---------------------------------------------------------------------------
  // A compound, operation by operation
  //---------------------------------------------------------------------------

  // The filehandle the operation after some outcomes finds: the one that the last GetFh or Lookup
  // before it answered.
  function CurrentFh(ops: seq<NfsOperation>, outcomes: seq<Outcome>): Option<NfsFileHandle>
    requires |outcomes| <= |ops|
    decreases |outcomes|
  {
    if outcomes == [] then None
    else
      var n := |outcomes| - 1;
      var o := outcomes[n];
      if (ops[n].GetFh? || ops[n].Lookup?) && GoesOn(o) && o.result.result.Some? && o.result.result.value.GetFhData?
      then Some(o.result.result.value.handle)
      else CurrentFh(ops, outcomes[..n])
  }

  predicate GoesOn(o: Outcome) {
    o.Answer? && o.result.status == NfsStatus.Ok
  }

  // What an operation does with the n-th choice.
  type Act = (Server, NfsOperation, Option<NfsFileHandle>, nat) -> Step

  function Acting(env: nat -> Choice): Act {
    (s: Server, op: NfsOperation, fh: Option<NfsFileHandle>, n: nat) => Apply(s, op, fh, env(n))
  }

  // Operation i acts on the server the ones before it left.
  ghost predicate Acts(
    act: Act, ops: seq<NfsOperation>, tick: nat, servers: seq<Server>, outcomes: seq<Outcome>, i: nat)
    requires i < |outcomes| <= |ops| && |servers| == |outcomes| + 1
  {
    act(servers[i], ops[i], CurrentFh(ops, outcomes[..i]), tick + i) == Step(servers[i + 1], outcomes[i])
  }

  // The servers before and after each operation that runs, and the outcomes: each operation acts on
  // the server the ones before it left, and the first that is not answered Ok is the last to run.
  ghost predicate Traces(
    act: Act, s: Server, ops: seq<NfsOperation>, tick: nat, servers: seq<Server>, outcomes: seq<Outcome>)
  {
    && Traced(act, s, ops, tick, servers, outcomes)
    && GoesOnToLast(outcomes)
    && (|outcomes| < |ops| ==> outcomes != [] && !GoesOn(outcomes[|outcomes| - 1]))
  }

  ghost predicate Traced(
    act: Act, s: Server, ops: seq<NfsOperation>, tick: nat, servers: seq<Server>, outcomes: seq<Outcome>)
  {
    && |servers| == |outcomes| + 1 && |outcomes| <= |ops| && servers[0] == s
    && forall i :: 0 <= i < |outcomes| ==> Acts(act, ops, tick, servers, outcomes, i)
  }

  ghost predicate GoesOnToLast(outcomes: seq<Outcome>) {
    forall i :: 0 <= i < |outcomes| - 1 ==> GoesOn(outcomes[i])
  }

  // No response exactly after a handler's error; otherwise the outcomes, under the request's tag
  // and the status of the last one.
  ghost predicate RespondsWith(outcomes: seq<Outcome>, tag: seq<byte>, r: Result<CompoundResponse>) {
    && (r.Err? <==> outcomes != [] && outcomes[|outcomes| - 1].Abort?)
    && (r.Ok? ==>
          && r.value.tag == tag && |r.value.results| == |outcomes|
          && (forall i :: 0 <= i < |outcomes| ==> outcomes[i] == Answer(r.value.results[i]))
          && r.value.status == if outcomes == [] then NfsStatus.Ok else r.value.results[|outcomes| - 1].status)
  }

  // A compound run from a server and a number of choices drawn, to the next ones and its response.
  ghost predicate Performs(
    s: Server, request: CompoundRequest, env: nat -> Choice, tick: nat,
    s': Server, tick': nat, r: Result<CompoundResponse>)
  {
    exists servers, outcomes ::
      && Traces(Acting(env), s, request.operations, tick, servers, outcomes)
      && servers[|outcomes|] == s' && tick + |outcomes| == tick'
      && RespondsWith(outcomes, request.tag, r)
  }

  // A compound part of the way through its operations.
  ghost predicate PartWay(ops: seq<NfsOperation>, c: Compound, outcomes: seq<Outcome>) {
    && |outcomes| <= |ops| && c.ops == ops[|outcomes|..]
    && |c.results| == |outcomes| && !c.aborted
    && (forall i :: 0 <= i < |outcomes| ==> outcomes[i] == Answer(c.results[i]))
    && c.status == (if outcomes == [] then NfsStatus.Ok else c.results[|outcomes| - 1].status)
    && (GoesOnAll(outcomes) ==> c.fh == CurrentFh(ops, outcomes))
  }

  predicate GoesOnAll(outcomes: seq<Outcome>) {
    forall i :: 0 <= i < |outcomes| ==> GoesOn(outcomes[i])
  }

  // GetFh always answers a filehandle, and so does a Lookup that is answered Ok.
  predicate FhAnswered(op: NfsOperation, o: Outcome) {
    op.GetFh? || (op.Lookup? && GoesOn(o)) ==>
      GoesOn(o) && o.result.result.Some? && o.result.result.value.GetFhData?
  }

  lemma PartWayStep(ops: seq<NfsOperation>, c: Compound, outcomes: seq<Outcome>, o: Outcome)
    requires PartWay(ops, c, outcomes) && !Finished(c) && GoesOnAll(outcomes)
    requires o.Answer? && FhAnswered(c.ops[0], o)
    ensures PartWay(ops, Advance(c, o), outcomes + [o])
  {
    var all := outcomes + [o];
    assert all[..|outcomes|] == outcomes;
    assert ops[|outcomes|] == c.ops[0];
  }

  lemma TraceStep(
    act: Act, s: Server, ops: seq<NfsOperation>, tick: nat, servers: seq<Server>, outcomes: seq<Outcome>, step: Step)
    requires Traced(act, s, ops, tick, servers, outcomes) && |outcomes| < |ops|
    requires step == act(servers[|outcomes|], ops[|outcomes|], CurrentFh(ops, outcomes), tick + |outcomes|)
    ensures Traced(act, s, ops, tick, servers + [step.server], outcomes + [step.outcome])
  {
    var servers', outcomes' := servers + [step.server], outcomes + [step.outcome];
    forall i | 0 <= i < |outcomes'| ensures Acts(act, ops, tick, servers', outcomes', i) {
      if i < |outcomes| {
        assert Acts(act, ops, tick, servers, outcomes, i) && outcomes'[..i] == outcomes[..i];
      } else {
        assert outcomes'[..i] == outcomes;
      }
    }
  }

  // A way of running compounds, and what it makes of each operation.
  type Running = (Server, Compound, nat) -> Ran

  predicate RunsBy(run: Running, act: Act, s: Server, c: Compound, tick: nat) {
    run(s, c, tick) ==
      if Finished(c) then Ran(s, c, tick)
      else
        var step := act(s, c.ops[0], c.fh, tick);
        run(step.server, Advance(c, step.outcome), tick + 1)
  }

  predicate AnswersFh(act: Act, s: Server, op: NfsOperation, fh: Option<NfsFileHandle>, tick: nat) {
    FhAnswered(op, act(s, op, fh, tick).outcome)
  }

  ghost predicate Interprets(run: Running, act: Act) {
    && (forall s, c, tick: nat :: RunsBy(run, act, s, c, tick))
    && (forall s, op, fh, tick: nat :: AnswersFh(act, s, op, fh, tick))
  }

  lemma TraceEnds(
    act: Act, s: Server, ops: seq<NfsOperation>, tick: nat, servers: seq<Server>, outcomes: seq<Outcome>,
    c: Compound, tag: seq<byte>)
    requires Traced(act, s, ops, tick, servers, outcomes) && GoesOnToLast(outcomes) && Finished(c)
    requires if c.aborted then outcomes != [] && outcomes[|outcomes| - 1].Abort? else PartWay(ops, c, outcomes)
    ensures Traces(act, s, ops, tick, servers, outcomes) && RespondsWith(outcomes, tag, Respond(c, tag))
  {
  }

  // What the rest of a compound adds to its trace so far.
  lemma {:induction false} TraceRest(
    run: Running, act: Act, s: Server, ops: seq<NfsOperation>, tick: nat, servers: seq<Server>,
    outcomes: seq<Outcome>, c: Compound, tag: seq<byte>)
    returns (servers': seq<Server>, outcomes': seq<Outcome>)
    requires Interprets(run, act) && Traced(act, s, ops, tick, servers, outcomes) && PartWay(ops, c, outcomes)
    requires GoesOnToLast(outcomes)
    ensures Traces(act, s, ops, tick, servers', outcomes')
    ensures var ran := run(servers[|outcomes|], c, tick + |outcomes|);
      && ran.server == servers'[|outcomes'|] && ran.tick == tick + |outcomes'|
      && RespondsWith(outcomes', tag, Respond(ran.compound, tag))
    decreases |c.ops|
  {
    var n := |outcomes|;
    assert RunsBy(run, act, servers[n], c, tick + n);
    if Finished(c) {
      servers', outcomes' := servers, outcomes;
      TraceEnds(act, s, ops, tick, servers, outcomes, c, tag);
    } else {
      assert AnswersFh(act, servers[n], c.ops[0], c.fh, tick + n);
      var step := act(servers[n], c.ops[0], c.fh, tick + n);
      var next := Advance(c, step.outcome);
      assert ops[n] == c.ops[0];
      TraceStep(act, s, ops, tick, servers, outcomes, step);
      servers', outcomes' := servers + [step.server], outcomes + [step.outcome];
      if step.outcome.Abort? {
        assert RunsBy(run, act, step.server, next, tick + n + 1);
        TraceEnds(act, s, ops, tick, servers', outcomes', next, tag);
      } else {
        PartWayStep(ops, c, outcomes, step.outcome);
        servers', outcomes' := TraceRest(run, act, s, ops, tick, servers', outcomes', next, tag);
      }
    }
  }

  lemma ExecuteInterprets(env: nat -> Choice)
    ensures Interprets((s: Server, c: Compound, tick: nat) => Execute(s, c, env, tick), Acting(env))
  {
    var run: Running := (s: Server, c: Compound, tick: nat) => Execute(s, c, env, tick);
    forall s, c, tick: nat ensures RunsBy(run, Acting(env), s, c, tick) {
      ExecuteTurn(s, c, env, tick);
    }
    forall s, op, fh, tick: nat ensures AnswersFh(Acting(env), s, op, fh, tick) {
      FhStep(s, op, fh, env(tick));
    }
  }

  lemma ExecuteTurn(s: Server, c: Compound, env: nat -> Choice, tick: nat)
    ensures Execute(s, c, env, tick) ==
      if Finished(c) then Ran(s, c, tick)
      else
        var step := Acting(env)(s, c.ops[0], c.fh, tick);
        Execute(step.server, Advance(c, step.outcome), env, tick + 1)
  {
  }

  lemma FhStep(s: Server, op: NfsOperation, fh: Option<NfsFileHandle>, e: Choice)
    ensures FhAnswered(op, Apply(s, op, fh, e).outcome)
  {
  }

  // The trace of a compound, and what it says of the response.
  lemma CompoundTrace(s: Server, request: CompoundRequest, env: nat -> Choice, tick: nat)
    returns (servers: seq<Server>, outcomes: seq<Outcome>)
    ensures Traces(Acting(env), s, request.operations, tick, servers, outcomes)
    ensures var ran := Execute(s, Begin(request.operations), env, tick);
      && ran.server == servers[|outcomes|] && ran.tick == tick + |outcomes|
      && RespondsWith(outcomes, request.tag, Respond(ran.compound, request.tag))
  {
    var run: Running := (s: Server, c: Compound, tick: nat) => Execute(s, c, env, tick);
    ExecuteInterprets(env);
    servers, outcomes := TraceRest(
      run, Acting(env), s, request.operations, tick, [s], [], Begin(request.operations), request.tag);
  }

  // What a response is to the requester: its tag, a result for each operation run, all of them Ok
  // but the last, and the last one's status.
  ghost predicate WellShaped(outcomes: seq<Outcome>, tag: seq<byte>, r: Result<CompoundResponse>) {
    && (r.Err? <==> outcomes != [] && outcomes[|outcomes| - 1].Abort?)
    && (r.Ok? ==>
          && r.value.tag == tag && |r.value.results| == |outcomes|
          && (forall i :: 0 <= i < |outcomes| ==> outcomes[i] == Answer(r.value.results[i]))
          && (forall i :: 0 <= i < |r.value.results| - 1 ==> r.value.results[i].status == NfsStatus.Ok)
          && (r.value.results == [] ==> r.value.status == NfsStatus.Ok)
          && (r.value.results != [] ==> r.value.status == r.value.results[|r.value.results| - 1].status))
  }

  lemma ResponseShape(outcomes: seq<Outcome>, tag: seq<byte>, r: Result<CompoundResponse>)
    requires GoesOnToLast(outcomes) && RespondsWith(outcomes, tag, r)
    ensures WellShaped(outcomes, tag, r)
  {
    if r.Ok? {
      forall i | 0 <= i < |r.value.results| - 1 ensures r.value.results[i].status == NfsStatus.Ok {
        assert GoesOn(outcomes[i]) && outcomes[i] == Answer(r.value.results[i]);
      }
    }
  }

  lemma {:induction false} TracesAgree(
    act: Act, s: Server, ops: seq<NfsOperation>, tick: nat, servers: seq<Server>, outcomes: seq<Outcome>,
    servers': seq<Server>, outcomes': seq<Outcome>, n: nat)
    requires Traced(act, s, ops, tick, servers, outcomes) && Traced(act, s, ops, tick, servers', outcomes')
    requires n <= |outcomes| && n <= |outcomes'|
    ensures forall i :: 0 <= i < n ==> outcomes[i] == outcomes'[i]
    ensures forall i :: 0 <= i <= n ==> servers[i] == servers'[i]
  {
    if n > 0 {
      var m := n - 1;
      TracesAgree(act, s, ops, tick, servers, outcomes, servers', outcomes', m);
      assert outcomes[..m] == outcomes'[..m];
      assert Acts(act, ops, tick, servers, outcomes, m) && Acts(act, ops, tick, servers', outcomes', m);
    }
  }

  // A compound has one trace only.
  lemma TraceUnique(
    act: Act, s: Server, ops: seq<NfsOperation>, tick: nat, servers: seq<Server>, outcomes: seq<Outcome>,
    servers': seq<Server>, outcomes': seq<Outcome>)
    requires Traces(act, s, ops, tick, servers, outcomes) && Traces(act, s, ops, tick, servers', outcomes')
    ensures outcomes == outcomes' && servers == servers'
  {
    var m, n := |outcomes|, |outcomes'|;
    TracesAgree(act, s, ops, tick, servers, outcomes, servers', outcomes', if m < n then m else n);
    if m != n {
      assert false;
    }
  }

  lemma ResponseUnique(outcomes: seq<Outcome>, tag: seq<byte>, r: Result<CompoundResponse>, q: Result<CompoundResponse>)
    requires RespondsWith(outcomes, tag, r) && RespondsWith(outcomes, tag, q)
    ensures r == q
  {
    if r.Ok? {
      forall i | 0 <= i < |outcomes| ensures r.value.results[i] == q.value.results[i] {
        assert outcomes[i] == Answer(r.value.results[i]) == Answer(q.value.results[i]);
      }
      assert r.value.results == q.value.results;
    }
  }

  // So the operations run one by one, each on what the ones before it left, are all there is to a
  // compound: its tables, its choices and its response.
  lemma PerformsExactly(
    s: Server, request: CompoundRequest, env: nat -> Choice, tick: nat,
    s': Server, tick': nat, r: Result<CompoundResponse>)
    ensures Performs(s, request, env, tick, s', tick', r) <==>
      var ran := Execute(s, Begin(request.operations), env, tick);
      s' == ran.server && tick' == ran.tick && r == Respond(ran.compound, request.tag)
  {
    var servers, outcomes := CompoundTrace(s, request, env, tick);
    var response := Respond(Execute(s, Begin(request.operations), env, tick).compound, request.tag);
    forall servers', outcomes'
      | Traces(Acting(env), s, request.operations, tick, servers', outcomes') && RespondsWith(outcomes', request.tag, r)
      ensures servers' == servers && outcomes' == outcomes && r == response
    {
      TraceUnique(Acting(env), s, request.operations, tick, servers', outcomes', servers, outcomes);
      ResponseUnique(outcomes, request.tag, r, response);
    }
  }

  //---------------------------------------------------------------------------
  // Splitting
  //---------------------------------------------------------------------------

  // More operations behind a compound matter only if it ends Ok.
  lemma {:induction false} ExecuteMore(s: Server, c: Compound, more: seq<NfsOperation>, env: nat -> Choice, tick: nat)
    ensures var r := Execute(s, c, env, tick);
      Execute(s, c.(ops := c.ops + more), env, tick) ==
        if !r.compound.aborted && r.compound.status == NfsStatus.Ok
        then Execute(r.server, r.compound.(ops := more), env, r.tick)
        else r.(compound := r.compound.(ops := r.compound.ops + more))
    decreases |c.ops|
  {
    if Finished(c) {
      assert c.ops == [] ==> c.ops + more == more;
    } else {
      var step := Apply(s, c.ops[0], c.fh, env(tick));
      var d := c.(ops := c.ops + more);
      assert d.ops[0] == c.ops[0] && d.ops[1..] == c.ops[1..] + more;
      ExecuteStep(s, c, env, tick, step.server, step.outcome);
      ExecuteStep(s, d, env, tick, step.server, step.outcome);
      if step.outcome.Answer? {
        ExecuteMore(step.server, Advance(c, step.outcome), more, env, tick + 1);
      }
    }
  }

  // Earlier results are carried along and never looked at.
  lemma {:induction false} ResultsCarried(
    s: Server, c: Compound, before: seq<OperationResult>, env: nat -> Choice, tick: nat)
    ensures var r := Execute(s, c, env, tick);
      Execute(s, c.(results := before + c.results), env, tick) ==
        r.(compound := r.compound.(results := before + r.compound.results))
    decreases |c.ops|
  {
    if !Finished(c) {
      var step := Apply(s, c.ops[0], c.fh, env(tick));
      var d := c.(results := before + c.results);
      ExecuteStep(s, c, env, tick, step.server, step.outcome);
      ExecuteStep(s, d, env, tick, step.server, step.outcome);
      if step.outcome.Answer? {
        assert before + c.results + [step.outcome.result] == before + (c.results + [step.outcome.result]);
        ResultsCarried(step.server, Advance(c, step.outcome), before, env, tick + 1);
      }
    }
  }

  // Running a ++ b is running a and then, only if a ended Ok, running b from the tables and
  // filehandle a left, with the results of both in order.
  lemma CompoundSplits(
    s: Server, a: seq<NfsOperation>, b: seq<NfsOperation>, env: nat -> Choice, tick: nat, tag: seq<byte>)
    ensures var both, first := Execute(s, Begin(a + b), env, tick), Execute(s, Begin(a), env, tick);
      if first.compound.aborted || first.compound.status != NfsStatus.Ok then
        both.server == first.server && both.tick == first.tick
        && Respond(both.compound, tag) == Respond(first.compound, tag)
      else
        var second := Execute(first.server, Begin(b).(fh := first.compound.fh), env, first.tick);
        && both.server == second.server && both.tick == second.tick
        && both.compound.aborted == second.compound.aborted
        && both.compound.fh == second.compound.fh
        && both.compound.status == second.compound.status
        && both.compound.results == first.compound.results + second.compound.results
  {
    ExecuteMore(s, Begin(a), b, env, tick);
    var first := Execute(s, Begin(a), env, tick);
    var c := Begin(b).(fh := first.compound.fh);
    assert first.compound.results + c.results == first.compound.results;
    if !first.compound.aborted && first.compound.status == NfsStatus.Ok {
      assert first.compound.(ops := b) == c.(results := first.compound.results + c.results);
      ResultsCarried(first.server, c, first.compound.results, env, first.tick);
    }
  }

  //---------------------------------------------------------------------------
  // Compounds as histories
  //---------------------------------------------------------------------------

  lemma {:induction false} RunCons(s: Server, ev: Event, events: seq<Event>)
    ensures Run(s, [ev] + events) == Run(After(s, ev), events)
    decreases |events|
  {
    var all := [ev] + events;
    if events == [] {
      assert all[..0] == [];
    } else {
      var n := |events| - 1;
      assert all[..|all| - 1] == [ev] + events[..n];
      RunCons(s, ev, events[..n]);
    }
  }

  // The operations a compound runs, as a history.
  function EventsOf(s: Server, c: Compound, env: nat -> Choice, tick: nat): seq<Event>
    decreases |c.ops|, !c.aborted
  {
    if Finished(c) then []
    else
      var ev := Event(c.ops[0], c.fh, env(tick));
      var step := Apply(s, ev.op, ev.fh, ev.choice);
      [ev] + EventsOf(step.server, Advance(c, step.outcome), env, tick + 1)
  }

  // So whatever holds after every history holds after every compound.
  lemma {:induction false} CompoundIsRun(s: Server, c: Compound, env: nat -> Choice, tick: nat)
    ensures Execute(s, c, env, tick).server == Run(s, EventsOf(s, c, env, tick))
    decreases |c.ops|, !c.aborted
  {
    if !Finished(c) {
      var ev := Event(c.ops[0], c.fh, env(tick));
      var step := Apply(s, ev.op, ev.fh, ev.choice);
      var next := Advance(c, step.outcome);
      ExecuteStep(s, c, env, tick, step.server, step.outcome);
      CompoundIsRun(step.server, next, env, tick + 1);
      RunCons(s, ev, EventsOf(step.server, next, env, tick + 1));
    }
  }

  //---------------------------------------------------------------------------
  // The handle table of a fresh server stays empty
  //---------------------------------------------------------------------------

  // A handle is entered only under a handle that already resolves.
  lemma {:induction false} HandlesStayEmpty(s: Server, events: seq<Event>)
    requires s.handles == map[]
    ensures Run(s, events).handles == map[]
    decreases |events|
  {
    if events != [] {
      HandlesStayEmpty(s, events[..|events| - 1]);
    }
  }

  predicate GetFhBefore(ops: seq<NfsOperation>, n: nat)
    requires n <= |ops|
  {
    exists j :: 0 <= j < n && ops[j].GetFh?
  }

  function EmptyTableStatus(c: Compound, n: nat): NfsStatus
    requires n <= |c.ops|
  {
    if c.fh.Some? || GetFhBefore(c.ops, n) then StaleFileHandle else BadHandle
  }

  lemma EmptyTableStep(s: Server, c: Compound, e: Choice, step: Step)
    requires s.handles == map[] && c.ops != [] && step == Apply(s, c.ops[0], c.fh, e)
    ensures step.server.handles == map[]
    ensures UsesHandle(c.ops[0]) ==> step.outcome == Fail(EmptyTableStatus(c, 0))
    ensures step.outcome.Answer? ==> (Advance(c, step.outcome).fh.Some? <==> c.fh.Some? || c.ops[0].GetFh?)
  {
  }

  lemma GetFhShift(ops: seq<NfsOperation>, n: nat)
    requires 0 < n <= |ops|
    ensures GetFhBefore(ops, n) <==> ops[0].GetFh? || GetFhBefore(ops[1..], n - 1)
  {
    if GetFhBefore(ops[1..], n - 1) {
      var j :| 0 <= j < n - 1 && ops[1..][j].GetFh?;
      assert ops[j + 1].GetFh?;
    }
    if GetFhBefore(ops, n) && !ops[0].GetFh? {
      var j :| 0 <= j < n && ops[j].GetFh?;
      assert ops[1..][j - 1].GetFh?;
    }
  }

  lemma {:induction false} EmptyTableFrom(s: Server, c: Compound, env: nat -> Choice, tick: nat)
    requires s.handles == map[]
    ensures var r := Execute(s, c, env, tick).compound;
      && c.results <= r.results && |r.results| <= |c.results| + |c.ops|
      && forall i :: 0 <= i < |r.results| - |c.results| && UsesHandle(c.ops[i])
           ==> r.results[|c.results| + i] == OperationResult(EmptyTableStatus(c, i), None)
    decreases |c.ops|
  {
    if !Finished(c) {
      var step := Apply(s, c.ops[0], c.fh, env(tick));
      EmptyTableStep(s, c, env(tick), step);
      EmptyTableCons(s, c, env, tick, step.server, step.outcome);
    }
  }

  lemma {:induction false} EmptyTableCons(
    s: Server, c: Compound, env: nat -> Choice, tick: nat, s': Server, o: Outcome)
    requires !Finished(c) && Step(s', o) == Apply(s, c.ops[0], c.fh, env(tick)) && s'.handles == map[]
    requires UsesHandle(c.ops[0]) ==> o == Fail(EmptyTableStatus(c, 0))
    requires o.Answer? ==> (Advance(c, o).fh.Some? <==> c.fh.Some? || c.ops[0].GetFh?)
    ensures var r := Execute(s, c, env, tick).compound;
      && c.results <= r.results && |r.results| <= |c.results| + |c.ops|
      && forall i :: 0 <= i < |r.results| - |c.results| && UsesHandle(c.ops[i])
           ==> r.results[|c.results| + i] == OperationResult(EmptyTableStatus(c, i), None)
    decreases |c.ops|, 0
  {
    ExecuteStep(s, c, env, tick, s', o);
    if o.Answer? {
      var next := Advance(c, o);
      EmptyTableFrom(s', next, env, tick + 1);
      var r := Execute(s', next, env, tick + 1).compound;
      forall i | 0 < i < |r.results| - |c.results| && UsesHandle(c.ops[i])
        ensures r.results[|c.results| + i] == OperationResult(EmptyTableStatus(c, i), None)
      {
        GetFhShift(c.ops, i);
        assert UsesHandle(next.ops[i - 1]);
        assert r.results[|next.results| + (i - 1)] == OperationResult(EmptyTableStatus(next, i - 1), None);
      }
    }
  }

  lemma EmptyTableAt(s: Server, ops: seq<NfsOperation>, env: nat -> Choice, tick: nat, i: nat)
    requires s.handles == map[]
    requires i < |Execute(s, Begin(ops), env, tick).compound.results| && i < |ops| && UsesHandle(ops[i])
    ensures Execute(s, Begin(ops), env, tick).compound.results[i] ==
      OperationResult(if GetFhBefore(ops, i) then StaleFileHandle else BadHandle, None)
  {
    var c := Begin(ops);
    EmptyTableFrom(s, c, env, tick);
    assert |c.results| == 0 && UsesHandle(c.ops[i]);
    assert Execute(s, c, env, tick).compound.results[|c.results| + i] == OperationResult(EmptyTableStatus(c, i), None);
  }

  // On any state a fresh server can reach, Access, Commit, Create, GetAttr and Lookup answer
  // BadHandle before the first GetFh of their compound and StaleFileHandle after it.
  lemma EmptyTableReplies(
    root: Path, disk: Disk, events: seq<Event>, ops: seq<NfsOperation>, env: nat -> Choice, tick: nat, i: nat)
    requires var r := Execute(Run(Fresh(root, disk), events), Begin(ops), env, tick).compound;
      i < |r.results| && i < |ops| && UsesHandle(ops[i])
    ensures var r := Execute(Run(Fresh(root, disk), events), Begin(ops), env, tick).compound;
      && r.results[i].result == None
      && r.results[i].status == if exists j :: 0 <= j < i && ops[j].GetFh? then StaleFileHandle else BadHandle
  {
    HandlesStayEmpty(Fresh(root, disk), events);
    EmptyTableAt(Run(Fresh(root, disk), events), ops, env, tick, i);
  }
}
