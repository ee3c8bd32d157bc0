/** A server that goes down while compilations start on it (internal/client/daemon.go,
    internal/client/remote-connection.go). A broken stream reports its connection: the connection is looked up
    in the list, marked, and then the active invocations are scanned. An invocation picks a connection, registers
    among the active ones, and then checks the mark. Each of these is one step; they interleave in any order,
    also with reconnects, which replace connections in a copy of the list. */
module RemoteLoss {
  type ConnId = nat

  /** Marked: isUnavailable is set, and the reporter that set it will scan the active invocations. */
  datatype Phase = Up | Marked(reporter: nat) | Scanned

  /** reports: the last report that this connection's stream broke, if any. */
  datatype Conn = Conn(hostPort: nat, phase: Phase, broke: bool, lastReport: nat)

  /** Chosen: not active yet; Registered: active, not past the check; Started: past it; Over: refused or finished. */
  datatype InvPC = Chosen | Registered | Started | Over

  datatype Invocation = Invocation(remote: ConnId, pc: InvPC, interrupted: bool)

  datatype ReporterPC = Lookup | Mark | Scan | Finished

  datatype Reporter = Reporter(conn: ConnId, pc: ReporterPC)

  datatype State = State(
    conns: seq<Conn>,              // every connection there was
    published: seq<ConnId>,        // daemon.remoteConnections
    pending: map<nat, ConnId>,     // made by a reconnect, not in the list yet
    invs: seq<Invocation>,
    reporters: seq<Reporter>
  )

  /** earlyReports: the stream of a connection may break before the connection is in the list. */
  datatype Config = Config(earlyReports: bool)

  datatype Step =
    | Choose(c: ConnId)
    | Register(i: nat)
    | StartSession(i: nat)
    | Finish(i: nat)
    | StreamBreaks(c: ConnId)
    | RunReporter(k: nat)
    | Reconnect(index: nat, ok: bool)
    | Publish

  predicate Exists(s: State, c: ConnId) { c < |s.conns| }

  predicate Enabled(cfg: Config, s: State, step: Step) {
    match step
    case Choose(c) => Exists(s, c) && c in s.published && s.conns[c].phase.Up?
    case Register(i) => i < |s.invs| && s.invs[i].pc.Chosen?
    case StartSession(i) => i < |s.invs| && s.invs[i].pc.Registered? && Exists(s, s.invs[i].remote)
    case Finish(i) => i < |s.invs| && (s.invs[i].pc.Registered? || s.invs[i].pc.Started?)
    case StreamBreaks(c) => Exists(s, c) && (c !in s.pending.Values || cfg.earlyReports)
    case RunReporter(k) => k < |s.reporters| && !s.reporters[k].pc.Finished? && Exists(s, s.reporters[k].conn)
    case Reconnect(index, _) =>
      index < |s.published| && index !in s.pending
      && Exists(s, s.published[index]) && !s.conns[s.published[index]].phase.Up?
    case Publish => forall index :: index in s.pending ==> index < |s.published|
  }

  function SetInv(s: State, i: nat, pc: InvPC): State
    requires i < |s.invs|
  {
    s.(invs := s.invs[i := s.invs[i].(pc := pc)])
  }

  function SetReporter(s: State, k: nat, pc: ReporterPC): State
    requires k < |s.reporters|
  {
    s.(reporters := s.reporters[k := s.reporters[k].(pc := pc)])
  }

  function SetPhase(s: State, c: ConnId, phase: Phase): State
    requires Exists(s, c)
  {
    s.(conns := s.conns[c := s.conns[c].(phase := phase)])
  }

  predicate Active(inv: Invocation) { inv.pc.Registered? || inv.pc.Started? }

  /** interruptInvocationsOnRemote, under the lock of the active invocations. */
  function InterruptAll(s: State, c: ConnId): State {
    s.(invs := seq(|s.invs|, i requires 0 <= i < |s.invs| =>
         if Active(s.invs[i]) && s.invs[i].remote == c then s.invs[i].(interrupted := true) else s.invs[i]))
  }

  /** OnRemoteBecameUnavailable, a step at a time; a connection is matched by identity. */
  function RunOne(s: State, k: nat): State
    requires k < |s.reporters| && Exists(s, s.reporters[k].conn)
  {
    var c := s.reporters[k].conn;
    match s.reporters[k].pc
    case Lookup => SetReporter(s, k, if c in s.published then Mark else Finished)
    case Mark =>
      if s.conns[c].phase.Up? then SetPhase(SetReporter(s, k, Scan), c, Marked(k)) else SetReporter(s, k, Finished)
    case Scan => InterruptAll(SetPhase(SetReporter(s, k, Finished), c, Scanned), c)
    case Finished => s
  }

  function Apply(cfg: Config, s: State, step: Step): State
    requires Enabled(cfg, s, step)
  {
    match step
    case Choose(c) => s.(invs := s.invs + [Invocation(c, Chosen, false)])
    case Register(i) => SetInv(s, i, Registered)
    case StartSession(i) => SetInv(s, i, if s.conns[s.invs[i].remote].phase.Up? then Started else Over)
    case Finish(i) => SetInv(s, i, Over)
    case StreamBreaks(c) =>
      s.(conns := s.conns[c := s.conns[c].(broke := true, lastReport := |s.reporters|)],
         reporters := s.reporters + [Reporter(c, Lookup)])
    case RunReporter(k) => RunOne(s, k)
    case Reconnect(index, ok) =>
      s.(conns := s.conns + [Conn(s.conns[s.published[index]].hostPort, if ok then Up else Scanned, false, 0)],
         pending := s.pending[index := |s.conns|])
    case Publish =>
      s.(published := seq(|s.published|, i requires 0 <= i < |s.published| =>
           if i in s.pending then s.pending[i] else s.published[i]),
         pending := map[])
  }

  /** One working connection to each server. */
  function Initial(hostPorts: seq<nat>): State {
    State(seq(|hostPorts|, i requires 0 <= i < |hostPorts| => Conn(hostPorts[i], Up, false, 0)),
          seq(|hostPorts|, i requires 0 <= i < |hostPorts| => i), map[], [], [])
  }

  // ---------------------------------------------------------------- the invariant

  predicate Known(s: State) {
    && (forall i :: 0 <= i < |s.published| ==> Exists(s, s.published[i]))
    && (forall i :: i in s.pending ==> Exists(s, s.pending[i]) && i < |s.published|)
    && (forall i :: 0 <= i < |s.invs| ==> Exists(s, s.invs[i].remote))
    && (forall k :: 0 <= k < |s.reporters| ==> Exists(s, s.reporters[k].conn))
  }

  /** Each place in the list keeps its server. */
  predicate HostsKept(s: State, hostPorts: seq<nat>)
    requires Known(s)
  {
    && |s.published| == |hostPorts|
    && (forall i :: 0 <= i < |hostPorts| ==> s.conns[s.published[i]].hostPort == hostPorts[i])
    && (forall i :: i in s.pending ==> s.conns[s.pending[i]].hostPort == hostPorts[i])
  }

  /** A connection is marked by exactly the reporter that will scan for it, or is scanned. */
  predicate Marks(s: State)
    requires Known(s)
  {
    && (forall c :: 0 <= c < |s.conns| && s.conns[c].phase.Marked? ==>
          var k := s.conns[c].phase.reporter; k < |s.reporters| && s.reporters[k] == Reporter(c, Scan))
    && (forall k :: 0 <= k < |s.reporters| && s.reporters[k].pc.Scan? ==>
          s.conns[s.reporters[k].conn].phase == Marked(k))
    && (forall k :: 0 <= k < |s.reporters| ==> s.conns[s.reporters[k].conn].broke)
  }

  /** An invocation that got past the check is interrupted once its connection's scan is over. */
  predicate NoneSlips(s: State)
    requires Known(s)
  {
    forall i :: 0 <= i < |s.invs| && s.invs[i].pc.Started? && s.conns[s.invs[i].remote].phase.Scanned? ==>
      s.invs[i].interrupted
  }

  predicate Inv(s: State, hostPorts: seq<nat>) { Known(s) && HostsKept(s, hostPorts) && Marks(s) && NoneSlips(s) }

  lemma InvInvocation(cfg: Config, s: State, step: Step, hostPorts: seq<nat>)
    requires Inv(s, hostPorts) && Enabled(cfg, s, step)
    requires step.Choose? || step.Register? || step.StartSession? || step.Finish?
    ensures Inv(Apply(cfg, s, step), hostPorts)
  {
  }

  lemma InvBreaks(cfg: Config, s: State, step: Step, hostPorts: seq<nat>)
    requires Inv(s, hostPorts) && Enabled(cfg, s, step) && step.StreamBreaks?
    ensures Inv(Apply(cfg, s, step), hostPorts)
  {
  }

  lemma InvLookup(s: State, k: nat, pc: ReporterPC, hostPorts: seq<nat>)
    requires Inv(s, hostPorts) && k < |s.reporters| && !s.reporters[k].pc.Scan? && !pc.Scan?
    ensures Inv(SetReporter(s, k, pc), hostPorts)
  {
  }

  lemma InvMark(s: State, k: nat, hostPorts: seq<nat>)
    requires Inv(s, hostPorts) && k < |s.reporters| && s.reporters[k].pc.Mark? && s.conns[s.reporters[k].conn].phase.Up?
    ensures Inv(SetPhase(SetReporter(s, k, Scan), s.reporters[k].conn, Marked(k)), hostPorts)
  {
  }

  lemma InvScan(s: State, k: nat, hostPorts: seq<nat>)
    requires Inv(s, hostPorts) && k < |s.reporters| && s.reporters[k].pc.Scan?
    ensures Inv(RunOne(s, k), hostPorts)
  {
    var c := s.reporters[k].conn;
    var s1 := SetPhase(SetReporter(s, k, Finished), c, Scanned);
    assert Known(s1) && HostsKept(s1, hostPorts) && Marks(s1);
    var s' := InterruptAll(s1, c);
    assert s'.conns == s1.conns && s'.published == s1.published
           && s'.pending == s1.pending && s'.reporters == s1.reporters;
    assert forall i :: 0 <= i < |s.invs| ==> s'.invs[i].remote == s.invs[i].remote && s'.invs[i].pc == s.invs[i].pc;
  }

  lemma InvReconnect(cfg: Config, s: State, step: Step, hostPorts: seq<nat>)
    requires Inv(s, hostPorts) && Enabled(cfg, s, step)
    requires step.Reconnect? || step.Publish?
    ensures Inv(Apply(cfg, s, step), hostPorts)
  {
  }

  lemma InvStep(cfg: Config, s: State, step: Step, hostPorts: seq<nat>)
    requires Inv(s, hostPorts) && Enabled(cfg, s, step)
    ensures Inv(Apply(cfg, s, step), hostPorts)
  {
    hide Inv;
    match step {
      case StreamBreaks(_) => InvBreaks(cfg, s, step, hostPorts);
      case Reconnect(_, _) => InvReconnect(cfg, s, step, hostPorts);
      case Publish => InvReconnect(cfg, s, step, hostPorts);
      case RunReporter(k) =>
        if s.reporters[k].pc.Scan? {
          InvScan(s, k, hostPorts);
        } else if s.reporters[k].pc.Mark? && s.conns[s.reporters[k].conn].phase.Up? {
          InvMark(s, k, hostPorts);
        } else {
          var next := if s.reporters[k].pc.Lookup? && s.reporters[k].conn in s.published then Mark else Finished;
          InvLookup(s, k, next, hostPorts);
        }
      case _ => InvInvocation(cfg, s, step, hostPorts);
    }
  }

  // ---------------------------------------------------------------- runs

  predicate ValidRun(cfg: Config, s: State, steps: seq<Step>)
    decreases |steps|
  {
    steps == [] || (Enabled(cfg, s, steps[0]) && ValidRun(cfg, Apply(cfg, s, steps[0]), steps[1..]))
  }

  function After(cfg: Config, s: State, steps: seq<Step>): State
    requires ValidRun(cfg, s, steps)
    decreases |steps|
  {
    if steps == [] then s else After(cfg, Apply(cfg, s, steps[0]), steps[1..])
  }

  lemma InitialInv(hostPorts: seq<nat>)
    ensures Inv(Initial(hostPorts), hostPorts) && Reports(Initial(hostPorts))
  {
    var s := Initial(hostPorts);
    forall c | 0 <= c < |s.conns| ensures c in s.published && s.conns[c].phase.Up? && !s.conns[c].broke {
      assert s.published[c] == c;
    }
  }

  lemma {:induction false} InvAlways(cfg: Config, s: State, steps: seq<Step>, hostPorts: seq<nat>)
    requires Inv(s, hostPorts) && ValidRun(cfg, s, steps)
    ensures Inv(After(cfg, s, steps), hostPorts)
    decreases |steps|
  {
    hide Inv, Enabled, Apply;
    if steps != [] {
      InvStep(cfg, s, steps[0], hostPorts);
      InvAlways(cfg, Apply(cfg, s, steps[0]), steps[1..], hostPorts);
    }
  }

  /** In every run: an invocation that started on a connection which was marked since is interrupted, or the
      reporter that marked it has yet to scan, and then interrupts it; and the list keeps each place's server. */
  lemma NoInvocationSlips(cfg: Config, hostPorts: seq<nat>, steps: seq<Step>, i: nat)
    requires ValidRun(cfg, Initial(hostPorts), steps) && i < |After(cfg, Initial(hostPorts), steps).invs|
    ensures var s := After(cfg, Initial(hostPorts), steps);
            var inv := s.invs[i];
            && Known(s) && HostsKept(s, hostPorts)
            && (inv.pc.Started? && !s.conns[inv.remote].phase.Up? && !inv.interrupted ==>
                  exists k :: 0 <= k < |s.reporters| && s.reporters[k] == Reporter(inv.remote, Scan)
                              && RunOne(s, k).invs[i].interrupted)
  {
    hide Enabled, Apply;
    InitialInv(hostPorts);
    InvAlways(cfg, Initial(hostPorts), steps, hostPorts);
    var s := After(cfg, Initial(hostPorts), steps);
    var inv := s.invs[i];
    if inv.pc.Started? && !s.conns[inv.remote].phase.Up? && !inv.interrupted {
      var k := s.conns[inv.remote].phase.reporter;
      assert s.reporters[k] == Reporter(inv.remote, Scan);
      assert RunOne(s, k).invs[i].interrupted;
    }
  }

  lemma OnlyItsOwnStep(cfg: Config, s: State, step: Step, hostPorts: seq<nat>, c: ConnId)
    requires Inv(s, hostPorts) && Enabled(cfg, s, step) && c < |s.conns|
    ensures var s' := Apply(cfg, s, step);
            && c < |s'.conns| && (s.conns[c].broke || step == StreamBreaks(c) <==> s'.conns[c].broke)
            && (s.conns[c].phase.Up? ==> s.conns[c].broke || s'.conns[c].phase.Up?)
            && (!s.conns[c].phase.Up? ==> !s'.conns[c].phase.Up?)
  {
  }

  lemma {:induction false} StaysUp(cfg: Config, hostPorts: seq<nat>, s: State, steps: seq<Step>, c: ConnId)
    requires Inv(s, hostPorts) && ValidRun(cfg, s, steps) && c < |s.conns| && s.conns[c].phase.Up? && !s.conns[c].broke
    requires StreamBreaks(c) !in steps
    ensures var s' := After(cfg, s, steps);
            c < |s'.conns| && s'.conns[c].phase.Up? && !s'.conns[c].broke
    decreases |steps|
  {
    hide Inv, Enabled, Apply;
    if steps != [] {
      assert steps[0] in steps && forall step :: step in steps[1..] ==> step in steps;
      InvStep(cfg, s, steps[0], hostPorts);
      OnlyItsOwnStep(cfg, s, steps[0], hostPorts, c);
      StaysUp(cfg, hostPorts, Apply(cfg, s, steps[0]), steps[1..], c);
    }
  }

  lemma {:induction false} StaysMarked(cfg: Config, hostPorts: seq<nat>, s: State, steps: seq<Step>, c: ConnId)
    requires Inv(s, hostPorts) && ValidRun(cfg, s, steps) && c < |s.conns| && !s.conns[c].phase.Up?
    ensures var s' := After(cfg, s, steps);
            c < |s'.conns| && !s'.conns[c].phase.Up? && Choose(c) !in steps
    decreases |steps|
  {
    hide Inv, Apply;
    if steps != [] {
      InvStep(cfg, s, steps[0], hostPorts);
      OnlyItsOwnStep(cfg, s, steps[0], hostPorts, c);
      StaysMarked(cfg, hostPorts, Apply(cfg, s, steps[0]), steps[1..], c);
      assert steps == [steps[0]] + steps[1..];
    }
  }

  /** From any point of a run on, whatever breaks and is reconnected meanwhile, also to the same server: a connection
      that works stays usable unless its own stream breaks, so the late failure of a connection that was replaced
      does not take down its successor; and one that was marked is never used again. */
  lemma OnlyItsOwnStream(cfg: Config, hostPorts: seq<nat>, before: seq<Step>, steps: seq<Step>, c: ConnId)
    requires ValidRun(cfg, Initial(hostPorts), before) && ValidRun(cfg, After(cfg, Initial(hostPorts), before), steps)
    requires c < |After(cfg, Initial(hostPorts), before).conns|
    ensures var s := After(cfg, Initial(hostPorts), before);
            var s' := After(cfg, s, steps);
            && c < |s'.conns|
            && (s.conns[c].phase.Up? && !s.conns[c].broke && StreamBreaks(c) !in steps ==> s'.conns[c].phase.Up?)
            && (!s.conns[c].phase.Up? ==> !s'.conns[c].phase.Up? && Choose(c) !in steps)
  {
    hide Inv, Enabled, Apply, Reports, Initial;
    InitialInv(hostPorts);
    InvAlways(cfg, Initial(hostPorts), before, hostPorts);
    var s := After(cfg, Initial(hostPorts), before);
    if s.conns[c].phase.Up? {
      ConnsStay(cfg, hostPorts, s, steps, c);
      if !s.conns[c].broke && StreamBreaks(c) !in steps { StaysUp(cfg, hostPorts, s, steps, c); }
    } else {
      StaysMarked(cfg, hostPorts, s, steps, c);
    }
  }

  lemma {:induction false} ConnsStay(cfg: Config, hostPorts: seq<nat>, s: State, steps: seq<Step>, c: ConnId)
    requires Inv(s, hostPorts) && ValidRun(cfg, s, steps) && c < |s.conns|
    ensures c < |After(cfg, s, steps).conns|
    decreases |steps|
  {
    hide Inv, Enabled, Apply;
    if steps != [] {
      InvStep(cfg, s, steps[0], hostPorts);
      OnlyItsOwnStep(cfg, s, steps[0], hostPorts, c);
      ConnsStay(cfg, hostPorts, Apply(cfg, s, steps[0]), steps[1..], c);
    }
  }

  /** A reconnect makes a connection to the same server, which works exactly if the server answered; if it did not, the
      connection is never chosen, whatever happens after. */
  lemma ReconnectsExactly(cfg: Config, hostPorts: seq<nat>, before: seq<Step>, index: nat, ok: bool, steps: seq<Step>)
    requires ValidRun(cfg, Initial(hostPorts), before + [Reconnect(index, ok)])
    requires ValidRun(cfg, After(cfg, Initial(hostPorts), before + [Reconnect(index, ok)]), steps)
    requires ValidRun(cfg, Initial(hostPorts), before)
    requires Enabled(cfg, After(cfg, Initial(hostPorts), before), Reconnect(index, ok))
    ensures var s := After(cfg, Initial(hostPorts), before);
            var s' := After(cfg, Initial(hostPorts), before + [Reconnect(index, ok)]);
            && |s'.conns| == |s.conns| + 1 && index < |hostPorts|
            && s'.conns[|s.conns|].hostPort == hostPorts[index] && (s'.conns[|s.conns|].phase.Up? <==> ok)
            && (!ok ==> Choose(|s.conns|) !in steps)
  {
    hide ValidRun, After, Initial;
    InitialInv(hostPorts);
    InvAlways(cfg, Initial(hostPorts), before, hostPorts);
    Extend(cfg, Initial(hostPorts), before, Reconnect(index, ok));
    var s := After(cfg, Initial(hostPorts), before);
    OnlyItsOwnStream(cfg, hostPorts, before + [Reconnect(index, ok)], steps, |s.conns|);
  }

  // ---------------------------------------------------------------- nobody else is interrupted

  /** An interrupted invocation is on a connection whose stream broke, and whose active invocations were scanned. */
  predicate OnlyTheirs(s: State)
    requires Known(s)
  {
    forall i :: 0 <= i < |s.invs| && s.invs[i].interrupted ==>
      s.conns[s.invs[i].remote].broke && s.conns[s.invs[i].remote].phase.Scanned?
  }

  lemma OnlyTheirsStep(cfg: Config, s: State, step: Step, hostPorts: seq<nat>)
    requires Inv(s, hostPorts) && OnlyTheirs(s) && Enabled(cfg, s, step)
    ensures Known(Apply(cfg, s, step)) && OnlyTheirs(Apply(cfg, s, step))
  {
    InvStep(cfg, s, step, hostPorts);
    hide HostsKept, NoneSlips;
  }

  lemma {:induction false} OnlyTheirsAlways(cfg: Config, hostPorts: seq<nat>, s: State, steps: seq<Step>)
    requires Inv(s, hostPorts) && OnlyTheirs(s) && ValidRun(cfg, s, steps)
    ensures Inv(After(cfg, s, steps), hostPorts) && OnlyTheirs(After(cfg, s, steps))
    decreases |steps|
  {
    hide Enabled, Apply;
    if steps != [] {
      InvStep(cfg, s, steps[0], hostPorts);
      OnlyTheirsStep(cfg, s, steps[0], hostPorts);
      OnlyTheirsAlways(cfg, hostPorts, Apply(cfg, s, steps[0]), steps[1..]);
    }
  }

  /** In every run: no invocation is interrupted but for the end of its own connection's stream; and if it is, this
      happens in the scan of a reporter of that connection, while it is active. */
  lemma InterruptedOnlyByItsOwn(cfg: Config, hostPorts: seq<nat>, steps: seq<Step>, step: Step, i: nat)
    requires ValidRun(cfg, Initial(hostPorts), steps)
    requires var s := After(cfg, Initial(hostPorts), steps); Enabled(cfg, s, step) && i < |s.invs|
    ensures var s := After(cfg, Initial(hostPorts), steps);
            var inv, inv' := s.invs[i], Apply(cfg, s, step).invs[i];
            && Known(s) && inv'.remote == inv.remote
            && (inv.interrupted ==> s.conns[inv.remote].broke && !s.conns[inv.remote].phase.Up?)
            && (inv'.interrupted <==>
                  || inv.interrupted
                  || (step.RunReporter? && s.reporters[step.k] == Reporter(inv.remote, Scan)
                      && (inv.pc.Registered? || inv.pc.Started?)))
  {
    InitialInv(hostPorts);
    OnlyTheirsAlways(cfg, hostPorts, Initial(hostPorts), steps);
    hide ValidRun, After, Initial;
  }

  // ---------------------------------------------------------------- reports that are lost

  /** A connection in use whose stream broke, and no report of it is under way: it looks fine for ever. */
  predicate SilentlyDead(s: State, c: ConnId) {
    && c < |s.conns| && c in s.published && s.conns[c].phase.Up? && s.conns[c].broke
    && forall k :: 0 <= k < |s.reporters| && s.reporters[k].conn == c ==> s.reporters[k].pc.Finished?
  }

  /** Without early reports: a connection that works is in the list, or about to be, and nobody reports the latter. */
  predicate Reports(s: State) {
    && (forall c :: 0 <= c < |s.conns| && s.conns[c].phase.Up? ==> c in s.published || c in s.pending.Values)
    && (forall i :: i in s.pending ==>
          i < |s.published| && Exists(s, s.published[i]) && !s.conns[s.published[i]].phase.Up?)
    && (forall k :: 0 <= k < |s.reporters| ==> s.reporters[k].conn !in s.pending.Values)
    && (forall c :: 0 <= c < |s.conns| && s.conns[c].broke ==>
          && s.conns[c].lastReport < |s.reporters| && s.reporters[s.conns[c].lastReport].conn == c
          && (s.reporters[s.conns[c].lastReport].pc.Finished? ==> !s.conns[c].phase.Up?))
  }

  const ON_TIME := Config(false)

  lemma ReportsInvocation(s: State, step: Step)
    requires Reports(s) && Known(s) && Enabled(ON_TIME, s, step)
    requires step.Choose? || step.Register? || step.StartSession? || step.Finish?
    ensures Reports(Apply(ON_TIME, s, step))
  {
  }

  lemma ReportsBreaks(s: State, step: Step)
    requires Reports(s) && Known(s) && Enabled(ON_TIME, s, step) && step.StreamBreaks?
    ensures Reports(Apply(ON_TIME, s, step))
  {
  }

  lemma ReportsRun(s: State, k: nat)
    requires Reports(s) && Known(s) && Marks(s) && Enabled(ON_TIME, s, RunReporter(k))
    ensures Reports(RunOne(s, k))
  {
  }

  lemma ReportsReconnect(s: State, step: Step)
    requires Reports(s) && Known(s) && Enabled(ON_TIME, s, step) && step.Reconnect?
    ensures Reports(Apply(ON_TIME, s, step))
  {
    var s' := Apply(ON_TIME, s, step);
    assert s'.pending[step.index] == |s.conns|;
    forall c | c in s.pending.Values ensures c in s'.pending.Values {
      var i :| i in s.pending && s.pending[i] == c;
      assert s'.pending[i] == c;
    }
    assert forall c :: c in s'.pending.Values ==> c in s.pending.Values || c == |s.conns|;
  }

  lemma ReportsPublish(s: State)
    requires Reports(s) && Known(s) && Enabled(ON_TIME, s, Publish)
    ensures Reports(Apply(ON_TIME, s, Publish))
  {
    var s' := Apply(ON_TIME, s, Publish);
    forall c | 0 <= c < |s.conns| && s.conns[c].phase.Up? ensures c in s'.published {
      if c in s.pending.Values {
        var i :| i in s.pending && s.pending[i] == c;
        assert s'.published[i] == c;
      } else {
        var i :| 0 <= i < |s.published| && s.published[i] == c;
        assert s'.published[i] == c;
      }
    }
  }

  lemma ReportsStep(s: State, step: Step, hostPorts: seq<nat>)
    requires Reports(s) && Inv(s, hostPorts) && Enabled(ON_TIME, s, step)
    ensures Reports(Apply(ON_TIME, s, step))
  {
    hide Reports;
    match step {
      case StreamBreaks(_) => ReportsBreaks(s, step);
      case RunReporter(k) => ReportsRun(s, k);
      case Reconnect(_, _) => ReportsReconnect(s, step);
      case Publish => ReportsPublish(s);
      case _ => ReportsInvocation(s, step);
    }
  }

  lemma {:induction false} ReportsAlways(s: State, steps: seq<Step>, hostPorts: seq<nat>)
    requires Reports(s) && Inv(s, hostPorts) && ValidRun(ON_TIME, s, steps)
    ensures Reports(After(ON_TIME, s, steps))
    decreases |steps|
  {
    hide Reports, Inv, Enabled, Apply;
    if steps != [] {
      InvStep(ON_TIME, s, steps[0], hostPorts);
      ReportsStep(s, steps[0], hostPorts);
      ReportsAlways(Apply(ON_TIME, s, steps[0]), steps[1..], hostPorts);
    }
  }

  ghost predicate CanDieSilently(cfg: Config, hostPorts: seq<nat>) {
    exists steps, c ::
      ValidRun(cfg, Initial(hostPorts), steps) && SilentlyDead(After(cfg, Initial(hostPorts), steps), c)
  }

  lemma {:induction false} Extend(cfg: Config, s: State, steps: seq<Step>, step: Step)
    requires ValidRun(cfg, s, steps) && Enabled(cfg, After(cfg, s, steps), step)
    ensures ValidRun(cfg, s, steps + [step]) && After(cfg, s, steps + [step]) == Apply(cfg, After(cfg, s, steps), step)
    decreases |steps|
  {
    hide Enabled, Apply;
    if steps == [] {
      assert [step][1..] == [];
    } else {
      assert (steps + [step])[1..] == steps[1..] + [step];
      Extend(cfg, Apply(cfg, s, steps[0]), steps[1..], step);
    }
  }

  const EARLY := Config(true)

  /** The states of a run in which the stream of a connection's successor breaks before it is in the list. */
  function LostReport(n: nat): State {
    var first := Reporter(0, if n == 1 then Lookup else if n == 2 then Mark else if n == 3 then Scan else Finished);
    var conn := Conn(0, if n <= 2 then Up else if n == 3 then Marked(0) else Scanned, true, 0);
    if n == 0 then Initial([0])
    else if n <= 4 then State([conn], [0], map[], [], [first])
    else if n == 5 then State([conn, Conn(0, Up, false, 0)], [0], map[0 := 1], [], [first])
    else
      State([conn, Conn(0, Up, true, 1)], if n == 8 then [1] else [0], if n == 8 then map[] else map[0 := 1], [],
            [first, Reporter(1, if n == 6 then Lookup else Finished)])
  }

  function LostStep(n: nat): Step {
    if n == 0 then StreamBreaks(0) else if n <= 3 then RunReporter(0) else if n == 4 then Reconnect(0, true)
    else if n == 5 then StreamBreaks(1) else if n == 6 then RunReporter(1) else Publish
  }

  lemma LostFollows(n: nat)
    requires n < 8
    ensures Enabled(EARLY, LostReport(n), LostStep(n)) && Apply(EARLY, LostReport(n), LostStep(n)) == LostReport(n + 1)
  {
  }

  lemma EarlyReportIsLost() returns (steps: seq<Step>)
    ensures ValidRun(EARLY, Initial([0]), steps) && SilentlyDead(After(EARLY, Initial([0]), steps), 1)
  {
    hide Enabled, Apply;
    steps := [];
    for n := 0 to 8
      invariant ValidRun(EARLY, Initial([0]), steps) && After(EARLY, Initial([0]), steps) == LostReport(n)
    {
      LostFollows(n);
      Extend(EARLY, Initial([0]), steps, LostStep(n));
      steps := steps + [LostStep(n)];
    }
  }

  /** If no stream breaks before its connection is in the list, a broken one never goes unnoticed; otherwise it can. */
  lemma DiesSilentlyExactlyWhen(cfg: Config)
    ensures (exists hostPorts :: CanDieSilently(cfg, hostPorts)) <==> cfg.earlyReports
  {
    hide Inv, ValidRun, After;
    if cfg.earlyReports {
      var steps := EarlyReportIsLost();
      assert CanDieSilently(cfg, [0]);
    } else {
      forall hostPorts, steps, c | ValidRun(cfg, Initial(hostPorts), steps)
        ensures !SilentlyDead(After(cfg, Initial(hostPorts), steps), c)
      {
        InitialInv(hostPorts);
        ReportsAlways(Initial(hostPorts), steps, hostPorts);
      }
    }
  }
}
