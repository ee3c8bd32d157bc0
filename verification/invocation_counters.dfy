/** The two wait groups of an invocation (internal/client/invocation.go): uploads that complete, forced
    interrupts and delivered results run as threads, and every load, compare-and-swap, swap and Done is a
    step of its own. */
module InvocationCounters {
  import opened Wrappers

  type Reason = nat

  datatype Kind = Upload | Interrupt | Recv

  /** Where a thread is in DoneUploadFile, ForceInterrupt or DoneRecvObj. */
  datatype PC =
    | Check                // ForceInterrupt: waitUploads != 0?
    | SetErr               // DoneUploadFile: err, if there is one
    | Load                 // the counter is read
    | Cas(seen: int)       // and one is taken off, unless it has changed since
    | Release              // wgUpload.Done()
    | Swap                 // DoneRecvObj: the first one goes on
    | SetRecvErr
    | ReleaseRecv          // wgRecv.Done()
    | Finished

  /** sawCount: an interrupt last looked at the upload counter after it was set. */
  datatype Thread = Thread(kind: Kind, err: Option<Reason>, pc: PC, sawCount: bool)

  /** The invocation's own thread: before wgRecv.Add, before the upload counter is set (dependencies are
      collected, the session is started), before wgUpload.Add, waiting for uploads, waiting for the object, and at
      the end, with or without an error. */
  datatype Main = Starting | Collecting | Counted | Uploading | Waiting | Returned(failed: bool)

  datatype State = State(
    main: Main,
    waitUploads: int,
    added: bool,                        // wgUpload.Add was called
    wgUpload: int,
    doneRecv: bool,
    wgRecv: int,
    err: Option<Reason>,
    uploading: nat,                     // uploads under way
    threads: seq<Thread>,
    winner: Option<Option<Reason>>      // what the first DoneRecvObj was called with
  )

  const INITIAL := State(Starting, 0, false, 0, false, 0, None, 0, [], None)

  /** files: how many files the remote asks for. Two windows may be open: an interrupt comes after the invocation
      was registered and before wgRecv.Add; a compare-and-swap falls between the assignment of the upload counter
      and wgUpload.Add. At any other moment interrupts may come, and threads run, in any case. */
  datatype Config = Config(files: nat, interruptBeforeRecvAdd: bool, casBeforeUploadAdd: bool) {
    predicate WindowsClosed() { !interruptBeforeRecvAdd && !(casBeforeUploadAdd && files > 0) }
  }

  datatype Step =
    | MainGoesOn
    | MainFails                         // no dependencies found, session refused, or remote unavailable
    | Interrupted(reason: Reason)
    | UploadEnds(err: Option<Reason>)
    | ObjReceived(err: Option<Reason>)
    | Run(i: nat)

  predicate Enabled(c: Config, s: State, step: Step) {
    match step
    case MainGoesOn =>
      && !s.main.Returned?
      && (s.main.Uploading? ==> s.wgUpload == 0)
      && (s.main.Waiting? ==> s.wgRecv == 0)
    case MainFails => s.main.Collecting?
    case Interrupted(_) => c.interruptBeforeRecvAdd || !s.main.Starting?
    case UploadEnds(_) => s.uploading > 0
    case ObjReceived(_) => !s.main.Starting?
    case Run(i) =>
      && i < |s.threads| && !s.threads[i].pc.Finished?
      && (s.threads[i].pc.Cas? && s.main.Counted? ==> c.casBeforeUploadAdd)
  }

  /** Both waits are followed by a look at the error. */
  function NextMain(c: Config, s: State): State {
    match s.main
    case Starting => s.(main := Collecting, wgRecv := s.wgRecv + 1)
    case Collecting => s.(main := Counted, waitUploads := c.files)
    case Counted => s.(main := Uploading, added := true, wgUpload := s.wgUpload + s.waitUploads, uploading := c.files)
    case Uploading => s.(main := if s.err.Some? then Returned(true) else Waiting)
    case Waiting => s.(main := Returned(s.err.Some?))
    case Returned(_) => s
  }

  function Spawn(s: State, t: Thread): State { s.(threads := s.threads + [t]) }

  /** DoneUploadFile returns: to the loop of ForceInterrupt, or for good. */
  function AfterUpload(t: Thread): PC { if t.kind.Interrupt? then Check else Finished }

  predicate CountSet(m: Main) { !m.Starting? && !m.Collecting? }

  /** One step of a thread: where it goes, ... */
  function Next(s: State, t: Thread): Thread {
    match t.pc
    case Check => t.(pc := if s.waitUploads != 0 then SetErr else Swap, sawCount := CountSet(s.main))
    case SetErr => t.(pc := Load)
    case Load => t.(pc := if s.waitUploads <= 0 then AfterUpload(t) else Cas(s.waitUploads))
    case Cas(seen) => t.(pc := if s.waitUploads == seen then Release else Load)
    case Release => t.(pc := AfterUpload(t))
    case Swap => t.(pc := if s.doneRecv then Finished else SetRecvErr)
    case SetRecvErr => t.(pc := ReleaseRecv)
    case ReleaseRecv => t.(pc := Finished)
    case Finished => t
  }

  /** ... and what it does to the invocation. */
  function Effect(s: State, t: Thread): State {
    match t.pc
    case SetErr => if t.err.Some? then s.(err := t.err) else s
    case Cas(seen) => if s.waitUploads == seen then s.(waitUploads := seen - 1) else s
    case Release => s.(wgUpload := s.wgUpload - 1)
    case Swap => if s.doneRecv then s else s.(doneRecv := true, winner := Some(t.err))
    case SetRecvErr => if t.err.Some? then s.(err := t.err) else s
    case ReleaseRecv => s.(wgRecv := s.wgRecv - 1)
    case _ => s
  }

  function RunThread(s: State, i: nat): State
    requires i < |s.threads|
  {
    Effect(s, s.threads[i]).(threads := s.threads[i := Next(s, s.threads[i])])
  }

  function Apply(c: Config, s: State, step: Step): State
    requires Enabled(c, s, step)
  {
    match step
    case MainGoesOn => NextMain(c, s)
    case MainFails => s.(main := Returned(true))
    case Interrupted(reason) => Spawn(s, Thread(Interrupt, Some(reason), Check, false))
    case UploadEnds(err) => Spawn(s.(uploading := s.uploading - 1), Thread(Upload, err, SetErr, false))
    case ObjReceived(err) => Spawn(s, Thread(Recv, err, Swap, false))
    case Run(i) => RunThread(s, i)
  }

  // ---------------------------------------------------------------- counting threads

  function Count(p: Thread -> bool, ts: seq<Thread>): nat {
    if ts == [] then 0 else Count(p, ts[..|ts| - 1]) + (if p(ts[|ts| - 1]) then 1 else 0)
  }

  lemma CountMore(p: Thread -> bool, ts: seq<Thread>, t: Thread)
    ensures Count(p, ts + [t]) == Count(p, ts) + (if p(t) then 1 else 0)
  {
    assert (ts + [t])[..|ts|] == ts;
  }

  lemma {:induction false} CountUpdate(p: Thread -> bool, ts: seq<Thread>, i: nat, t: Thread)
    requires i < |ts|
    ensures Count(p, ts[i := t]) == Count(p, ts) - (if p(ts[i]) then 1 else 0) + (if p(t) then 1 else 0)
  {
    var n := |ts| - 1;
    if i < n {
      assert ts[i := t][..n] == ts[..n][i := t];
      CountUpdate(p, ts[..n], i, t);
    } else {
      assert ts[i := t][..n] == ts[..n];
    }
  }

  lemma {:induction false} CountZero(p: Thread -> bool, ts: seq<Thread>)
    ensures Count(p, ts) == 0 <==> forall i :: 0 <= i < |ts| ==> !p(ts[i])
  {
    if ts != [] {
      var n := |ts| - 1;
      CountZero(p, ts[..n]);
      assert forall i :: 0 <= i < n ==> ts[..n][i] == ts[i];
    }
  }

  const Releasing := (t: Thread) => t.pc.Release?
  const Completing := (t: Thread) => t.kind.Upload? && (t.pc.SetErr? || t.pc.Load? || t.pc.Cas?)
  const ReleasingRecv := (t: Thread) => t.pc.SetRecvErr? || t.pc.ReleaseRecv?
  const SettingErr := (t: Thread) => t.pc.SetRecvErr?

  // ---------------------------------------------------------------- the invariant

  predicate InDoneRecv(pc: PC) { pc.Swap? || pc.SetRecvErr? || pc.ReleaseRecv? || pc.Finished? }

  /** A result does not touch the upload counter, an upload does not touch the other one; a value to swap is
      positive; an interrupt that saw the counter goes on to DoneRecvObj only with no upload left to wait for. */
  predicate ThreadOk(s: State, t: Thread) {
    && !s.main.Starting?
    && (t.kind.Recv? ==> InDoneRecv(t.pc))
    && (t.kind.Upload? ==> s.added && (t.pc.SetErr? || t.pc.Load? || t.pc.Cas? || t.pc.Release? || t.pc.Finished?))
    && (t.pc.Cas? ==> t.pc.seen > 0)
    && (t.pc.Release? ==> s.added)
    && (t.sawCount ==> CountSet(s.main))
    && (t.sawCount && t.kind.Interrupt? && InDoneRecv(t.pc) ==> s.waitUploads == 0)
    && (t.pc.SetRecvErr? || t.pc.ReleaseRecv? ==> s.winner == Some(t.err))
    && (!t.kind.Upload? && t.pc.Finished? ==> s.doneRecv)
  }

  predicate ThreadsOk(s: State) { forall i :: 0 <= i < |s.threads| ==> ThreadOk(s, s.threads[i]) }

  /** wgUpload counts what is left to wait for, and the threads that took one off and have not said so yet. */
  predicate UploadCounts(c: Config, s: State, releasing: nat, completing: nat) {
    && s.waitUploads >= 0
    && (s.main.Uploading? || s.main.Waiting? || s.main == Returned(false) ==> s.added)
    && (s.main.Starting? || s.main.Collecting? || s.main.Counted? ==> !s.added)
    && (!s.added ==> s.waitUploads == (if s.main.Counted? then c.files else 0))
    && s.wgUpload == (if s.added then s.waitUploads + releasing else 0)
    && (if s.added then s.waitUploads <= s.uploading + completing else s.uploading == 0 && releasing == 0)
  }

  predicate Uploads(c: Config, s: State) {
    UploadCounts(c, s, Count(Releasing, s.threads), Count(Completing, s.threads))
  }

  predicate Receiving(s: State) {
    && s.doneRecv == s.winner.Some?
    && (s.main.Starting? ==> !s.doneRecv)
    && Count(ReleasingRecv, s.threads) <= (if s.doneRecv then 1 else 0)
    && s.wgRecv == (if s.main.Starting? then 0 else if s.doneRecv then Count(ReleasingRecv, s.threads) else 1)
  }

  /** The error the first DoneRecvObj was called with is set before the waiter is let go. */
  predicate ErrorKept(s: State) {
    s.winner.Some? && s.winner.value.Some? && s.err.None? ==> Count(SettingErr, s.threads) > 0
  }

  /** The waits that are over. */
  predicate Past(s: State) {
    && (s.main.Waiting? || s.main == Returned(false) ==> s.wgUpload == 0)
    && (s.main == Returned(false) ==> s.wgRecv == 0 && s.winner == Some(None))
  }

  predicate Inv(c: Config, s: State) { ThreadsOk(s) && Uploads(c, s) && Receiving(s) && ErrorKept(s) && Past(s) }

  /** How much a thread counts. */
  function One(p: Thread -> bool, t: Thread): nat { if p(t) then 1 else 0 }

  lemma CountsAfter(ts: seq<Thread>, i: nat, t: Thread)
    requires i < |ts|
    ensures var ts' := ts[i := t];
            && Count(Releasing, ts') == Count(Releasing, ts) - One(Releasing, ts[i]) + One(Releasing, t)
            && Count(Completing, ts') == Count(Completing, ts) - One(Completing, ts[i]) + One(Completing, t)
            && Count(ReleasingRecv, ts') == Count(ReleasingRecv, ts) - One(ReleasingRecv, ts[i]) + One(ReleasingRecv, t)
            && Count(SettingErr, ts') == Count(SettingErr, ts) - One(SettingErr, ts[i]) + One(SettingErr, t)
  {
    CountUpdate(Releasing, ts, i, t);
    CountUpdate(Completing, ts, i, t);
    CountUpdate(ReleasingRecv, ts, i, t);
    CountUpdate(SettingErr, ts, i, t);
  }

  /** With the windows closed, the counter is swapped only after wgUpload.Add. */
  lemma SwapsAfterAdd(c: Config, s: State, i: nat)
    requires c.WindowsClosed() && Enabled(c, s, Run(i)) && ThreadsOk(s) && Uploads(c, s)
    ensures var t := s.threads[i];
            && (t.pc.Cas? && s.waitUploads == t.pc.seen ==> s.added && t.pc.seen > 0)
            && (t.pc.Release? ==> s.added)
  {
    hide Count;
    assert ThreadOk(s, s.threads[i]);
  }

  lemma ThreadRuns(s: State, t: Thread)
    requires ThreadOk(s, t) && !t.pc.Finished? && s.doneRecv == s.winner.Some? && s.waitUploads >= 0
    requires t.pc.Cas? && s.waitUploads == t.pc.seen ==> s.added
    ensures ThreadOk(Effect(s, t), Next(s, t))
  {
  }

  lemma OthersOk(s: State, t: Thread, other: Thread)
    requires ThreadOk(s, t) && ThreadOk(s, other) && s.doneRecv == s.winner.Some?
    ensures ThreadOk(Effect(s, t), other)
  {
  }

  lemma SameOk(s: State, s': State, t: Thread)
    requires ThreadOk(s, t) && s' == s.(threads := s'.threads)
    ensures ThreadOk(s', t)
  {
  }

  lemma ThreadsRun(c: Config, s: State, i: nat)
    requires c.WindowsClosed() && Enabled(c, s, Run(i)) && ThreadsOk(s) && Uploads(c, s)
    requires s.doneRecv == s.winner.Some?
    ensures ThreadsOk(RunThread(s, i))
  {
    SwapsAfterAdd(c, s, i);
    hide Count, ThreadOk, Effect, Next;
    var t, s' := s.threads[i], RunThread(s, i);
    forall j | 0 <= j < |s.threads| ensures ThreadOk(s', s'.threads[j]) {
      if j == i { ThreadRuns(s, t); } else { OthersOk(s, t, s.threads[j]); }
      SameOk(Effect(s, t), s', s'.threads[j]);
    }
  }

  lemma UploadCountsRun(c: Config, s: State, t: Thread, releasing: nat, completing: nat,
                        releasing': nat, completing': nat)
    requires UploadCounts(c, s, releasing, completing) && ThreadOk(s, t) && !t.pc.Finished?
    requires t.pc.Cas? && s.waitUploads == t.pc.seen ==> s.added
    requires releasing' == releasing - One(Releasing, t) + One(Releasing, Next(s, t))
    requires completing' == completing - One(Completing, t) + One(Completing, Next(s, t))
    ensures UploadCounts(c, Effect(s, t), releasing', completing')
  {
  }

  lemma UploadsRun(c: Config, s: State, i: nat)
    requires c.WindowsClosed() && Enabled(c, s, Run(i)) && ThreadsOk(s) && Uploads(c, s)
    ensures Uploads(c, RunThread(s, i))
  {
    SwapsAfterAdd(c, s, i);
    var t := s.threads[i];
    assert ThreadOk(s, t);
    hide Count, ThreadOk, Effect, Next, One;
    var ts' := s.threads[i := Next(s, t)];
    CountsAfter(s.threads, i, Next(s, t));
    UploadCountsRun(c, s, t, Count(Releasing, s.threads), Count(Completing, s.threads),
                    Count(Releasing, ts'), Count(Completing, ts'));
  }

  lemma ReceivingRun(c: Config, s: State, i: nat)
    requires i < |s.threads| && !s.threads[i].pc.Finished? && ThreadsOk(s) && Receiving(s) && ErrorKept(s)
    ensures Receiving(RunThread(s, i)) && ErrorKept(RunThread(s, i))
  {
    hide Count;
    CountsAfter(s.threads, i, Next(s, s.threads[i]));
    assert ThreadOk(s, s.threads[i]);
  }

  lemma InvRun(c: Config, s: State, i: nat)
    requires Inv(c, s) && Enabled(c, s, Run(i)) && c.WindowsClosed()
    ensures Inv(c, RunThread(s, i))
  {
    hide Count, ThreadOk;
    ThreadsRun(c, s, i);
    UploadsRun(c, s, i);
    ReceivingRun(c, s, i);
    assert ThreadOk(s, s.threads[i]);
    PastRun(c, s, i);
  }

  /** A wait that is over stays over: only a thread that is counted says Done. */
  lemma PastRun(c: Config, s: State, i: nat)
    requires i < |s.threads| && Uploads(c, s) && Receiving(s) && Past(s)
    ensures Past(RunThread(s, i))
  {
    hide Count;
    CountZero(Releasing, s.threads);
    CountZero(ReleasingRecv, s.threads);
    assert s.threads[i].pc.Release? ==> Releasing(s.threads[i]);
    assert s.threads[i].pc.ReleaseRecv? ==> ReleasingRecv(s.threads[i]);
  }

  predicate Starts(t: Thread) {
    match t.kind
    case Upload => t.pc.SetErr?
    case Interrupt => t.pc.Check?
    case Recv => t.pc.Swap?
  }

  lemma InvSpawn(c: Config, s: State, t: Thread, ended: nat)
    requires Inv(c, s) && Starts(t) && !t.sawCount && !s.main.Starting? && (t.kind.Upload? ==> s.added)
    requires ended == (if t.kind.Upload? then 1 else 0) && s.uploading >= ended
    ensures Inv(c, Spawn(s.(uploading := s.uploading - ended), t))
  {
    hide Count;
    var s' := Spawn(s.(uploading := s.uploading - ended), t);
    CountMore(Releasing, s.threads, t);
    CountMore(Completing, s.threads, t);
    CountMore(ReleasingRecv, s.threads, t);
    CountMore(SettingErr, s.threads, t);
    forall j | 0 <= j < |s'.threads| ensures ThreadOk(s', s'.threads[j]) {
      if j < |s.threads| { assert ThreadOk(s, s.threads[j]); }
    }
  }

  lemma InvMain(c: Config, s: State)
    requires Inv(c, s) && Enabled(c, s, MainGoesOn)
    ensures Inv(c, NextMain(c, s))
  {
    hide Count;
    CountZero(Releasing, s.threads);
    CountZero(ReleasingRecv, s.threads);
    CountZero(SettingErr, s.threads);
    var s' := NextMain(c, s);
    if s.main.Starting? { Nobody(s); }
    forall j | 0 <= j < |s'.threads| ensures ThreadOk(s', s'.threads[j]) { assert ThreadOk(s, s.threads[j]); }
  }

  lemma InvFails(c: Config, s: State)
    requires Inv(c, s) && s.main.Collecting?
    ensures Inv(c, s.(main := Returned(true)))
  {
    hide Count;
    var s' := s.(main := Returned(true));
    forall j | 0 <= j < |s'.threads| ensures ThreadOk(s', s'.threads[j]) { assert ThreadOk(s, s.threads[j]); }
  }

  lemma Nobody(s: State)
    requires ThreadsOk(s) && s.main.Starting?
    ensures s.threads == [] && Count(ReleasingRecv, s.threads) == 0
  {
    assert s.threads != [] ==> ThreadOk(s, s.threads[0]);
  }

  lemma InvStep(c: Config, s: State, step: Step)
    requires Inv(c, s) && Enabled(c, s, step) && c.WindowsClosed()
    ensures Inv(c, Apply(c, s, step))
  {
    hide Inv, NextMain, RunThread;
    match step {
      case MainGoesOn => InvMain(c, s);
      case MainFails => InvFails(c, s);
      case Interrupted(reason) => InvSpawn(c, s, Thread(Interrupt, Some(reason), Check, false), 0);
      case UploadEnds(err) => UploadingMeansAdded(c, s); InvSpawn(c, s, Thread(Upload, err, SetErr, false), 1);
      case ObjReceived(err) => InvSpawn(c, s, Thread(Recv, err, Swap, false), 0);
      case Run(i) => InvRun(c, s, i);
    }
  }

  lemma UploadingMeansAdded(c: Config, s: State)
    requires Inv(c, s)
    ensures s.uploading > 0 ==> s.added && !s.main.Starting?
  {
  }

  // ---------------------------------------------------------------- runs

  predicate ValidRun(c: Config, s: State, steps: seq<Step>)
    decreases |steps|
  {
    steps == [] || (Enabled(c, s, steps[0]) && ValidRun(c, Apply(c, s, steps[0]), steps[1..]))
  }

  function After(c: Config, s: State, steps: seq<Step>): State
    requires ValidRun(c, s, steps)
    decreases |steps|
  {
    if steps == [] then s else After(c, Apply(c, s, steps[0]), steps[1..])
  }

  lemma {:induction false} InvAlways(c: Config, s: State, steps: seq<Step>)
    requires Inv(c, s) && ValidRun(c, s, steps) && c.WindowsClosed()
    ensures Inv(c, After(c, s, steps))
    decreases |steps|
  {
    hide Inv, Enabled, Apply;
    if steps != [] {
      InvStep(c, s, steps[0]);
      InvAlways(c, Apply(c, s, steps[0]), steps[1..]);
    }
  }

  /** Under every interleaving, unless one of the two windows is open: the upload wait group counts what is left
      to wait for plus the threads between the compare-and-swap and Done, the other one is held by the first
      DoneRecvObj until its Done; and nothing is negative. */
  lemma Accounting(c: Config, steps: seq<Step>)
    requires ValidRun(c, INITIAL, steps) && c.WindowsClosed()
    ensures var s := After(c, INITIAL, steps);
            && (s.added ==> s.wgUpload == s.waitUploads + Count(Releasing, s.threads))
            && (!s.main.Starting? ==> s.wgRecv == if s.doneRecv then Count(ReleasingRecv, s.threads) else 1)
            && s.waitUploads >= 0 && s.wgUpload >= 0 && 0 <= s.wgRecv <= 1
    ensures Inv(c, After(c, INITIAL, steps))
  {
    InvAlways(c, INITIAL, steps);
  }

  predicate AllFinished(s: State) { forall i :: 0 <= i < |s.threads| ==> s.threads[i].pc.Finished? }

  // ---------------------------------------------------------------- who is let go, and who is not

  predicate Saw(t: Thread) { t.kind.Interrupt? && t.sawCount }

  predicate NobodySaw(ts: seq<Thread>) { forall i :: 0 <= i < |ts| ==> !Saw(ts[i]) }

  /** An interrupt that did not see the counter set takes nothing off it. */
  predicate Harmless(t: Thread) { t.kind.Interrupt? && !t.sawCount ==> t.pc.Check? || InDoneRecv(t.pc) }

  predicate AllHarmless(ts: seq<Thread>) { forall i :: 0 <= i < |ts| ==> Harmless(ts[i]) }

  /** As long as every interrupt came too soon, what is left to wait for is the uploads that have not ended or not
      been counted yet. */
  predicate TooSoon(s: State) {
    && AllHarmless(s.threads)
    && (s.added && NobodySaw(s.threads) ==> s.waitUploads == s.uploading + Count(Completing, s.threads))
  }

  lemma HarmlessRuns(s: State, t: Thread)
    requires Harmless(t) && ThreadOk(s, t) && !t.pc.Finished? && (!CountSet(s.main) ==> s.waitUploads == 0)
    ensures Harmless(Next(s, t)) && (Saw(t) ==> Saw(Next(s, t)))
  {
  }

  /** A thread that is counted is uncounted by the step that takes one off. */
  lemma OneLess(s: State, t: Thread, completing: nat)
    requires Harmless(t) && ThreadOk(s, t) && !t.pc.Finished? && CountSet(s.main)
    requires !Saw(Next(s, t)) && completing >= One(Completing, t) && s.waitUploads == s.uploading + completing
    ensures Effect(s, t).waitUploads == s.uploading + completing - One(Completing, t) + One(Completing, Next(s, t))
  {
  }

  lemma EffectKeeps(s: State, t: Thread)
    ensures Effect(s, t).added == s.added && Effect(s, t).uploading == s.uploading
  {
  }

  lemma TooSoonRun(c: Config, s: State, i: nat)
    requires Inv(c, s) && Enabled(c, s, Run(i)) && TooSoon(s)
    ensures TooSoon(RunThread(s, i))
  {
    var t := s.threads[i];
    var t' := Next(s, t);
    var ts' := s.threads[i := t'];
    assert ThreadOk(s, t) && Harmless(t);
    hide Count, ThreadOk, Next, Effect, Harmless;
    EffectKeeps(s, t);
    HarmlessRuns(s, t);
    CountUpdate(Completing, s.threads, i, t');
    if s.added && NobodySaw(ts') {
      assert NobodySaw(s.threads) by {
        forall j | 0 <= j < |s.threads| ensures !Saw(s.threads[j]) { assert !Saw(ts'[j]); }
      }
      assert !Saw(ts'[i]);
      CountAtLeast(Completing, s.threads, i);
      OneLess(s, t, Count(Completing, s.threads));
    }
  }

  lemma CountAtLeast(p: Thread -> bool, ts: seq<Thread>, i: nat)
    requires i < |ts|
    ensures Count(p, ts) >= One(p, ts[i])
  {
    CountZero(p, ts);
  }

  lemma TooSoonSpawn(s: State, t: Thread, ended: nat)
    requires TooSoon(s) && Starts(t) && !t.sawCount && s.uploading >= ended == (if t.kind.Upload? then 1 else 0)
    ensures TooSoon(Spawn(s.(uploading := s.uploading - ended), t))
  {
    hide Count;
    CountMore(Completing, s.threads, t);
    var ts' := s.threads + [t];
    if NobodySaw(ts') {
      forall j | 0 <= j < |s.threads| ensures !Saw(s.threads[j]) { assert !Saw(ts'[j]); }
    }
  }

  lemma TooSoonMain(c: Config, s: State)
    requires Inv(c, s) && TooSoon(s)
    ensures TooSoon(NextMain(c, s))
  {
    hide Count;
    CountZero(Completing, s.threads);
    if !s.added {
      forall i | 0 <= i < |s.threads| ensures !Completing(s.threads[i]) { assert ThreadOk(s, s.threads[i]); }
    }
  }

  lemma TooSoonStep(c: Config, s: State, step: Step)
    requires Inv(c, s) && TooSoon(s) && Enabled(c, s, step)
    ensures TooSoon(Apply(c, s, step))
  {
    hide Inv, NextMain, RunThread, Count;
    match step {
      case MainGoesOn => TooSoonMain(c, s);
      case MainFails =>
      case Interrupted(reason) => TooSoonSpawn(s, Thread(Interrupt, Some(reason), Check, false), 0);
      case UploadEnds(err) => TooSoonSpawn(s, Thread(Upload, err, SetErr, false), 1);
      case ObjReceived(err) => TooSoonSpawn(s, Thread(Recv, err, Swap, false), 0);
      case Run(i) => TooSoonRun(c, s, i);
    }
  }

  lemma {:induction false} TooSoonAlways(c: Config, s: State, steps: seq<Step>)
    requires Inv(c, s) && TooSoon(s) && ValidRun(c, s, steps) && c.WindowsClosed()
    ensures TooSoon(After(c, s, steps))
    decreases |steps|
  {
    hide Inv, TooSoon, Enabled, Apply;
    if steps != [] {
      InvStep(c, s, steps[0]);
      TooSoonStep(c, s, steps[0]);
      TooSoonAlways(c, Apply(c, s, steps[0]), steps[1..]);
    }
  }

  lemma AtFirst(c: Config)
    ensures Inv(c, INITIAL) && TooSoon(INITIAL)
  {
  }

  /** Once every thread has finished, and wgUpload.Add was called: nobody waits for uploads any more if and only if
      none is under way, or an interrupt saw their counter set. And nobody waits for the object if and only if
      there was any result or interrupt. */
  lemma AllReleased(c: Config, steps: seq<Step>)
    requires ValidRun(c, INITIAL, steps) && c.WindowsClosed()
    requires AllFinished(After(c, INITIAL, steps))
    ensures var s := After(c, INITIAL, steps);
            && (s.added ==> (s.wgUpload == 0 <==>
                  s.uploading == 0 || exists i :: 0 <= i < |s.threads| && Saw(s.threads[i])))
            && (!s.added ==> s.wgUpload == 0)
            && (!s.main.Starting? ==>
                  (s.wgRecv == 0 <==> exists i :: 0 <= i < |s.threads| && !s.threads[i].kind.Upload?))
  {
    hide Count, ThreadOk;
    Accounting(c, steps);
    AtFirst(c);
    TooSoonAlways(c, INITIAL, steps);
    var s := After(c, INITIAL, steps);
    WinnerAlways(c, INITIAL, steps);
    CountZero(Releasing, s.threads);
    CountZero(Completing, s.threads);
    CountZero(ReleasingRecv, s.threads);
    forall i | 0 <= i < |s.threads|
      ensures !s.threads[i].kind.Upload? ==> s.doneRecv && !s.main.Starting?
      ensures Saw(s.threads[i]) ==> s.waitUploads == 0
    {
      assert ThreadOk(s, s.threads[i]);
      FinishedThread(s, s.threads[i]);
    }
  }

  lemma FinishedThread(s: State, t: Thread)
    requires ThreadOk(s, t) && t.pc.Finished?
    ensures !s.main.Starting? && (!t.kind.Upload? ==> s.doneRecv)
    ensures t.kind.Interrupt? && t.sawCount ==> s.waitUploads == 0
  {
  }

  /** Only a result or an interrupt gets to DoneRecvObj. */
  lemma {:induction false} WinnerAlways(c: Config, s: State, steps: seq<Step>)
    requires Inv(c, s) && ValidRun(c, s, steps) && c.WindowsClosed()
    requires s.doneRecv ==> exists i :: 0 <= i < |s.threads| && !s.threads[i].kind.Upload?
    ensures var s' := After(c, s, steps);
            s'.doneRecv ==> exists i :: 0 <= i < |s'.threads| && !s'.threads[i].kind.Upload?
    decreases |steps|
  {
    if steps != [] {
      hide Inv;
      var s' := Apply(c, s, steps[0]);
      InvStep(c, s, steps[0]);
      WinnerStep(c, s, steps[0]);
      WinnerAlways(c, s', steps[1..]);
    }
  }

  lemma WinnerStep(c: Config, s: State, step: Step)
    requires Inv(c, s) && Enabled(c, s, step)
    requires s.doneRecv ==> exists i :: 0 <= i < |s.threads| && !s.threads[i].kind.Upload?
    ensures var s' := Apply(c, s, step);
            s'.doneRecv ==> exists i :: 0 <= i < |s'.threads| && !s'.threads[i].kind.Upload?
  {
    hide Count;
    var s' := Apply(c, s, step);
    if s.doneRecv {
      var i :| 0 <= i < |s.threads| && !s.threads[i].kind.Upload?;
      assert s'.threads[i].kind == s.threads[i].kind;
    } else if step.Run? {
      assert ThreadOk(s, s.threads[step.i]);
      assert s'.threads[step.i].kind == s.threads[step.i].kind;
    }
  }

  /** The first DoneRecvObj wins: the invocation returns without an error only after one that brought none, and
      with both waits over. */
  lemma FirstResultWins(c: Config, steps: seq<Step>)
    requires ValidRun(c, INITIAL, steps) && c.WindowsClosed() && After(c, INITIAL, steps).main == Returned(false)
    ensures var s := After(c, INITIAL, steps);
            s.winner == Some(None) && s.wgUpload == 0 && s.wgRecv == 0
  {
    Accounting(c, steps);
  }

  /** An error that is there when the uploads are over makes the invocation return at once, with or without a
      result; it never returns without an error then. */
  lemma {:induction false} UploadErrorFails(c: Config, s: State, steps: seq<Step>)
    requires ValidRun(c, s, steps) && s.err.Some? && !s.main.Returned?
    ensures After(c, s, steps).main != Returned(false)
    ensures s.main.Uploading? ==> !After(c, s, steps).main.Waiting?
    decreases |steps|
  {
    if steps != [] {
      var s' := Apply(c, s, steps[0]);
      if s'.main.Returned? {
        StaysReturned(c, s', steps[1..]);
      } else {
        UploadErrorFails(c, s', steps[1..]);
      }
    }
  }

  lemma {:induction false} StaysReturned(c: Config, s: State, steps: seq<Step>)
    requires ValidRun(c, s, steps) && s.main.Returned?
    ensures After(c, s, steps).main == s.main
    decreases |steps|
  {
    if steps != [] { StaysReturned(c, Apply(c, s, steps[0]), steps[1..]); }
  }

  /** An error stays, and so does the winner, whatever comes later, early interrupts or not. */
  lemma {:induction false} ErrorStays(c: Config, s: State, steps: seq<Step>)
    requires ValidRun(c, s, steps) && (s.doneRecv ==> s.winner.Some?)
    ensures s.err.Some? ==> After(c, s, steps).err.Some?
    ensures s.doneRecv ==> After(c, s, steps).winner == s.winner
    decreases |steps|
  {
    if steps != [] {
      var s' := Apply(c, s, steps[0]);
      assert (s.err.Some? ==> s'.err.Some?) && (s.doneRecv ==> s'.doneRecv && s'.winner == s.winner);
      assert s'.doneRecv ==> s'.winner.Some?;
      ErrorStays(c, s', steps[1..]);
    }
  }

  // ---------------------------------------------------------------- an error is recorded, and nobody invents one

  /** A thread past the assignment of its error. */
  predicate PastErr(t: Thread) {
    t.pc.Load? || t.pc.Cas? || t.pc.Release? || t.pc.ReleaseRecv? || (t.kind.Upload? && t.pc.Finished?)
  }

  predicate Recorded(s: State, t: Thread) {
    && (t.kind.Upload? ==> t.pc.SetErr? || t.pc.Load? || t.pc.Cas? || t.pc.Release? || t.pc.Finished?)
    && (t.kind.Recv? ==> InDoneRecv(t.pc))
    && (t.err.Some? && PastErr(t) ==> s.err.Some?)
  }

  predicate AllRecorded(s: State) { forall i :: 0 <= i < |s.threads| ==> Recorded(s, s.threads[i]) }

  predicate Somebodys(s: State) { s.err.Some? ==> exists i :: 0 <= i < |s.threads| && s.threads[i].err == s.err }

  const IsUpload := (t: Thread) => t.kind.Upload?

  /** Every file whose upload has ended has its thread. */
  predicate EveryFile(c: Config, s: State) {
    if s.added then Count(IsUpload, s.threads) + s.uploading == c.files
    else s.uploading == 0 && Count(IsUpload, s.threads) == 0
  }

  predicate Errors(c: Config, s: State) {
    && AllRecorded(s) && Somebodys(s) && EveryFile(c, s)
    && (s.main.Starting? || s.main.Collecting? || s.main.Counted? ==> !s.added)
  }

  lemma RecordedRuns(s: State, t: Thread, other: Thread)
    requires Recorded(s, t) && Recorded(s, other)
    ensures Recorded(Effect(s, t), Next(s, t)) && Recorded(Effect(s, t), other)
    ensures Next(s, t).err == t.err && Next(s, t).kind == t.kind
    ensures Effect(s, t).err == s.err || Effect(s, t).err == t.err
    ensures Effect(s, t).main == s.main && Effect(s, t).added == s.added && Effect(s, t).uploading == s.uploading
  {
  }

  lemma RecordedIn(s: State, s': State, t: Thread)
    requires Recorded(s, t) && s'.err == s.err
    ensures Recorded(s', t)
  {
  }

  lemma ErrorsRun(c: Config, s: State, i: nat)
    requires Errors(c, s) && i < |s.threads|
    ensures Errors(c, RunThread(s, i))
  {
    var t, s' := s.threads[i], RunThread(s, i);
    hide Count, Effect, Next, Recorded;
    CountUpdate(IsUpload, s.threads, i, Next(s, t));
    RecordedRuns(s, t, t);
    forall j | 0 <= j < |s'.threads| ensures Recorded(s', s'.threads[j]) && s'.threads[j].err == s.threads[j].err {
      RecordedRuns(s, t, s.threads[j]);
      RecordedIn(Effect(s, t), s', s'.threads[j]);
    }
    if s'.err.Some? && s'.err != t.err {
      var j :| 0 <= j < |s.threads| && s.threads[j].err == s.err;
      assert s'.threads[j].err == s'.err;
    }
  }

  lemma ErrorsSpawn(c: Config, s: State, t: Thread, ended: nat)
    requires Errors(c, s) && Starts(t) && s.uploading >= ended == (if t.kind.Upload? then 1 else 0)
    ensures Errors(c, Spawn(s.(uploading := s.uploading - ended), t))
  {
    hide Count;
    var s' := Spawn(s.(uploading := s.uploading - ended), t);
    CountMore(IsUpload, s.threads, t);
    if s.err.Some? {
      var j :| 0 <= j < |s.threads| && s.threads[j].err == s.err;
      assert s'.threads[j].err == s'.err;
    }
  }

  lemma ErrorsStep(c: Config, s: State, step: Step)
    requires Errors(c, s) && Enabled(c, s, step)
    ensures Errors(c, Apply(c, s, step))
  {
    hide RunThread, Count;
    match step {
      case MainGoesOn => ErrorsMain(c, s);
      case MainFails => ErrorsMain(c, s);
      case Interrupted(reason) => ErrorsSpawn(c, s, Thread(Interrupt, Some(reason), Check, false), 0);
      case UploadEnds(err) => ErrorsSpawn(c, s, Thread(Upload, err, SetErr, false), 1);
      case ObjReceived(err) => ErrorsSpawn(c, s, Thread(Recv, err, Swap, false), 0);
      case Run(i) => ErrorsRun(c, s, i);
    }
  }

  lemma ErrorsMain(c: Config, s: State)
    requires Errors(c, s)
    ensures Errors(c, NextMain(c, s)) && (s.main.Collecting? ==> Errors(c, s.(main := Returned(true))))
  {
    hide Count;
    assert forall i :: 0 <= i < |s.threads| ==> Recorded(NextMain(c, s), s.threads[i]);
  }

  lemma {:induction false} ErrorsAlways(c: Config, s: State, steps: seq<Step>)
    requires Errors(c, s) && ValidRun(c, s, steps)
    ensures Errors(c, After(c, s, steps))
    decreases |steps|
  {
    hide Errors, Enabled, Apply;
    if steps != [] {
      ErrorsStep(c, s, steps[0]);
      ErrorsAlways(c, Apply(c, s, steps[0]), steps[1..]);
    }
  }

  /** What an event of the run starts a thread with. */
  function Started(step: Step): seq<(Kind, Option<Reason>)> {
    match step
    case Interrupted(reason) => [(Interrupt, Some(reason))]
    case UploadEnds(err) => [(Upload, err)]
    case ObjReceived(err) => [(Recv, err)]
    case _ => []
  }

  function AllStarted(steps: seq<Step>): seq<(Kind, Option<Reason>)> {
    if steps == [] then [] else Started(steps[0]) + AllStarted(steps[1..])
  }

  function Brought(ts: seq<Thread>): (r: seq<(Kind, Option<Reason>)>)
    ensures |r| == |ts| && forall i :: 0 <= i < |ts| ==> r[i] == (ts[i].kind, ts[i].err)
  {
    seq(|ts|, i requires 0 <= i < |ts| => (ts[i].kind, ts[i].err))
  }

  /** The threads are those of the events, in order, and keep what they brought. */
  lemma {:induction false} ThreadsAreEvents(c: Config, s: State, steps: seq<Step>)
    requires ValidRun(c, s, steps)
    ensures Brought(After(c, s, steps).threads) == Brought(s.threads) + AllStarted(steps)
    decreases |steps|
  {
    if steps != [] {
      var s' := Apply(c, s, steps[0]);
      assert Brought(s'.threads) == Brought(s.threads) + Started(steps[0]);
      ThreadsAreEvents(c, s', steps[1..]);
      assert Brought(s.threads) + Started(steps[0]) + AllStarted(steps[1..])
          == Brought(s.threads) + (Started(steps[0]) + AllStarted(steps[1..]));
    }
  }

  lemma {:induction false} StartedBy(steps: seq<Step>, i: nat)
    requires i < |steps|
    ensures forall x :: x in Started(steps[i]) ==> x in AllStarted(steps)
    decreases |steps|
  {
    if i > 0 { StartedBy(steps[1..], i - 1); }
  }

  /** No error is lost: once every thread has finished, an invocation without one had no failed upload. */
  lemma NoErrorIsLost(c: Config, steps: seq<Step>, e: Reason)
    requires ValidRun(c, INITIAL, steps) && AllFinished(After(c, INITIAL, steps)) && UploadEnds(Some(e)) in steps
    ensures After(c, INITIAL, steps).err.Some?
  {
    hide ValidRun, After, INITIAL, AllStarted;
    var j := ThreadOf(c, steps, e);
    UploadErrorIsRecorded(c, steps);
  }

  lemma ThreadOf(c: Config, steps: seq<Step>, e: Reason) returns (j: nat)
    requires ValidRun(c, INITIAL, steps) && UploadEnds(Some(e)) in steps
    ensures var ts := After(c, INITIAL, steps).threads;
            j < |ts| && ts[j].kind.Upload? && ts[j].err == Some(e)
  {
    hide ValidRun, After, AllStarted, Brought, INITIAL;
    RunBrought(c, steps);
    UploadStarted(steps, e);
    j := BroughtBy(After(c, INITIAL, steps).threads, (Upload, Some(e)));
  }

  lemma RunBrought(c: Config, steps: seq<Step>)
    requires ValidRun(c, INITIAL, steps)
    ensures Brought(After(c, INITIAL, steps).threads) == AllStarted(steps)
  {
    hide ValidRun, After, AllStarted;
    ThreadsAreEvents(c, INITIAL, steps);
    assert Brought(INITIAL.threads) == [];
    assert [] + AllStarted(steps) == AllStarted(steps);
  }

  lemma UploadStarted(steps: seq<Step>, e: Reason)
    requires UploadEnds(Some(e)) in steps
    ensures (Upload, Some(e)) in AllStarted(steps)
  {
    hide AllStarted;
    var i :| 0 <= i < |steps| && steps[i] == UploadEnds(Some(e));
    StartedBy(steps, i);
    assert Started(steps[i]) == [(Upload, Some(e))];
  }

  lemma BroughtBy(ts: seq<Thread>, x: (Kind, Option<Reason>)) returns (j: nat)
    requires x in Brought(ts)
    ensures j < |ts| && ts[j].kind == x.0 && ts[j].err == x.1
  {
    j :| 0 <= j < |ts| && Brought(ts)[j] == x;
  }

  /** In every run: an upload that brought an error has left one once it is past the place where it does; and an error
      that is there was brought by somebody. */
  lemma UploadErrorIsRecorded(c: Config, steps: seq<Step>)
    requires ValidRun(c, INITIAL, steps)
    ensures var s := After(c, INITIAL, steps);
            && (forall i :: 0 <= i < |s.threads| && s.threads[i].kind.Upload? && !s.threads[i].pc.SetErr? ==>
                  s.threads[i].err.Some? ==> s.err.Some?)
            && (s.err.Some? ==> exists i :: 0 <= i < |s.threads| && s.threads[i].err == s.err)
  {
    ErrorsAlways(c, INITIAL, steps);
    var s := After(c, INITIAL, steps);
    assert forall i :: 0 <= i < |s.threads| ==> Recorded(s, s.threads[i]);
  }

  /** The moment at which the invocation goes on from its uploads to wait for the object. */
  predicate GoesOn(c: Config, s: State, step: Step) {
    step.MainGoesOn? && s.main.Uploading? && Enabled(c, s, step) && s.err.None?
  }

  /** No upload that counted brought an error; and unless an interrupt saw the counter, all files were uploaded. */
  predicate NoUploadFailed(c: Config, s: State) {
    && (forall i :: 0 <= i < |s.threads| && s.threads[i].kind.Upload? && s.threads[i].err.Some? ==>
          s.threads[i].pc.SetErr?)
    && (NobodySaw(s.threads) ==>
          && Count(IsUpload, s.threads) == c.files
          && forall i :: 0 <= i < |s.threads| && s.threads[i].kind.Upload? ==>
               s.threads[i].pc.Finished? && s.threads[i].err.None?)
  }

  lemma GoesOnUnharmed(c: Config, steps: seq<Step>)
    requires ValidRun(c, INITIAL, steps) && c.WindowsClosed() && GoesOn(c, After(c, INITIAL, steps), MainGoesOn)
    ensures NoUploadFailed(c, After(c, INITIAL, steps))
  {
    var s := After(c, INITIAL, steps);
    UploadErrorIsRecorded(c, steps);
    ErrorsAlways(c, INITIAL, steps);
    Accounting(c, steps);
    AtFirst(c);
    TooSoonAlways(c, INITIAL, steps);
    hide Count, After, ValidRun;
    CountZero(Releasing, s.threads);
    CountZero(Completing, s.threads);
    forall i | 0 <= i < |s.threads| && s.threads[i].kind.Upload? && NobodySaw(s.threads)
      ensures s.threads[i].pc.Finished?
    {
      assert ThreadOk(s, s.threads[i]) && !Releasing(s.threads[i]) && !Completing(s.threads[i]);
    }
  }

  /** So an invocation that waits for its object, or returned without an error, went on from uploads of which none
      that counted had failed. */
  lemma {:induction false} CleanUploads(c: Config, s: State, before: seq<Step>, steps: seq<Step>)
    requires ValidRun(c, INITIAL, before) && After(c, INITIAL, before) == s && c.WindowsClosed()
    requires ValidRun(c, s, steps) && !s.main.Waiting? && !s.main.Returned?
    requires After(c, s, steps).main.Waiting? || After(c, s, steps).main == Returned(false)
    ensures exists k :: 0 <= k < |before + steps| && ValidRun(c, INITIAL, (before + steps)[..k])
              && var at := After(c, INITIAL, (before + steps)[..k]);
                 GoesOn(c, at, (before + steps)[k]) && NoUploadFailed(c, at)
    decreases |steps|
  {
    var step, s' := steps[0], Apply(c, s, steps[0]);
    var all := before + steps;
    assert all[..|before|] == before && all[|before|] == step;
    if GoesOn(c, s, step) {
      GoesOnUnharmed(c, before);
    } else {
      if s'.main.Returned? { StaysReturned(c, s', steps[1..]); }
      Extend(c, before, step);
      assert (before + [step]) + steps[1..] == all;
      CleanUploads(c, s', before + [step], steps[1..]);
    }
  }

  // ---------------------------------------------------------------- why the Adds must come first

  /** Go panics: a wait group was released more often than added to. */
  predicate Negative(s: State) { s.wgUpload < 0 || s.wgRecv < 0 }

  ghost predicate CanGoNegative(c: Config) {
    exists steps :: ValidRun(c, INITIAL, steps) && Negative(After(c, INITIAL, steps))
  }

  lemma Extend(c: Config, steps: seq<Step>, step: Step)
    requires ValidRun(c, INITIAL, steps) && Enabled(c, After(c, INITIAL, steps), step)
    ensures ValidRun(c, INITIAL, steps + [step])
    ensures After(c, INITIAL, steps + [step]) == Apply(c, After(c, INITIAL, steps), step)
  {
    ExtendFrom(c, INITIAL, steps, step);
  }

  lemma {:induction false} ExtendFrom(c: Config, s: State, steps: seq<Step>, step: Step)
    requires ValidRun(c, s, steps) && Enabled(c, After(c, s, steps), step)
    ensures ValidRun(c, s, steps + [step]) && After(c, s, steps + [step]) == Apply(c, After(c, s, steps), step)
    decreases |steps|
  {
    hide Enabled, Apply;
    if steps == [] {
      assert [step][1..] == [];
    } else {
      assert (steps + [step])[1..] == steps[1..] + [step];
      ExtendFrom(c, Apply(c, s, steps[0]), steps[1..], step);
    }
  }

  lemma Nothing(c: Config)
    ensures ValidRun(c, INITIAL, []) && After(c, INITIAL, []) == INITIAL
  {
  }

  /** An interrupt alone, through ForceInterrupt without an upload to wait for. */
  function Interrupting(k: nat, saw: bool): Thread {
    Thread(Interrupt, Some(1), if k == 0 then Check else if k == 1 then Swap else if k == 2 then SetRecvErr
                               else if k == 3 then ReleaseRecv else Finished, k > 0 && saw)
  }

  function InterruptedAt(s: State, k: nat): State {
    s.(threads := [Interrupting(k, CountSet(s.main))], doneRecv := k >= 2,
       winner := if k >= 2 then Some(Some(1)) else None,
       err := if k >= 3 then Some(1) else None, wgRecv := if k >= 4 then s.wgRecv - 1 else s.wgRecv)
  }

  /** It runs to its end, and says Done on wgRecv. */
  lemma InterruptAlone(c: Config, s: State, before: seq<Step>) returns (steps: seq<Step>)
    requires ValidRun(c, INITIAL, before) && After(c, INITIAL, before) == s
    requires s.threads == [] && s.waitUploads == 0 && !s.doneRecv && s.winner.None? && s.err.None?
    requires Enabled(c, s, Interrupted(1))
    ensures ValidRun(c, INITIAL, steps) && After(c, INITIAL, steps) == InterruptedAt(s, 4)
  {
    hide ValidRun, After;
    Extend(c, before, Interrupted(1));
    steps := before + [Interrupted(1)];
    for k := 0 to 4
      invariant ValidRun(c, INITIAL, steps)
      invariant After(c, INITIAL, steps) == InterruptedAt(s, k)
    {
      Extend(c, steps, Run(0));
      steps := steps + [Run(0)];
    }
  }

  /** An interrupt before wgRecv.Add. */
  lemma InterruptBeforeRecvAdd(c: Config) returns (steps: seq<Step>)
    requires c.interruptBeforeRecvAdd
    ensures ValidRun(c, INITIAL, steps) && After(c, INITIAL, steps).wgRecv == -1
  {
    Nothing(c);
    steps := InterruptAlone(c, INITIAL, []);
  }

  /** One that comes while dependencies are collected lets nobody wait for the object, and makes the invocation
      fail; but not before all its uploads are over: it came too soon to release them. */
  lemma InterruptTooSoon(c: Config) returns (steps: seq<Step>)
    requires c.WindowsClosed()
    ensures ValidRun(c, INITIAL, steps)
    ensures var s := After(c, INITIAL, steps);
            AllFinished(s) && s.main.Uploading? && s.doneRecv && s.err.Some? && s.wgUpload == c.files == s.uploading
  {
    hide ValidRun, After;
    Nothing(c);
    Extend(c, [], MainGoesOn);
    var collecting := After(c, INITIAL, [] + [MainGoesOn]);
    var before := InterruptAlone(c, collecting, [] + [MainGoesOn]);
    Extend(c, before, MainGoesOn);
    Extend(c, before + [MainGoesOn], MainGoesOn);
    steps := before + [MainGoesOn] + [MainGoesOn];
  }

  /** An interrupt between the upload counter and wgUpload.Add. */
  lemma InterruptBeforeUploadAdd(c: Config) returns (steps: seq<Step>)
    requires c.casBeforeUploadAdd && c.files > 0
    ensures ValidRun(c, INITIAL, steps) && After(c, INITIAL, steps).wgUpload == -1
  {
    hide ValidRun, After;
    Nothing(c);
    Extend(c, [], MainGoesOn);
    Extend(c, [] + [MainGoesOn], MainGoesOn);
    Extend(c, [] + [MainGoesOn] + [MainGoesOn], Interrupted(1));
    steps := [] + [MainGoesOn] + [MainGoesOn] + [Interrupted(1)];
    for k := 0 to 5
      invariant ValidRun(c, INITIAL, steps)
      invariant After(c, INITIAL, steps) == CountedState(c, k)
    {
      Extend(c, steps, Run(0));
      steps := steps + [Run(0)];
    }
  }

  function CountedState(c: Config, k: nat): State {
    var t := Thread(Interrupt, Some(1), if k == 0 then Check else if k == 1 then SetErr else if k == 2 then Load
                                        else if k == 3 then Cas(c.files) else if k == 4 then Release else Check, k > 0);
    INITIAL.(main := Counted, wgRecv := 1, threads := [t], err := if k >= 2 then Some(1) else None,
             waitUploads := if k >= 4 then c.files - 1 else c.files, wgUpload := if k >= 5 then -1 else 0)
  }

  /** Each of the two windows is enough, and nothing else is: a wait group can go below zero exactly if an interrupt
      may come before wgRecv.Add, or, with a file to upload, a compare-and-swap before wgUpload.Add. */
  lemma GoesNegativeExactlyWhen(c: Config)
    ensures CanGoNegative(c) <==> c.interruptBeforeRecvAdd || (c.casBeforeUploadAdd && c.files > 0)
  {
    hide Inv, INITIAL;
    if c.interruptBeforeRecvAdd {
      var steps := InterruptBeforeRecvAdd(c);
      assert Negative(After(c, INITIAL, steps));
    } else if c.casBeforeUploadAdd && c.files > 0 {
      var steps := InterruptBeforeUploadAdd(c);
      assert Negative(After(c, INITIAL, steps));
    } else {
      forall steps | ValidRun(c, INITIAL, steps) ensures !Negative(After(c, INITIAL, steps)) { Accounting(c, steps); }
    }
  }
}
