/** The concurrent create protocol of the mock client: N worker goroutines, one
    receiver goroutine that reads an unbuffered error channel once, a cancellable
    context with a deadline, and a main goroutine waiting on a WaitGroup.

    Every event below is one atomic action of one goroutine (or of the deadline
    timer); a run is any sequence of enabled events, so every interleaving is covered. */
module CreateProtocol {
  import opened Counting

  /** What one Create call of the clientset returned.  CancelFailure is an error
      caused by the shared context being done, OwnFailure is any other error.  Existed
      is the branch for a storage error that says the key exists; a REST client reports
      API status errors instead, so it is kept for the code's sake and never needed. */
  datatype Outcome = Created | Existed | OwnFailure | CancelFailure {
    predicate Fails() { OwnFailure? || CancelFailure? }
  }

  datatype Worker =
    | Unspawned
    | InFlight                       // Create has not returned yet
    | Sending(outcome: Outcome)      // blocked at errChan <- err
    | Returning(outcome: Outcome)    // past the send (or never sent), deferred Done pending
    | Done(outcome: Outcome)

  datatype Receiver = Waiting | Received | Exited

  datatype Main = Spawning(next: nat, added: bool) | AtWait | Returned

  /** err is the variable returned at the end: true would mean a non-nil error.  No event
      sets it, because the goroutines assign only to variables of their own that shadow
      it; that it stays nil is thus read off the code, not a consequence of the schedule. */
  datatype State = State(
    workers: seq<Worker>, counter: int, receiver: Receiver, main: Main,
    cancelled: bool, timedOut: bool, sends: nat, err: bool)

  datatype Event =
    | Add | Go | LoopEnd | WaitReturns                       // main
    | CreateReturns(i: nat, o: Outcome) | WgDone(i: nat)     // worker i
    | Send(i: nat)                                           // worker i together with the receiver
    | Cancel                                                 // receiver
    | Deadline                                               // the context's timer

  function Init(n: nat): State {
    State(seq(n, _ => Unspawned), 0, Waiting, Spawning(0, false), false, false, 0, false)
  }

  predicate Enabled(s: State, e: Event) {
    match e
    case Add => s.main.Spawning? && !s.main.added && s.main.next < |s.workers|
    case Go => s.main.Spawning? && s.main.added && s.main.next < |s.workers|
    case LoopEnd => s.main.Spawning? && !s.main.added && s.main.next >= |s.workers|
    case WaitReturns => s.main.AtWait? && s.counter == 0
    case CreateReturns(i, o) => i < |s.workers| && s.workers[i].InFlight? && (o.CancelFailure? ==> s.cancelled)
    case WgDone(i) => i < |s.workers| && s.workers[i].Returning?
    case Send(i) => i < |s.workers| && s.workers[i].Sending? && s.receiver.Waiting?
    case Cancel => s.receiver.Received?
    case Deadline => !s.cancelled
  }

  function Apply(s: State, e: Event): State
    requires Enabled(s, e)
  {
    match e
    case Add => s.(counter := s.counter + 1, main := Spawning(s.main.next, true))
    case Go => s.(workers := s.workers[s.main.next := InFlight], main := Spawning(s.main.next + 1, false))
    case LoopEnd => s.(main := AtWait)
    case WaitReturns => s.(main := Returned, cancelled := true)
    case CreateReturns(i, o) => s.(workers := s.workers[i := if o.Fails() then Sending(o) else Returning(o)])
    case WgDone(i) => s.(workers := s.workers[i := Done(s.workers[i].outcome)], counter := s.counter - 1)
    case Send(i) => s.(workers := s.workers[i := Returning(s.workers[i].outcome)],
                       receiver := Received, sends := s.sends + 1)
    case Cancel => s.(receiver := Exited, cancelled := true)
    case Deadline => s.(cancelled := true, timedOut := true)
  }

  // ---------- counting goroutines ----------

  function ActiveWeight(w: Worker): nat { if w.InFlight? || w.Sending? || w.Returning? then 1 else 0 }

  function SentWeight(w: Worker): nat { if (w.Returning? || w.Done?) && w.outcome.Fails() then 1 else 0 }

  function FailedWeight(w: Worker): nat { if w.Sending? || SentWeight(w) == 1 then 1 else 0 }

  /** Number of workers whose Create returned a failure. */
  function Failures(s: State): nat { Total(s.workers, FailedWeight) }

  /** Where main is and which workers exist; only failures are ever sent. */
  ghost predicate Shape(s: State, n: nat) {
    && |s.workers| == n
    && (s.main.Spawning? ==>
          && s.main.next <= n
          && (s.main.added ==> s.main.next < n))
    && (forall i :: 0 <= i < n ==> (s.workers[i].Unspawned? <==> s.main.Spawning? && s.main.next <= i))
    && (forall i :: 0 <= i < n && s.workers[i].Sending? ==> s.workers[i].outcome.Fails())
  }

  ghost predicate Accounts(s: State) {
    // the WaitGroup counter is exactly the work added and not done
    && s.counter == Total(s.workers, ActiveWeight) + (if s.main.Spawning? && s.main.added then 1 else 0)
    // completed sends are exactly the receiver's progress
    && s.sends == Total(s.workers, SentWeight)
    && s.sends == (if s.receiver.Waiting? then 0 else 1)
    && (s.cancelled <==> s.timedOut || s.receiver.Exited? || s.main.Returned?)
    && (s.main.Returned? ==> s.counter == 0)
    && !s.err
  }

  ghost predicate Inv(s: State, n: nat) { Shape(s, n) && Accounts(s) }

  lemma InitInv(n: nat)
    ensures Inv(Init(n), n)
  {
    TotalConstant(Init(n).workers, ActiveWeight, 0);
    TotalConstant(Init(n).workers, SentWeight, 0);
  }

  /** Every step of the protocol keeps the invariant. */
  lemma StepInv(s: State, e: Event, n: nat)
    requires Inv(s, n) && Enabled(s, e)
    ensures Inv(Apply(s, e), n)
  {
    StepShape(s, e, n);
    StepAccounts(s, e, n);
  }

  lemma StepShape(s: State, e: Event, n: nat)
    requires Shape(s, n) && Enabled(s, e)
    ensures Shape(Apply(s, e), n)
  {
  }

  lemma StepAccounts(s: State, e: Event, n: nat)
    requires Shape(s, n) && Accounts(s) && Enabled(s, e)
    ensures Accounts(Apply(s, e))
  {
    match e
    case Add => AddAccounts(s);
    case Go => GoAccounts(s, n);
    case CreateReturns(i, o) => CreateAccounts(s, i, o);
    case WgDone(i) => DoneAccounts(s, i);
    case Send(i) => SendAccounts(s, i);
    case WaitReturns | LoopEnd | Cancel | Deadline => ControlAccounts(s, e);
  }

  lemma AddAccounts(s: State)
    requires Accounts(s) && Enabled(s, Add)
    ensures Accounts(Apply(s, Add))
  {
  }

  lemma GoAccounts(s: State, n: nat)
    requires Shape(s, n) && Accounts(s) && Enabled(s, Go)
    ensures Accounts(Apply(s, Go))
  {
    WorkerChange(s, s.main.next, InFlight);
  }

  lemma CreateAccounts(s: State, i: nat, o: Outcome)
    requires Accounts(s) && Enabled(s, CreateReturns(i, o))
    ensures Accounts(Apply(s, CreateReturns(i, o)))
  {
    WorkerChange(s, i, if o.Fails() then Sending(o) else Returning(o));
    TotalIncludes(s.workers, i, ActiveWeight);
  }

  lemma DoneAccounts(s: State, i: nat)
    requires Accounts(s) && Enabled(s, WgDone(i))
    ensures Accounts(Apply(s, WgDone(i)))
  {
    WorkerChange(s, i, Done(s.workers[i].outcome));
    TotalIncludes(s.workers, i, ActiveWeight);
  }

  lemma SendAccounts(s: State, i: nat)
    requires Accounts(s) && Enabled(s, Send(i)) && s.workers[i].outcome.Fails()
    ensures Accounts(Apply(s, Send(i)))
  {
    WorkerChange(s, i, Returning(s.workers[i].outcome));
    TotalIncludes(s.workers, i, ActiveWeight);
  }

  /** Events that touch no worker. */
  lemma ControlAccounts(s: State, e: Event)
    requires Accounts(s) && Enabled(s, e) && (e.WaitReturns? || e.LoopEnd? || e.Cancel? || e.Deadline?)
    ensures Accounts(Apply(s, e))
  {
  }

  /** The total of f after worker i became w. */
  ghost predicate Moved(ws: seq<Worker>, i: nat, w: Worker, f: Worker -> nat)
    requires i < |ws|
  {
    Total(ws[i := w], f) + f(ws[i]) == Total(ws, f) + f(w)
  }

  lemma WorkerChange(s: State, i: nat, w: Worker)
    requires i < |s.workers|
    ensures Moved(s.workers, i, w, ActiveWeight) && Moved(s.workers, i, w, SentWeight)
    ensures Moved(s.workers, i, w, FailedWeight) && Moved(s.workers, i, w, WorkerWork)
  {
    TotalUpdate(s.workers, i, w, ActiveWeight);
    TotalUpdate(s.workers, i, w, SentWeight);
    TotalUpdate(s.workers, i, w, FailedWeight);
    TotalUpdate(s.workers, i, w, WorkerWork);
  }

  // ---------- progress ----------

  function WorkerWork(w: Worker): nat {
    match w
    case Unspawned => 3
    case InFlight => 3
    case Sending(_) => 2
    case Returning(_) => 1
    case Done(_) => 0
  }

  function MainWork(s: State): nat {
    match s.main
    case Spawning(k, added) => if k <= |s.workers| then 2 * (|s.workers| - k) + 3 - (if added then 1 else 0) else 2
    case AtWait => 1
    case Returned => 0
  }

  /** Steps the protocol can still take; every event uses up at least one. */
  function Work(s: State): nat {
    Total(s.workers, WorkerWork) + MainWork(s)
    + (match s.receiver case Waiting => 2 case Received => 1 case Exited => 0)
    + (if s.cancelled then 0 else 1)
  }

  lemma StepWorks(s: State, e: Event, n: nat)
    requires Inv(s, n) && Enabled(s, e)
    ensures Work(Apply(s, e)) < Work(s)
  {
    match e
    case Go => WorkerChange(s, s.main.next, InFlight);
    case CreateReturns(_, _) | WgDone(_) | Send(_) => WorkerWorks(s, e);
    case Add | LoopEnd | WaitReturns | Cancel | Deadline => ControlWorks(s, e, n);
  }

  lemma WorkerWorks(s: State, e: Event)
    requires Enabled(s, e) && (e.CreateReturns? || e.WgDone? || e.Send?)
    ensures Work(Apply(s, e)) < Work(s)
  {
    match e
    case CreateReturns(i, o) => WorkerChange(s, i, if o.Fails() then Sending(o) else Returning(o));
    case WgDone(i) => WorkerChange(s, i, Done(s.workers[i].outcome));
    case Send(i) => WorkerChange(s, i, Returning(s.workers[i].outcome));
  }

  lemma ControlWorks(s: State, e: Event, n: nat)
    requires Shape(s, n) && Enabled(s, e)
    requires e.Add? || e.LoopEnd? || e.WaitReturns? || e.Cancel? || e.Deadline?
    ensures Work(Apply(s, e)) < Work(s)
  {
  }

  /** No goroutine can move; at most the deadline timer is left to fire. */
  ghost predicate Quiescent(s: State) {
    forall e :: Enabled(s, e) ==> e.Deadline?
  }

  /** The deadlock: main waits for workers that block on a channel nobody reads any more. */
  ghost predicate Deadlocked(s: State) {
    && s.main.AtWait?
    && s.receiver.Exited?
    && (forall i :: 0 <= i < |s.workers| ==> s.workers[i].Done? || s.workers[i].Sending?)
    && (exists i :: 0 <= i < |s.workers| && s.workers[i].Sending?)
  }

  /** doCreate returned with every worker done, at most one of them failed. */
  ghost predicate ReturnedSafely(s: State) {
    && s.main.Returned?
    && !s.err
    && (forall i :: 0 <= i < |s.workers| ==> s.workers[i].Done?)
    && (forall i, j :: 0 <= i < j < |s.workers| ==>
          !(s.workers[i].outcome.Fails() && s.workers[j].outcome.Fails()))
    && Failures(s) <= 1
    // with no failure the receiver goroutine is still blocked on the channel
    && (s.receiver.Waiting? <==> Failures(s) == 0)
  }

  lemma {:induction false} FailuresAreSentOrSending(ws: seq<Worker>)
    ensures Total(ws, FailedWeight) >= Total(ws, SentWeight)
    ensures (forall i :: 0 <= i < |ws| ==> !ws[i].Sending?) ==> Total(ws, FailedWeight) == Total(ws, SentWeight)
    ensures (exists i :: 0 <= i < |ws| && ws[i].Sending?) ==> Total(ws, FailedWeight) > Total(ws, SentWeight)
  {
    if |ws| > 0 {
      FailuresAreSentOrSending(ws[1..]);
      assert forall i :: 0 < i < |ws| ==> ws[i] == ws[1..][i - 1];
      assert forall i :: 0 <= i < |ws[1..]| ==> ws[1..][i] == ws[i + 1];
    }
  }

  lemma ReturnIsSafe(s: State, n: nat)
    requires Inv(s, n) && s.main.Returned?
    ensures ReturnedSafely(s)
  {
    TotalZero(s.workers, ActiveWeight);
    assert forall i :: 0 <= i < n ==> ActiveWeight(s.workers[i]) == 0;
    FailuresAreSentOrSending(s.workers);
    forall i, j | 0 <= i < j < n && s.workers[i].outcome.Fails() && s.workers[j].outcome.Fails()
      ensures false
    {
      TotalIncludesBoth(s.workers, i, j, FailedWeight);
    }
  }

  /** Where a run can come to rest: it has returned exactly when at most one
      create failed, and otherwise it is deadlocked. */
  lemma RestIsReturnOrDeadlock(s: State, n: nat)
    requires Inv(s, n) && Quiescent(s)
    ensures s.main.Returned? <==> Failures(s) <= 1
    ensures Deadlocked(s) <==> Failures(s) >= 2
  {
    if s.main.Returned? {
      ReturnIsSafe(s, n);
    } else {
      assert !Enabled(s, Add) && !Enabled(s, Go) && !Enabled(s, LoopEnd) && !Enabled(s, WaitReturns);
      assert s.main.AtWait? && s.counter > 0;
      forall i | 0 <= i < n ensures s.workers[i].Done? || s.workers[i].Sending? {
        assert !Enabled(s, CreateReturns(i, Created));
        assert !Enabled(s, WgDone(i));
      }
      TotalZero(s.workers, ActiveWeight);
      var i :| 0 <= i < n && ActiveWeight(s.workers[i]) != 0;
      assert s.workers[i].Sending?;
      assert !Enabled(s, Send(i)) && !Enabled(s, Cancel);
      FailuresAreSentOrSending(s.workers);
    }
  }

  /** A deadlocked state really is one: only the timer can still move. */
  lemma DeadlockIsRest(s: State, n: nat)
    requires Inv(s, n) && Deadlocked(s)
    ensures Quiescent(s)
  {
    var i :| 0 <= i < n && s.workers[i].Sending?;
    TotalIncludes(s.workers, i, ActiveWeight);
  }

  // ---------- whole runs ----------

  predicate IsRun(s: State, es: seq<Event>)
    decreases |es|
  {
    |es| == 0 || (Enabled(s, es[0]) && IsRun(Apply(s, es[0]), es[1..]))
  }

  function Exec(s: State, es: seq<Event>): State
    requires IsRun(s, es)
    decreases |es|
  {
    if |es| == 0 then s else Exec(Apply(s, es[0]), es[1..])
  }

  lemma {:induction false} RunInv(s: State, es: seq<Event>, n: nat)
    requires Inv(s, n) && IsRun(s, es)
    ensures Inv(Exec(s, es), n)
    ensures |es| + Work(Exec(s, es)) <= Work(s)
    ensures Failures(s) <= Failures(Exec(s, es))
    decreases |es|
  {
    if |es| > 0 {
      StepInv(s, es[0], n);
      StepWorks(s, es[0], n);
      FailuresGrow(s, es[0]);
      RunInv(Apply(s, es[0]), es[1..], n);
    }
  }

  lemma FailuresGrow(s: State, e: Event)
    requires Enabled(s, e)
    requires forall i :: 0 <= i < |s.workers| && s.workers[i].Sending? ==> s.workers[i].outcome.Fails()
    requires e.Go? ==> s.workers[s.main.next].Unspawned?
    ensures Failures(s) <= Failures(Apply(s, e))
  {
    match e
    case Go => WorkerChange(s, s.main.next, InFlight);
    case CreateReturns(i, o) => WorkerChange(s, i, if o.Fails() then Sending(o) else Returning(o));
    case WgDone(i) => WorkerChange(s, i, Done(s.workers[i].outcome));
    case Send(i) => WorkerChange(s, i, Returning(s.workers[i].outcome));
    case _ =>
  }

  lemma {:induction false} RunAppend(s: State, es: seq<Event>, more: seq<Event>)
    ensures IsRun(s, es + more) <==> IsRun(s, es) && IsRun(Exec(s, es), more)
    ensures IsRun(s, es + more) ==> Exec(s, es + more) == Exec(Exec(s, es), more)
    decreases |es|
  {
    if |es| == 0 {
      assert es + more == more;
    } else {
      assert (es + more)[0] == es[0] && (es + more)[1..] == es[1..] + more;
      if Enabled(s, es[0]) {
        RunAppend(Apply(s, es[0]), es[1..], more);
      }
    }
  }

  /** Exact termination.  Under every schedule doCreate comes to rest within 5n+6
      events; a run at rest has returned iff at most one create failed, is
      deadlocked iff two or more did; and a run that returned, returned safely. */
  lemma EveryRun(n: nat, es: seq<Event>)
    requires IsRun(Init(n), es)
    ensures var s := Exec(Init(n), es);
            && |es| <= 5 * n + 6
            && s.counter >= 0 && s.sends <= 1
            && (s.receiver.Exited? ==> Failures(s) >= 1)
            && (s.main.Returned? ==> ReturnedSafely(s))
            && (Deadlocked(s) ==> Quiescent(s))
            && (Quiescent(s) ==> (s.main.Returned? <==> Failures(s) <= 1) && (Deadlocked(s) <==> Failures(s) >= 2))
  {
    var s := Exec(Init(n), es);
    InitInv(n);
    TotalConstant(Init(n).workers, WorkerWork, 3);
    RunInv(Init(n), es, n);
    FailuresAreSentOrSending(s.workers);
    if s.main.Returned? { ReturnIsSafe(s, n); }
    if Deadlocked(s) { DeadlockIsRest(s, n); }
    if Quiescent(s) { RestIsReturnOrDeadlock(s, n); }
  }

  /** Once two creates have failed, no continuation ever returns. */
  lemma TwoFailuresNeverReturn(n: nat, es: seq<Event>, more: seq<Event>)
    requires IsRun(Init(n), es) && IsRun(Exec(Init(n), es), more)
    requires Failures(Exec(Init(n), es)) >= 2
    ensures !Exec(Exec(Init(n), es), more).main.Returned?
  {
    InitInv(n);
    RunInv(Init(n), es, n);
    var s := Exec(Init(n), es);
    RunInv(s, more, n);
    if Exec(s, more).main.Returned? {
      ReturnIsSafe(Exec(s, more), n);
    }
  }

  /** An event that is neither the timer nor a create failing on its own. */
  predicate Benign(e: Event) {
    !e.Deadline? && !(e.CreateReturns? && e.o.OwnFailure?)
  }

  /** Every run can be continued to a resting state by benign events alone. */
  lemma Completion(s: State, n: nat) returns (es: seq<Event>)
    requires Inv(s, n)
    ensures IsRun(s, es) && Quiescent(Exec(s, es))
    ensures forall e :: e in es ==> Benign(e)
    decreases Work(s)
  {
    if Quiescent(s) {
      es := [];
    } else {
      var e :| Enabled(s, e) && !e.Deadline?;
      if e.CreateReturns? { e := CreateReturns(e.i, Created); }
      StepInv(s, e, n);
      StepWorks(s, e, n);
      var rest := Completion(Apply(s, e), n);
      es := [e] + rest;
      assert es[1..] == rest;
    }
  }

  /** Whenever the receiver's cancel happens while a create is still in flight, the
      run can be continued into the deadlock without any further failure of its own. */
  lemma CancelCanDeadlock(n: nat, s: State, i: nat) returns (es: seq<Event>)
    requires Inv(s, n) && s.receiver.Exited? && i < n && s.workers[i].InFlight?
    ensures IsRun(s, es) && Deadlocked(Exec(s, es))
    ensures forall e :: e in es ==> Benign(e)
  {
    var e := CreateReturns(i, CancelFailure);
    var t := Apply(s, e);
    StepInv(s, e, n);
    FailuresAreSentOrSending(t.workers);
    assert t.workers[i].Sending?;
    var rest := Completion(t, n);
    RunInv(t, rest, n);
    RestIsReturnOrDeadlock(Exec(t, rest), n);
    es := [e] + rest;
    assert es[1..] == rest;
  }

  /** Extends a run by one event. */
  lemma Extend(s: State, es: seq<Event>, e: Event) returns (fs: seq<Event>)
    requires IsRun(s, es) && Enabled(Exec(s, es), e)
    ensures fs == es + [e] && IsRun(s, fs) && Exec(s, fs) == Apply(Exec(s, es), e)
  {
    fs := es + [e];
    RunAppend(s, es, [e]);
    assert [e][1..] == [];
  }

  /** The spawning loop run on its own for k iterations. */
  lemma {:induction false} SpawnFirst(n: nat, k: nat) returns (es: seq<Event>)
    requires k <= n
    ensures IsRun(Init(n), es)
    ensures Exec(Init(n), es) ==
              Init(n).(workers := seq(n, i => if i < k then InFlight else Unspawned),
                       counter := k, main := Spawning(k, false))
    ensures forall e :: e in es ==> e.Add? || e.Go?
  {
    if k == 0 {
      es := [];
      assert Init(n).workers == seq(n, i => if i < 0 then InFlight else Unspawned);
    } else {
      es := SpawnFirst(n, k - 1);
      es := Extend(Init(n), es, Add);
      es := Extend(Init(n), es, Go);
      assert seq(n, i => if i < k - 1 then InFlight else Unspawned)[k - 1 := InFlight]
          == seq(n, i => if i < k then InFlight else Unspawned);
    }
  }

  /** The first create fails on its own and is received and answered by a cancel. */
  lemma OwnFailureAnswered(n: nat) returns (es: seq<Event>)
    requires n >= 2
    ensures IsRun(Init(n), es)
    ensures Exec(Init(n), es).receiver.Exited? && |Exec(Init(n), es).workers| == n
    ensures Exec(Init(n), es).workers[1].InFlight?
    ensures Deadline !in es
    ensures forall i :: CreateReturns(i, OwnFailure) in es ==> i == 0
  {
    es := SpawnFirst(n, n);
    es := Extend(Init(n), es, LoopEnd);
    es := Extend(Init(n), es, CreateReturns(0, OwnFailure));
    es := Extend(Init(n), es, Send(0));
    es := Extend(Init(n), es, Cancel);
  }

  /** With two or more workers a single create failing on its own can hang doCreate
      for ever, although no deadline fires: the cancel that answers the failure makes
      another create fail, and nobody reads the channel a second time. */
  lemma OneOwnFailureCanDeadlock(n: nat) returns (es: seq<Event>)
    requires n >= 2
    ensures IsRun(Init(n), es) && Deadlocked(Exec(Init(n), es))
    ensures Deadline !in es
    ensures forall i :: CreateReturns(i, OwnFailure) in es ==> i == 0
  {
    es := OwnFailureAnswered(n);
    var s := Exec(Init(n), es);
    InitInv(n);
    RunInv(Init(n), es, n);
    var rest := CancelCanDeadlock(n, s, 1);
    RunAppend(Init(n), es, rest);
    es := es + rest;
  }

  // ---------- what the environment must grant ----------

  /** What may go wrong outside: creates failing by themselves, and the deadline. */
  datatype Faults = Faults(own: bool, deadline: bool) {
    predicate Allows(e: Event) {
      && (e.Deadline? ==> deadline)
      && (e.CreateReturns? && e.o.OwnFailure? ==> own)
    }
  }

  /** Under these faults every run of n workers that comes to rest has returned. */
  ghost predicate AlwaysReturns(n: nat, faults: Faults) {
    forall es :: IsRun(Init(n), es) && (forall e :: e in es ==> faults.Allows(e)) && Quiescent(Exec(Init(n), es))
      ==> Exec(Init(n), es).main.Returned?
  }

  /** Without faults nothing ever fails: a cancel needs a failure, and a failure a cancel. */
  lemma {:induction false} NoFaultsNoFailure(s: State, es: seq<Event>, n: nat)
    requires Inv(s, n) && Failures(s) == 0 && !s.timedOut && IsRun(s, es)
    requires forall e :: e in es ==> Benign(e)
    ensures Failures(Exec(s, es)) == 0
    decreases |es|
  {
    if |es| > 0 {
      assert Benign(es[0]);
      StepInv(s, es[0], n);
      NoFailureStep(s, es[0], n);
      NoFaultsNoFailure(Apply(s, es[0]), es[1..], n);
    }
  }

  lemma NoFailureStep(s: State, e: Event, n: nat)
    requires Inv(s, n) && Failures(s) == 0 && !s.timedOut && Enabled(s, e) && Benign(e)
    ensures Failures(Apply(s, e)) == 0 && !Apply(s, e).timedOut
  {
    match e
    case Go => WorkerChange(s, s.main.next, InFlight);
    case CreateReturns(i, o) =>
      FailuresAreSentOrSending(s.workers);
      TotalIncludes(s.workers, i, ActiveWeight);
      assert !s.cancelled;
      WorkerChange(s, i, Returning(o));
    case WgDone(i) => WorkerChange(s, i, Done(s.workers[i].outcome));
    case Send(i) => WorkerChange(s, i, Returning(s.workers[i].outcome));
    case _ =>
  }

  /** Two creates in flight when the deadline expires both fail. */
  lemma FailTwoAfterDeadline(n: nat) returns (es: seq<Event>)
    requires n >= 2
    ensures IsRun(Init(n), es) && Failures(Exec(Init(n), es)) >= 2
    ensures forall e :: e in es ==> Faults(false, true).Allows(e)
  {
    es := SpawnFirst(n, n);
    es := Extend(Init(n), es, Deadline);
    es := Extend(Init(n), es, CreateReturns(0, CancelFailure));
    es := Extend(Init(n), es, CreateReturns(1, CancelFailure));
    TotalIncludesBoth(Exec(Init(n), es).workers, 0, 1, FailedWeight);
  }

  /** The deadline alone hangs doCreate: two creates that it interrupts are enough. */
  lemma DeadlineAloneCanDeadlock(n: nat) returns (es: seq<Event>)
    requires n >= 2
    ensures IsRun(Init(n), es) && Deadlocked(Exec(Init(n), es))
    ensures forall e :: e in es ==> Faults(false, true).Allows(e)
  {
    es := FailTwoAfterDeadline(n);
    var s := Exec(Init(n), es);
    InitInv(n);
    RunInv(Init(n), es, n);
    var rest := Completion(s, n);
    RunInv(s, rest, n);
    RestIsReturnOrDeadlock(Exec(s, rest), n);
    RunAppend(Init(n), es, rest);
    es := es + rest;
  }

  lemma {:induction false} AtMostAllFail(ws: seq<Worker>)
    ensures Total(ws, FailedWeight) <= |ws|
  {
    if |ws| > 0 { AtMostAllFail(ws[1..]); }
  }

  /** doCreate is certain to return exactly when there is at most one worker, or
      neither a create failing by itself nor the deadline can happen. */
  lemma ReturnsExactly(n: nat, faults: Faults)
    ensures AlwaysReturns(n, faults) <==> n <= 1 || (!faults.own && !faults.deadline)
  {
    if n <= 1 || (!faults.own && !faults.deadline) {
      forall es | IsRun(Init(n), es) && (forall e :: e in es ==> faults.Allows(e)) && Quiescent(Exec(Init(n), es))
        ensures Exec(Init(n), es).main.Returned?
      {
        FewFailures(n, faults, es);
        EveryRun(n, es);
      }
    } else {
      var es := FaultyRun(n, faults);
      InitInv(n);
      RunInv(Init(n), es, n);
      DeadlockIsRest(Exec(Init(n), es), n);
    }
  }

  lemma FewFailures(n: nat, faults: Faults, es: seq<Event>)
    requires n <= 1 || (!faults.own && !faults.deadline)
    requires IsRun(Init(n), es) && forall e :: e in es ==> faults.Allows(e)
    ensures Failures(Exec(Init(n), es)) <= 1
  {
    InitInv(n);
    if n <= 1 {
      RunInv(Init(n), es, n);
      AtMostAllFail(Exec(Init(n), es).workers);
    } else {
      TotalConstant(Init(n).workers, FailedWeight, 0);
      NoFaultsNoFailure(Init(n), es, n);
    }
  }

  lemma FaultyRun(n: nat, faults: Faults) returns (es: seq<Event>)
    requires n >= 2 && (faults.own || faults.deadline)
    ensures IsRun(Init(n), es) && Deadlocked(Exec(Init(n), es))
    ensures forall e :: e in es ==> faults.Allows(e)
  {
    if faults.deadline {
      es := DeadlineAloneCanDeadlock(n);
      assert forall e :: Faults(false, true).Allows(e) ==> faults.Allows(e);
    } else {
      es := OneOwnFailureCanDeadlock(n);
    }
  }

  // ---------- every outcome can happen ----------

  predicate Has(w: Worker, o: Outcome) { (w.Sending? || w.Returning? || w.Done?) && w.outcome == o }

  /** What a create returned is never changed. */
  lemma {:induction false} OutcomeKept(s: State, es: seq<Event>, n: nat, i: nat, o: Outcome)
    requires Inv(s, n) && IsRun(s, es) && i < n && Has(s.workers[i], o)
    ensures |Exec(s, es).workers| == n && Has(Exec(s, es).workers[i], o)
    decreases |es|
  {
    if |es| > 0 {
      StepInv(s, es[0], n);
      OutcomeKept(Apply(s, es[0]), es[1..], n, i, o);
    }
  }

  /** All workers in flight past the deadline, and the first k creates returned. */
  lemma {:induction false} ReturnFirst(outs: seq<Outcome>, k: nat) returns (es: seq<Event>)
    requires k <= |outs|
    ensures IsRun(Init(|outs|), es)
    ensures var s := Exec(Init(|outs|), es);
            && |s.workers| == |outs| && s.cancelled
            && forall i :: 0 <= i < |outs| ==> if i < k then Has(s.workers[i], outs[i]) else s.workers[i].InFlight?
  {
    var n := |outs|;
    if k == 0 {
      es := SpawnFirst(n, n);
      es := Extend(Init(n), es, LoopEnd);
      es := Extend(Init(n), es, Deadline);
    } else {
      es := ReturnFirst(outs, k - 1);
      es := Extend(Init(n), es, CreateReturns(k - 1, outs[k - 1]));
    }
  }

  /** No outcome is ruled out: whatever each of the creates returns, some run comes to
      rest with exactly these outcomes. */
  lemma EveryOutcomeHappens(outs: seq<Outcome>) returns (es: seq<Event>)
    ensures IsRun(Init(|outs|), es) && Quiescent(Exec(Init(|outs|), es))
    ensures var s := Exec(Init(|outs|), es);
            |s.workers| == |outs| && forall i :: 0 <= i < |outs| ==> Has(s.workers[i], outs[i])
  {
    var n := |outs|;
    es := ReturnFirst(outs, n);
    var s := Exec(Init(n), es);
    InitInv(n);
    RunInv(Init(n), es, n);
    var rest := Completion(s, n);
    RunAppend(Init(n), es, rest);
    RunInv(s, rest, n);
    forall i | 0 <= i < n ensures Has(Exec(s, rest).workers[i], outs[i]) {
      OutcomeKept(s, rest, n, i, outs[i]);
    }
    es := es + rest;
  }
}
