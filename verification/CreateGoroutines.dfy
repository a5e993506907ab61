/** doCreate as its goroutines execute it: program counters, the WaitGroup, the
    context's error, and the unbuffered channel with its queue of blocked senders.
    CreateProtocol knows no queue: there a worker at the send is a worker at the send.
    Here it first finds the receiver parked, or joins the queue and sleeps, and a
    receiver that comes later serves the head of the queue. */
module CreateGoroutines {
  import opened Basics
  import opened Counting
  import opened CreateProtocol

  datatype WorkerPc = NotStarted | InCreate | AtSend | Queued | AtDone | Ended

  datatype ReceiverPc = NotListening | Parked | Got(err: Outcome) | Gone

  datatype MainPc = AtLoop(index: nat) | AtGo(index: nat) | InWait | Back

  /** ctx.Err(): the first reason stays, a later cancel changes nothing. */
  datatype ContextError = Canceled | DeadlineExceeded

  /** Who is scheduled next; o is what the network answers to a Create in progress. */
  datatype Turn = MainTurn | WorkerTurn(i: nat, o: Outcome) | ReceiverTurn | TimerFires

  function Seen(pc: WorkerPc, o: Outcome): Worker {
    match pc
    case NotStarted => Unspawned
    case InCreate => InFlight
    case AtSend | Queued => Sending(o)
    case AtDone => Returning(o)
    case Ended => Done(o)
  }

  function AllSeen(pc: seq<WorkerPc>, result: seq<Outcome>): seq<Worker>
    requires |pc| == |result|
  {
    seq(|pc|, i requires 0 <= i < |pc| => Seen(pc[i], result[i]))
  }

  function QueuedWeight(pc: WorkerPc): nat { if pc.Queued? then 1 else 0 }

  /** A worker joins the queue at most once. */
  function SpareWeight(pc: WorkerPc): nat { if pc.NotStarted? || pc.InCreate? || pc.AtSend? then 1 else 0 }

  function BlockedWeight(w: Worker): nat { if w.Sending? then 1 else 0 }

  /** What moving worker i does to the worker states and to the totals. */
  lemma WorkerMoves(pc: seq<WorkerPc>, result: seq<Outcome>, i: nat, to: WorkerPc, o: Outcome)
    requires i < |pc| == |result|
    ensures AllSeen(pc[i := to], result[i := o]) == AllSeen(pc, result)[i := Seen(to, o)]
    ensures o == result[i] ==> result[i := o] == result
    ensures Total(pc[i := to], QueuedWeight) + QueuedWeight(pc[i]) == Total(pc, QueuedWeight) + QueuedWeight(to)
    ensures Total(pc[i := to], SpareWeight) + SpareWeight(pc[i]) == Total(pc, SpareWeight) + SpareWeight(to)
  {
    TotalUpdate(pc, i, to, QueuedWeight);
    TotalUpdate(pc, i, to, SpareWeight);
  }

  /** The queue holds exactly the sleeping workers, each once. */
  ghost predicate QueueMatches(queue: seq<nat>, pc: seq<WorkerPc>) {
    && (forall i: nat :: i in queue <==> i < |pc| && pc[i].Queued?)
    && (forall j, k :: 0 <= j < k < |queue| ==> queue[j] != queue[k])
    && |queue| == Total(pc, QueuedWeight)
  }

  lemma Dequeue(queue: seq<nat>, pc: seq<WorkerPc>)
    requires QueueMatches(queue, pc) && queue != []
    ensures queue[0] in queue && pc[queue[0]].Queued?
    ensures QueueMatches(queue[1..], pc[queue[0] := AtDone])
  {
    var i, rest := queue[0], queue[1..];
    assert queue == [i] + rest && i in queue;
    TotalUpdate(pc, i, AtDone, QueuedWeight);
    assert forall j :: 0 <= j < |rest| ==> rest[j] == queue[j + 1];
    forall k: nat ensures k in rest <==> k in queue && k != i {
      if k in rest {
        var j :| 0 <= j < |rest| && rest[j] == k;
        assert queue[j + 1] != queue[0];
      }
    }
  }

  lemma {:induction false} FailedAreSentOrBlocked(ws: seq<Worker>)
    ensures Total(ws, FailedWeight) == Total(ws, SentWeight) + Total(ws, BlockedWeight)
  {
    if |ws| > 0 { FailedAreSentOrBlocked(ws[1..]); }
  }

  lemma {:induction false} SameTotal<T, U>(s: seq<T>, t: seq<U>, f: T -> nat, g: U -> nat)
    requires |s| == |t| && forall i :: 0 <= i < |s| ==> f(s[i]) == g(t[i])
    ensures Total(s, f) == Total(t, g)
  {
    if |s| > 0 {
      assert forall i :: 0 <= i < |s| - 1 ==> s[1..][i] == s[i + 1] && t[1..][i] == t[i + 1];
      SameTotal(s[1..], t[1..], f, g);
    }
  }

  /** One event of the protocol, or none: queueing and parking are invisible there. */
  ghost predicate Steps(before: State, event: Option<Event>, after: State) {
    if event.None? then after == before
    else Enabled(before, event.value) && after == Apply(before, event.value)
  }

  class DoCreate {
    var pc: seq<WorkerPc>
    var result: seq<Outcome>         // each worker's own err variable, once Create returned
    var queue: seq<nat>              // workers asleep at errChan <- err, first come first
    var receiver: ReceiverPc
    var main: MainPc
    var wg: int
    var ctx: Option<ContextError>
    var err: Option<Outcome>         // the outer variable, which doCreate returns

    ghost function Abstract(): State
      reads this
      requires |result| == |pc|
    {
      State(
        AllSeen(pc, result),
        wg,
        match receiver case NotListening | Parked => Waiting case Got(_) => Received case Gone => Exited,
        match main case AtLoop(i) => Spawning(i, false) case AtGo(i) => Spawning(i, true)
                   case InWait => AtWait case Back => Returned,
        ctx.Some?,
        ctx == Some(DeadlineExceeded),
        if receiver.Got? || receiver.Gone? then 1 else 0,
        err.Some?)
    }

    ghost predicate Valid()
      reads this
    {
      && |result| == |pc|
      && Inv(Abstract(), |pc|)
      && QueueMatches(queue, pc)
      && (receiver.Parked? ==> queue == [])
      && (receiver.Got? ==> receiver.err.Fails())
    }

    /** Can this goroutine, or the timer, take a step? */
    predicate Ready(turn: Turn)
      reads this
    {
      match turn
      case MainTurn => main.AtLoop? || main.AtGo? || (main.InWait? && wg == 0)
      case WorkerTurn(i, o) =>
        i < |pc| && (pc[i].AtSend? || pc[i].AtDone? || (pc[i].InCreate? && (o.CancelFailure? ==> ctx.Some?)))
      case ReceiverTurn => receiver.NotListening? || receiver.Got?
      case TimerFires => ctx.None?
    }

    /** The protocol's event that a turn amounts to, if any. */
    ghost function EventOf(turn: Turn): Option<Event>
      reads this
      requires Ready(turn)
    {
      match turn
      case MainTurn =>
        Some(match main case AtLoop(i) => if i < |pc| then Add else LoopEnd
                        case AtGo(_) => Go
                        case InWait => WaitReturns)
      case WorkerTurn(i, o) =>
        if pc[i].InCreate? then Some(CreateReturns(i, o))
        else if pc[i].AtDone? then Some(WgDone(i))
        else if receiver.Parked? then Some(Send(i))
        else None
      case ReceiverTurn =>
        if receiver.Got? then Some(Cancel)
        else if queue == [] then None
        else Some(Send(queue[0]))
      case TimerFires => Some(Deadline)
    }

    /** How often the object can still move without an event of the protocol. */
    ghost function Spare(): nat
      reads this
    {
      Total(pc, SpareWeight) + if receiver.NotListening? then 1 else 0
    }

    constructor (n: nat)
      ensures Valid() && Abstract() == Init(n) && Spare() == n + 1
    {
      pc, result, queue := seq(n, _ => NotStarted), seq(n, _ => Created), [];
      receiver, main, wg, ctx, err := NotListening, AtLoop(0), 0, None, None;
      new;
      assert Abstract().workers == Init(n).workers;
      InitInv(n);
      TotalConstant(pc, QueuedWeight, 0);
      TotalConstant(pc, SpareWeight, 1);
    }

    /** A turn was taken: it amounted to its event, or used up one spare move. */
    twostate predicate Took(turn: Turn)
      reads this
      requires old(Valid() && Ready(turn))
    {
      && Valid() && |pc| == old(|pc|)
      && Steps(old(Abstract()), old(EventOf(turn)), Abstract())
      && Spare() + (if old(EventOf(turn)).None? then 1 else 0) <= old(Spare())
    }

    // ---- main goroutine ----

    method MainMoves()
      requires Valid() && Ready(MainTurn)
      modifies this
      ensures Took(MainTurn) && queue == old(queue)
    {
      match main
      case AtLoop(i) => LoopHead(i);
      case AtGo(i) => Spawn(i);
      case InWait => Return();
    }

    method LoopHead(i: nat)
      requires Valid() && main == AtLoop(i)
      modifies this
      ensures Took(MainTurn) && queue == old(queue)
    {
      ghost var before := Abstract();
      if i < |pc| {
        wg := wg + 1;
        main := AtGo(i);
      } else {
        main := InWait;
      }
      StepInv(before, if i < |pc| then Add else LoopEnd, |pc|);
    }

    /** wg.Wait() lets main through; the deferred cancel runs on the way out. */
    method Return()
      requires Valid() && main.InWait? && wg == 0
      modifies this
      ensures Took(MainTurn) && queue == old(queue)
    {
      ghost var before := Abstract();
      main := Back;
      if ctx.None? { ctx := Some(Canceled); }
      StepInv(before, WaitReturns, |pc|);
    }

    /** The go statement. */
    method Spawn(i: nat)
      requires Valid() && main == AtGo(i)
      modifies this
      ensures Took(MainTurn) && queue == old(queue)
    {
      ghost var before := Abstract();
      assert before.workers[i].Unspawned?;
      WorkerMoves(pc, result, i, InCreate, result[i]);
      pc := pc[i := InCreate];
      main := AtLoop(i + 1);
      StepInv(before, Go, |pc|);
    }

    // ---- worker goroutines ----

    /** Create returned: an error, unless the key existed, is carried to the send. */
    method FinishCreate(i: nat, o: Outcome)
      requires Valid() && Ready(WorkerTurn(i, o)) && pc[i].InCreate?
      modifies this
      ensures Took(WorkerTurn(i, o)) && queue == old(queue)
    {
      ghost var before := Abstract();
      var next := if o.Fails() then AtSend else AtDone;
      WorkerMoves(pc, result, i, next, o);
      pc, result := pc[i := next], result[i := o];
      StepInv(before, CreateReturns(i, o), |pc|);
    }

    /** errChan <- err: hands over to a parked receiver, else joins the queue and sleeps. */
    method ArriveAtSend(i: nat, o: Outcome)
      requires Valid() && Ready(WorkerTurn(i, o)) && pc[i].AtSend?
      modifies this
      ensures Took(WorkerTurn(i, o))
      ensures queue == if old(receiver.Parked?) then old(queue) else old(queue) + [i]
    {
      if receiver.Parked? {
        HandOver(i, o);
      } else {
        Sleep(i, o);
      }
    }

    method HandOver(i: nat, o: Outcome)
      requires Valid() && Ready(WorkerTurn(i, o)) && pc[i].AtSend? && receiver.Parked?
      modifies this
      ensures Took(WorkerTurn(i, o)) && queue == old(queue)
      ensures receiver == Got(old(result[i]))
    {
      ghost var before := Abstract();
      assert before.workers[i] == Sending(result[i]);
      WorkerMoves(pc, result, i, AtDone, result[i]);
      receiver := Got(result[i]);
      pc := pc[i := AtDone];
      StepInv(before, Send(i), |pc|);
    }

    method Sleep(i: nat, o: Outcome)
      requires Valid() && Ready(WorkerTurn(i, o)) && pc[i].AtSend? && !receiver.Parked?
      modifies this
      ensures Took(WorkerTurn(i, o)) && queue == old(queue) + [i]
    {
      ghost var before := Abstract();
      WorkerMoves(pc, result, i, Queued, result[i]);
      pc, queue := pc[i := Queued], queue + [i];
      assert Abstract() == before;
    }

    /** The deferred wg.Done(). */
    method DeferredDone(i: nat, o: Outcome)
      requires Valid() && Ready(WorkerTurn(i, o)) && pc[i].AtDone?
      modifies this
      ensures Took(WorkerTurn(i, o)) && queue == old(queue)
    {
      ghost var before := Abstract();
      assert before.workers[i] == Returning(result[i]);
      WorkerMoves(pc, result, i, Ended, result[i]);
      pc := pc[i := Ended];
      wg := wg - 1;
      StepInv(before, WgDone(i), |pc|);
    }

    // ---- receiver goroutine ----

    /** err := <-errChan: takes over from the sender that sleeps longest, else parks. */
    method Listen()
      requires Valid() && receiver.NotListening?
      modifies this
      ensures Took(ReceiverTurn)
      ensures queue == if old(queue) == [] then [] else old(queue)[1..]
    {
      if |queue| == 0 {
        receiver := Parked;
      } else {
        WakeFirst();
      }
    }

    method WakeFirst()
      requires Valid() && receiver.NotListening? && queue != []
      modifies this
      ensures Took(ReceiverTurn) && queue == old(queue)[1..]
      ensures receiver == Got(old(result[queue[0]]))
    {
      ghost var before := Abstract();
      var i := queue[0];
      Dequeue(queue, pc);
      assert before.workers[i] == Sending(result[i]);
      WorkerMoves(pc, result, i, AtDone, result[i]);
      receiver := Got(result[i]);
      queue := queue[1..];
      pc := pc[i := AtDone];
      StepInv(before, Send(i), |pc|);
    }

    /** if err != nil: every error sent is one. */
    method React()
      requires Valid() && receiver.Got?
      modifies this
      ensures Took(ReceiverTurn) && queue == old(queue)
    {
      ghost var before := Abstract();
      if receiver.err.Fails() {
        if ctx.None? { ctx := Some(Canceled); }
      }
      receiver := Gone;
      StepInv(before, Cancel, |pc|);
    }

    method Expire()
      requires Valid() && Ready(TimerFires)
      modifies this
      ensures Took(TimerFires) && queue == old(queue)
    {
      ghost var before := Abstract();
      ctx := Some(DeadlineExceeded);
      StepInv(before, Deadline, |pc|);
    }

    /** Lets the goroutine whose turn it is move, if it can. */
    method Dispatch(turn: Turn) returns (moved: bool)
      requires Valid()
      modifies this
      ensures moved == old(Ready(turn))
      ensures if moved then Took(turn) else Valid() && Abstract() == old(Abstract()) && Spare() == old(Spare())
    {
      moved := Ready(turn);
      if moved {
        match turn
        case MainTurn => MainMoves();
        case WorkerTurn(i, o) =>
          if pc[i].InCreate? { FinishCreate(i, o); }
          else if pc[i].AtSend? { ArriveAtSend(i, o); }
          else { DeferredDone(i, o); }
        case ReceiverTurn =>
          if receiver.Got? { React(); } else { Listen(); }
        case TimerFires => Expire();
      }
    }

    /** Nothing but the timer is left to move. */
    ghost predicate AtRest()
      reads this
    {
      forall turn :: Ready(turn) ==> turn.TimerFires?
    }

    /** The turn that brings an enabled event nearer, or about. */
    ghost function TurnFor(e: Event): Turn
      reads this
      requires |result| == |pc| && Enabled(Abstract(), e)
    {
      match e
      case Add | Go | LoopEnd | WaitReturns => MainTurn
      case CreateReturns(i, o) => WorkerTurn(i, o)
      case WgDone(i) => WorkerTurn(i, Created)
      case Send(i) => if pc[i].AtSend? then WorkerTurn(i, Created) else ReceiverTurn
      case Cancel => ReceiverTurn
      case Deadline => TimerFires
    }

    /** Queueing and parking hide no progress. */
    lemma TurnExists(e: Event)
      requires Valid() && Enabled(Abstract(), e)
      ensures Ready(TurnFor(e))
    {
      if e.Send? && pc[e.i].Queued? {
        assert e.i in queue;
      }
    }

    /** At rest here is at rest in the protocol. */
    lemma RestIsQuiescent()
      requires Valid() && AtRest()
      ensures Quiescent(Abstract())
    {
      forall e | Enabled(Abstract(), e) ensures e.Deadline? {
        TurnExists(e);
      }
    }

    /** In the deadlock main waits, the receiver is gone, and all failed creates but the
        one received sleep in the channel's queue. */
    ghost predicate Hangs()
      reads this
    {
      && main.InWait? && receiver.Gone? && |result| == |pc|
      && (forall i: nat :: i < |pc| ==> pc[i].Ended? || i in queue)
      && |queue| == Failures(Abstract()) - 1
    }

    lemma RestOutcome()
      requires Valid() && AtRest()
      ensures main.Back? <==> Failures(Abstract()) <= 1
      ensures Hangs() <==> Failures(Abstract()) >= 2
      ensures main.Back? ==> queue == []
    {
      var s := Abstract();
      RestIsQuiescent();
      RestIsReturnOrDeadlock(s, |pc|);
      FailedAreSentOrBlocked(s.workers);
      forall i: nat | i < |pc| ensures BlockedWeight(s.workers[i]) == QueuedWeight(pc[i]) {
        assert !Ready(WorkerTurn(i, Created));
      }
      SameTotal(s.workers, pc, BlockedWeight, QueuedWeight);
      if main.Back? {
        ReturnIsSafe(s, |pc|);
        TotalZero(pc, QueuedWeight);
      }
    }

    /** Executes doCreate under a schedule of n workers; turns of goroutines that cannot
        move are passed over.  The object follows a run of the protocol, plus at most
        n + 1 moves of its own, and at rest has returned or hangs as the protocol says. */
    method RunSchedule(n: nat, schedule: seq<Turn>) returns (ghost trace: seq<Event>, moves: nat)
      requires Valid() && Abstract() == Init(n) && Spare() == n + 1
      modifies this
      ensures Valid() && IsRun(Init(n), trace) && Abstract() == Exec(Init(n), trace)
      ensures moves <= |trace| + n + 1 <= 6 * n + 7
      ensures main.Back? ==> ReturnedSafely(Abstract()) && err.None?
      ensures AtRest() ==> (main.Back? <==> Failures(Abstract()) <= 1)
      ensures AtRest() ==> (Hangs() <==> Failures(Abstract()) >= 2)
    {
      trace, moves := [], 0;
      for k := 0 to |schedule|
        invariant Valid() && IsRun(Init(n), trace) && Abstract() == Exec(Init(n), trace)
        invariant moves + Spare() <= |trace| + n + 1
      {
        ghost var event := if Ready(schedule[k]) then EventOf(schedule[k]) else None;
        var moved := Dispatch(schedule[k]);
        if moved {
          moves := moves + 1;
          if event.Some? { trace := Extend(Init(n), trace, event.value); }
        }
      }
      EveryRun(n, trace);
      if AtRest() { RestOutcome(); }
    }
  }
}
