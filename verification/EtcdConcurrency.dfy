/** Any number of storage calls running at once.  A create is one etcd transaction.
    An update or delete reads the object, decides, and commits with a transaction
    guarded by the revision it read; when the guard fails it starts over from the
    object the transaction returned. */
module EtcdConcurrency {
  import opened Basics
  import opened Counting
  import opened Decimal
  import opened EtcdStore

  /** at, since and effect positions are lengths of the log of committed writes. */
  datatype Phase =
    | Idle
    | Invoked(since: nat)
    | Loaded(since: nat, cell: Cell, at: nat)
    | Finished(since: nat, answer: Answer, effect: nat)

  datatype Thread = Thread(call: Call, phase: Phase)

  /** One committed write: whose it was, and what it did to which key. */
  datatype Commit = Commit(thread: nat, key: string, decision: Decision)

  datatype System = System(db: Db, log: seq<Commit>, threads: seq<Thread>)

  datatype Event = Invoke(t: nat) | Read(t: nat) | Attempt(t: nat)

  ghost predicate Initial(s: System) {
    s.db.Valid() && s.log == [] && forall t :: 0 <= t < |s.threads| ==> s.threads[t].phase.Idle?
  }

  ghost predicate Enabled(s: System, e: Event) {
    && e.t < |s.threads|
    && match e
       case Invoke(t) => s.threads[t].phase.Idle?
       case Read(t) => s.threads[t].phase.Invoked? && !s.threads[t].call.Create?
       case Attempt(t) => s.threads[t].phase.Loaded? || (s.threads[t].phase.Invoked? && s.threads[t].call.Create?)
  }

  function SetPhase(s: System, t: nat, p: Phase): System
    requires t < |s.threads|
  {
    s.(threads := s.threads[t := s.threads[t].(phase := p)])
  }

  /** What reading the current cell leads to: a delete of a missing object ends at once. */
  ghost function AfterRead(s: System, t: nat): Phase
    requires t < |s.threads| && (s.threads[t].phase.Invoked? || s.threads[t].phase.Loaded?)
  {
    var call, since := s.threads[t].call, s.threads[t].phase.since;
    var cell := s.db.At(call.Key());
    if call.Delete? && cell.None? then Finished(since, Failed(NotFound), |s.log|)
    else Loaded(since, cell, |s.log|)
  }

  /** A decision reached from cell is carried out now and ends the call. */
  ghost function Finish(s: System, t: nat, cell: Cell, d: Decision): System
    requires t < |s.threads| && (s.threads[t].phase.Invoked? || s.threads[t].phase.Loaded?)
  {
    var th := s.threads[t];
    var done := Finished(th.phase.since, AnswerAfter(d, cell, s.db.rev + 1), |s.log|);
    var s' := SetPhase(s, t, done);
    if Writes(d) then s'.(db := s.db.Carry(th.call.Key(), d), log := s.log + [Commit(t, th.call.Key(), d)])
    else s'
  }

  function Revision(c: Cell): nat { View(c).rev }

  ghost function Apply(s: System, e: Event): System
    requires Enabled(s, e)
  {
    var th := s.threads[e.t];
    var now := s.db.At(th.call.Key());
    match e
    case Invoke(t) => SetPhase(s, t, Invoked(|s.log|))
    case Read(t) => SetPhase(s, t, AfterRead(s, t))
    case Attempt(t) =>
      if th.call.Create? then Finish(s, t, now, Decide(th.call, now))
      else
        var d := Decide(th.call, th.phase.cell);
        if d.Reply? then SetPhase(s, t, Finished(th.phase.since, d.answer, th.phase.at))
        else if Revision(now) == Revision(th.phase.cell) then Finish(s, t, th.phase.cell, d)
        else SetPhase(s, t, AfterRead(s, t))
  }

  // ---------- the store as a function of the log ----------

  ghost function Replay(db: Db, log: seq<Commit>): Db {
    if |log| == 0 then db
    else
      var c := log[|log| - 1];
      Replay(db, log[..|log| - 1]).Carry(c.key, c.decision)
  }

  ghost predicate AllWrite(log: seq<Commit>) {
    forall i :: 0 <= i < |log| ==> Writes(log[i].decision)
  }

  lemma {:induction false} ReplayValid(db: Db, log: seq<Commit>)
    requires db.Valid() && AllWrite(log)
    ensures Replay(db, log).Valid() && Replay(db, log).rev == db.rev + |log|
  {
    if |log| > 0 {
      ReplayValid(db, log[..|log| - 1]);
    }
  }

  /** Key has not changed since then_, or is gone, or carries a revision issued later. */
  ghost predicate FreshSince(then_: Db, now: Db, key: string) {
    now.At(key) == then_.At(key) || now.At(key).None? || now.At(key).value.rev > then_.rev
  }

  lemma CarryFresh(then_: Db, now: Db, key: string, written: string, d: Decision)
    requires FreshSince(then_, now, key) && then_.rev <= now.rev
    ensures FreshSince(then_, now.Carry(written, d), key)
  {
  }

  /** Revisions never come back. */
  lemma {:induction false} RevisionsAreFresh(db: Db, log: seq<Commit>, i: nat, key: string)
    requires db.Valid() && AllWrite(log) && i <= |log|
    ensures FreshSince(Replay(db, log[..i]), Replay(db, log), key)
  {
    if i == |log| {
      assert log[..i] == log;
    } else {
      var n := |log| - 1;
      RevisionsAreFresh(db, log[..n], i, key);
      assert log[..n][..i] == log[..i];
      ReplayValid(db, log[..n]);
      ReplayValid(db, log[..i]);
      CarryFresh(Replay(db, log[..i]), Replay(db, log[..n]), key, log[n].key, log[n].decision);
    }
  }

  /** The guard of the commit transaction: the same revision means the same object. */
  lemma SameRevisionSameCell(db: Db, log: seq<Commit>, i: nat, key: string)
    requires db.Valid() && AllWrite(log) && i <= |log|
    requires Revision(Replay(db, log).At(key)) == Revision(Replay(db, log[..i]).At(key))
    ensures Replay(db, log).At(key) == Replay(db, log[..i]).At(key)
  {
    RevisionsAreFresh(db, log, i, key);
    ReplayValid(db, log[..i]);
    ReplayValid(db, log);
  }

  // ---------- the invariant ----------

  /** A finished call took effect at one moment between its invocation and its answer:
      the store as it was then gives this very answer to the call applied in one step,
      and the log holds the call's write at that moment exactly when that step writes. */
  ghost predicate Linearized(db: Db, s: System, t: nat)
    requires t < |s.threads| && s.threads[t].phase.Finished?
  {
    var call, p := s.threads[t].call, s.threads[t].phase;
    && p.since <= p.effect <= |s.log|
    && var then_ := Replay(db, s.log[..p.effect]);
       var d := Decide(call, then_.At(call.Key()));
       && p.answer == then_.AnswerTo(call)
       && (Writes(d) ==> p.effect < |s.log| && s.log[p.effect] == Commit(t, call.Key(), d))
       && (!Writes(d) ==> forall i :: 0 <= i < |s.log| ==> s.log[i].thread != t)
  }

  ghost predicate ThreadInv(db: Db, s: System, t: nat)
    requires t < |s.threads|
  {
    var call, p := s.threads[t].call, s.threads[t].phase;
    && (p.Invoked? ==> p.since <= |s.log|)
    && (p.Loaded? ==>
          && !call.Create?
          && p.since <= p.at <= |s.log|
          && p.cell == Replay(db, s.log[..p.at]).At(call.Key())
          && (call.Delete? ==> p.cell.Some?))
    && (if p.Finished? then Linearized(db, s, t)
        else forall i :: 0 <= i < |s.log| ==> s.log[i].thread != t)
  }

  /** Every write in the log is the one effect of a finished call. */
  ghost predicate LogInv(s: System) {
    && AllWrite(s.log)
    && forall i :: 0 <= i < |s.log| ==>
         && s.log[i].thread < |s.threads|
         && s.threads[s.log[i].thread].phase.Finished?
         && s.threads[s.log[i].thread].phase.effect == i
  }

  ghost predicate Inv(db: Db, s: System) {
    && db.Valid()
    && s.db == Replay(db, s.log)
    && LogInv(s)
    && forall t :: 0 <= t < |s.threads| ==> ThreadInv(db, s, t)
  }

  /** A thread that does not move keeps its invariant while the log grows. */
  lemma OthersKept(db: Db, s: System, s': System, t: nat)
    requires t < |s.threads| == |s'.threads| && s'.threads[t] == s.threads[t] && ThreadInv(db, s, t)
    requires s'.log == s.log || (|s'.log| == |s.log| + 1 && s'.log[..|s.log|] == s.log && s'.log[|s.log|].thread != t)
    ensures ThreadInv(db, s', t)
  {
    var p := s.threads[t].phase;
    if p.Loaded? {
      assert s'.log[..p.at] == s.log[..p.at];
    }
    if p.Finished? {
      assert s'.log[..p.effect] == s.log[..p.effect];
      assert forall i :: 0 <= i < |s.log| ==> s'.log[i] == s'.log[..|s.log|][i];
    }
    assert forall i :: 0 <= i < |s.log| ==> s'.log[i] == s'.log[..|s.log|][i];
  }

  lemma FinishInv(db: Db, s: System, t: nat, cell: Cell)
    requires Inv(db, s) && t < |s.threads| && (s.threads[t].phase.Invoked? || s.threads[t].phase.Loaded?)
    requires cell == s.db.At(s.threads[t].call.Key())
    ensures Inv(db, Finish(s, t, cell, Decide(s.threads[t].call, cell)))
  {
    var call := s.threads[t].call;
    var d := Decide(call, cell);
    assert ThreadInv(db, s, t);
    if Writes(d) {
      FinishWriteInv(db, s, t, cell, d);
    } else {
      assert s.log[..|s.log|] == s.log;
      PhaseInv(db, s, t, Finished(s.threads[t].phase.since, d.answer, |s.log|));
    }
  }

  lemma FinishWriteInv(db: Db, s: System, t: nat, cell: Cell, d: Decision)
    requires Inv(db, s) && t < |s.threads| && (s.threads[t].phase.Invoked? || s.threads[t].phase.Loaded?)
    requires cell == s.db.At(s.threads[t].call.Key())
    requires d == Decide(s.threads[t].call, cell) && Writes(d)
    ensures Inv(db, Finish(s, t, cell, d))
  {
    var s' := Finish(s, t, cell, d);
    assert s'.log[..|s.log|] == s.log;
    assert ThreadInv(db, s, t);
    forall u | 0 <= u < |s.threads| ensures ThreadInv(db, s', u) {
      if u != t {
        OthersKept(db, s, s', u);
      }
    }
    assert LogInv(s');
  }

  lemma PhaseInv(db: Db, s: System, t: nat, p: Phase)
    requires Inv(db, s) && t < |s.threads| && !s.threads[t].phase.Finished?
    requires ThreadInv(db, SetPhase(s, t, p), t)
    ensures Inv(db, SetPhase(s, t, p))
  {
    var s' := SetPhase(s, t, p);
    forall u | 0 <= u < |s.threads| ensures ThreadInv(db, s', u) {
      if u != t {
        OthersKept(db, s, s', u);
      }
    }
  }

  lemma StepInv(db: Db, s: System, e: Event)
    requires Inv(db, s) && Enabled(s, e)
    ensures Inv(db, Apply(s, e))
  {
    var t := e.t;
    var th := s.threads[t];
    var now := s.db.At(th.call.Key());
    assert s.log[..|s.log|] == s.log && ThreadInv(db, s, t);
    match e
    case Invoke(_) => PhaseInv(db, s, t, Invoked(|s.log|));
    case Read(_) => PhaseInv(db, s, t, AfterRead(s, t));
    case Attempt(_) =>
      if th.call.Create? {
        FinishInv(db, s, t, now);
      } else {
        var d := Decide(th.call, th.phase.cell);
        if d.Reply? {
          PhaseInv(db, s, t, Finished(th.phase.since, d.answer, th.phase.at));
        } else if Revision(now) == Revision(th.phase.cell) {
          SameRevisionSameCell(db, s.log, th.phase.at, th.call.Key());
          FinishInv(db, s, t, now);
        } else {
          PhaseInv(db, s, t, AfterRead(s, t));
        }
      }
  }

  // ---------- whole runs ----------

  ghost predicate IsRun(s: System, es: seq<Event>)
    decreases |es|
  {
    |es| == 0 || (Enabled(s, es[0]) && IsRun(Apply(s, es[0]), es[1..]))
  }

  ghost function Exec(s: System, es: seq<Event>): System
    requires IsRun(s, es)
    decreases |es|
  {
    if |es| == 0 then s else Exec(Apply(s, es[0]), es[1..])
  }

  lemma InitialInv(s: System)
    requires Initial(s)
    ensures Inv(s.db, s)
  {
  }

  lemma {:induction false} RunInv(db: Db, s: System, es: seq<Event>)
    requires Inv(db, s) && IsRun(s, es)
    ensures Inv(db, Exec(s, es))
    decreases |es|
  {
    if |es| > 0 {
      StepInv(db, s, es[0]);
      RunInv(db, Apply(s, es[0]), es[1..]);
    }
  }

  /** Linearizability.  After any interleaving the store is what the committed writes,
      applied one at a time, make of the initial store; every write in the log is the
      effect of one finished call; and every finished call took effect in one step. */
  lemma EveryRunLinearizes(s: System, es: seq<Event>)
    requires Initial(s) && IsRun(s, es)
    ensures var s' := Exec(s, es);
            && s'.db == Replay(s.db, s'.log)
            && LogInv(s')
            && (forall t :: 0 <= t < |s'.threads| && s'.threads[t].phase.Finished? ==> Linearized(s.db, s', t))
  {
    InitialInv(s);
    RunInv(s.db, s, es);
    var s' := Exec(s, es);
    forall t | 0 <= t < |s'.threads| && s'.threads[t].phase.Finished? ensures Linearized(s.db, s', t) {
      assert ThreadInv(s.db, s', t);
    }
  }

  ghost predicate NotBefore(s: System, u: nat, m: nat) {
    && u < |s.threads| && |s.log| >= m
    && (s.threads[u].phase.Idle? || s.threads[u].phase.since >= m)
  }

  lemma {:induction false} StaysNotBefore(s: System, es: seq<Event>, t: nat, u: nat, m: nat)
    requires IsRun(s, es) && NotBefore(s, u, m) && t < |s.threads| && s.threads[t].phase.Finished?
    ensures NotBefore(Exec(s, es), u, m)
    ensures t < |Exec(s, es).threads| && Exec(s, es).threads[t] == s.threads[t]
    decreases |es|
  {
    if |es| > 0 {
      StaysNotBefore(Apply(s, es[0]), es[1..], t, u, m);
    }
  }

  /** Real-time order: a call invoked after another finished takes effect after it,
      strictly after its write if it wrote. */
  lemma RealTimeOrder(db: Db, s: System, es: seq<Event>, t: nat, u: nat)
    requires Inv(db, s) && IsRun(s, es) && t < |s.threads| && u < |s.threads|
    requires s.threads[t].phase.Finished? && s.threads[u].phase.Idle?
    ensures var s' := Exec(s, es);
            t < |s'.threads| && u < |s'.threads| && s'.threads[t].phase.Finished?
            && (s'.threads[u].phase.Finished? ==>
                  && s'.threads[t].phase.effect <= s'.threads[u].phase.effect
                  && (Committed(s, t) ==> s'.threads[t].phase.effect < s'.threads[u].phase.effect))
  {
    StaysNotBefore(s, es, t, u, |s.log|);
    RunInv(db, s, es);
    assert ThreadInv(db, s, t) && ThreadInv(db, Exec(s, es), u);
  }

  /** The call changed the store. */
  ghost predicate Committed(s: System, t: nat) {
    exists i :: 0 <= i < |s.log| && s.log[i].thread == t
  }

  // ---------- lost updates ----------

  ghost function VersionAt(db: Db, s: System, i: nat, key: string): string
    requires i <= |s.log|
  {
    ResourceVersion(View(Replay(db, s.log[..i]).At(key)).rev)
  }

  /** A call commits only over a cell that meets its preconditions. */
  lemma CommitChecked(db: Db, s: System, i: nat)
    requires Inv(db, s) && i < |s.log|
    ensures var call := s.threads[s.log[i].thread].call;
            s.log[i].key == call.Key() && Holds(call.Pre(), View(Replay(db, s.log[..i]).At(call.Key())))
  {
    assert ThreadInv(db, s, s.log[i].thread);
  }

  /** A nonempty resource version, once overwritten or deleted, never comes back. */
  lemma VersionNeverReturns(db: Db, s: System, i: nat, j: nat)
    requires Inv(db, s) && i < j <= |s.log| && VersionAt(db, s, i, s.log[i].key) != ""
    ensures VersionAt(db, s, j, s.log[i].key) != VersionAt(db, s, i, s.log[i].key)
  {
    var key := s.log[i].key;
    var before, after, later := Replay(db, s.log[..i]), Replay(db, s.log[..i + 1]), Replay(db, s.log[..j]);
    assert s.log[..i + 1][..i] == s.log[..i];
    ReplayValid(db, s.log[..i]);
    ReplayValid(db, s.log[..i + 1]);
    RevisionsAreFresh(db, s.log[..j], i + 1, key);
    assert s.log[..j][..i + 1] == s.log[..i + 1];
    assert after == before.Carry(key, s.log[i].decision) && Writes(s.log[i].decision);
    var r, r' := View(before.At(key)).rev, View(later.At(key)).rev;
    assert r != r' && r != 0;
    if Print(r) == Print(r') { PrintInjective(r, r'); }
  }

  /** Of two calls on one name that carry the same nonempty resource version, at most
      one changes the store, however they and everything else interleave. */
  lemma NoLostUpdate(db: Db, s: System, t: nat, u: nat, v: string)
    requires Inv(db, s) && t < |s.threads| && u < |s.threads| && t != u && v != ""
    requires s.threads[t].call.Key() == s.threads[u].call.Key()
    requires s.threads[t].call.Carries(v) && s.threads[u].call.Carries(v)
    ensures !(Committed(s, t) && Committed(s, u))
  {
    if Committed(s, t) && Committed(s, u) {
      var i :| 0 <= i < |s.log| && s.log[i].thread == t;
      var j :| 0 <= j < |s.log| && s.log[j].thread == u;
      CommitChecked(db, s, i);
      CommitChecked(db, s, j);
      if i < j { VersionNeverReturns(db, s, i, j); } else { VersionNeverReturns(db, s, j, i); }
    }
  }

  // ---------- which preconditions exclude a second effect ----------

  lemma {:induction false} RunAppend(s: System, es: seq<Event>, more: seq<Event>)
    requires IsRun(s, es) && IsRun(Exec(s, es), more)
    ensures IsRun(s, es + more) && Exec(s, es + more) == Exec(Exec(s, es), more)
    decreases |es|
  {
    if |es| == 0 {
      assert es + more == more;
    } else {
      assert (es + more)[1..] == es[1..] + more;
      RunAppend(Apply(s, es[0]), es[1..], more);
    }
  }

  lemma Extend(s: System, es: seq<Event>, e: Event) returns (fs: seq<Event>)
    requires IsRun(s, es) && Enabled(Exec(s, es), e)
    ensures fs == es + [e] && IsRun(s, fs) && Exec(s, fs) == Apply(Exec(s, es), e)
  {
    fs := es + [e];
    assert [e][1..] == [];
    RunAppend(s, es, [e]);
  }

  /** A call that runs undisturbed is the call applied in one step. */
  lemma Solo(s: System, t: nat) returns (es: seq<Event>)
    requires t < |s.threads| && s.threads[t].phase.Idle?
    ensures IsRun(s, es)
    ensures var s', call := Exec(s, es), s.threads[t].call;
            && s'.db == s.db.After(call)
            && s'.log == s.log + Effect(t, call, s.db)
            && s'.threads == s.threads[t := Thread(call, Finished(|s.log|, s.db.AnswerTo(call), |s.log|))]
  {
    es := Extend(s, [], Invoke(t));
    if !s.threads[t].call.Create? {
      es := Extend(s, es, Read(t));
    }
    if !Exec(s, es).threads[t].phase.Finished? {
      es := Extend(s, es, Attempt(t));
    }
  }

  /** Commit j, an update or delete under p, replaces or removes the very object that the
      earlier commit i, an update under p, has put there: that update is lost. */
  ghost predicate Overwrites(db: Db, s: System, i: nat, j: nat, p: Option<Preconditions>) {
    && i < j < |s.log| && s.log[i].key == s.log[j].key
    && s.log[i].thread < |s.threads| && s.log[j].thread < |s.threads|
    && s.threads[s.log[i].thread].call.Update?
    && Under(s.threads[s.log[i].thread].call, p) && Under(s.threads[s.log[j].thread].call, p)
    && Replay(db, s.log[..j]).At(s.log[i].key) == Replay(db, s.log[..i + 1]).At(s.log[i].key)
  }

  /** No update under p is ever lost to another update or delete under p. */
  ghost predicate Lossless(p: Option<Preconditions>) {
    forall s, es, i: nat, j: nat :: Initial(s) && IsRun(s, es) ==> !Overwrites(s.db, Exec(s, es), i, j, p)
  }

  /** An update or delete under precondition p. */
  predicate Under(call: Call, p: Option<Preconditions>) { !call.Create? && call.Pre() == p }

  /** After this run, two calls on one name under p have both changed the store. */
  ghost predicate BothCommit(s: System, t: nat, u: nat, p: Option<Preconditions>) {
    && t < |s.threads| && u < |s.threads| && t != u
    && s.threads[t].call.Key() == s.threads[u].call.Key()
    && Under(s.threads[t].call, p) && Under(s.threads[u].call, p)
    && Committed(s, t) && Committed(s, u)
  }

  /** Two updates or deletes of one name under p never both change the store. */
  ghost predicate Exclusive(p: Option<Preconditions>) {
    forall s, es, t: nat, u: nat :: Initial(s) && IsRun(s, es) ==> !BothCommit(Exec(s, es), t, u, p)
  }

  /** The precondition names a version, and not the empty one of a missing object;
      with a nonempty UID beside it even that one will do, as it then never holds. */
  predicate Guards(p: Option<Preconditions>) {
    && p.Some? && p.value.resourceVersion.Some?
    && (p.value.resourceVersion.value != "" || (p.value.uid.Some? && p.value.uid.value != ""))
  }

  /** What a call adds to the log when it takes effect on this store. */
  function Effect(t: nat, call: Call, db: Db): seq<Commit> {
    var d := Decide(call, db.At(call.Key()));
    if Writes(d) then [Commit(t, call.Key(), d)] else []
  }

  /** Three calls run one after the other. */
  lemma InTurn(s: System) returns (es: seq<Event>)
    requires |s.threads| == 3 && forall t :: 0 <= t < 3 ==> s.threads[t].phase.Idle?
    ensures IsRun(s, es)
    ensures var s', c0, c1, c2 := Exec(s, es), s.threads[0].call, s.threads[1].call, s.threads[2].call;
            var db2 := s.db.After(c0).After(c1);
            && s'.db == db2.After(c2)
            && |s'.threads| == 3 && s'.threads[0].call == c0 && s'.threads[2].call == c2
            && s'.log == s.log + Effect(0, c0, s.db) + Effect(1, c1, s.db.After(c0)) + Effect(2, c2, db2)
  {
    var first := Solo(s, 0);
    var s1 := Exec(s, first);
    var second := Solo(s1, 1);
    var s2 := Exec(s1, second);
    var third := Solo(s2, 2);
    var s3 := Exec(s2, third);
    RunAppend(s1, second, third);
    RunAppend(s, first, second + third);
    es := first + (second + third);
  }

  /** Without a resource version, given a UID or not, an update does not notice another
      one: both commit, and the store ends with the second as if the first were not. */
  lemma UnguardedUpdatesOverwrite(p: Option<Preconditions>) returns (s: System, es: seq<Event>)
    requires p.None? || p.value.resourceVersion.None?
    ensures Initial(s) && IsRun(s, es) && BothCommit(Exec(s, es), 0, 2, p)
    ensures Overwrites(s.db, Exec(s, es), 0, 1, p)
    ensures |s.threads| == 3
    ensures var c := s.threads[2].call;
            var alone, end := s.db.After(c).At(c.Key()), Exec(s, es).db.At(c.Key());
            c.Update? && alone.Some? && end.Some? && end.value.obj == alone.value.obj
  {
    var db, first, nothing, second := Overwriting(p);
    s := System(db, [], [Thread(first, Idle), Thread(nothing, Idle), Thread(second, Idle)]);
    es := InTurn(s);
    var s' := Exec(s, es);
    assert s'.log[0].thread == 0 && s'.log[1].thread == 2;
    assert s'.log[..0 + 1] == s'.log[..1];
  }

  /** Two updates under p that both apply to what is there, and one that does nothing. */
  lemma Overwriting(p: Option<Preconditions>) returns (db: Db, first: Call, nothing: Call, second: Call)
    requires p.None? || p.value.resourceVersion.None?
    ensures db.Valid() && first.Update? && second.Update? && first.Pre() == second.Pre() == p
    ensures first.Key() == second.Key()
    ensures Writes(Decide(first, db.At(first.Key())))
    ensures !Writes(Decide(nothing, db.After(first).At(nothing.Key())))
    ensures var db2 := db.After(first).After(nothing);
            && Writes(Decide(second, db2.At(second.Key())))
            && var alone, end := db.After(second).At(second.Key()), db2.After(second).At(second.Key());
               alone.Some? && end.Some? && end.value.obj == alone.value.obj
  {
    var uid := if p.Some? && p.value.uid.Some? then p.value.uid.value else "";
    var zero := Object("", "test", uid, 0, "0", "");
    var one, two := zero.(spec := "1"), zero.(spec := "2");
    first, second := Update("test", p, _ => Some(one)), Update("test", p, _ => Some(two));
    nothing := Update("test", None, _ => None);
    db := Db(map[KeyPath("test") := Stored(zero, 1)], 1);
    assert Decide(first, Some(Stored(zero, 1))) == Put(one);
    assert db.After(first).At(second.Key()) == Some(Stored(one, 2));
    assert db.After(first).After(nothing) == db.After(first);
    assert Decide(second, Some(Stored(one, 2))) == Put(two);
    assert Decide(second, Some(Stored(zero, 1))) == Put(two);
  }

  /** The empty version of a missing object can hold again after a delete. */
  lemma EmptyVersionHoldsAgain(p: Option<Preconditions>) returns (s: System, es: seq<Event>)
    requires p.Some? && p.value.resourceVersion == Some("") && !Guards(p)
    ensures Initial(s) && IsRun(s, es) && BothCommit(Exec(s, es), 0, 2, p)
  {
    var upsert := Update("test", p, _ => Some(ZERO_OBJECT));
    var delete := Delete("test", None, _ => true);
    var db := Db(map[], 1);
    s := System(db, [], [Thread(upsert, Idle), Thread(delete, Idle), Thread(upsert, Idle)]);
    var key := upsert.Key();
    assert Decide(upsert, None) == Put(ZERO_OBJECT);
    assert db.After(upsert).At(key) == Some(Stored(ZERO_OBJECT, 2));
    assert db.After(upsert).After(delete).At(key) == None;
    es := InTurn(s);
    assert Exec(s, es).log[0].thread == 0 && Exec(s, es).log[2].thread == 2;
  }

  /** An empty version beside a nonempty UID never holds: no object has both. */
  lemma NeverHolds(p: Option<Preconditions>, db: Db, key: string)
    requires Guards(p) && p.value.resourceVersion == Some("") && db.Valid()
    ensures !Holds(p, View(db.At(key)))
  {
    if key in db.kv { PrintParses(db.kv[key].rev); }
  }

  lemma GuardExcludes(db: Db, s: System, t: nat, u: nat, p: Option<Preconditions>)
    requires Inv(db, s) && Guards(p)
    ensures !BothCommit(s, t, u, p)
  {
    if BothCommit(s, t, u, p) {
      if p.value.resourceVersion.value == "" {
        var i :| 0 <= i < |s.log| && s.log[i].thread == t;
        CommitChecked(db, s, i);
        ReplayValid(db, s.log[..i]);
        NeverHolds(p, Replay(db, s.log[..i]), s.threads[t].call.Key());
      } else {
        NoLostUpdate(db, s, t, u, p.value.resourceVersion.value);
      }
    }
  }

  /** Two updates or deletes of one name under p exclude each other exactly when p guards. */
  lemma ExclusiveExactly(p: Option<Preconditions>)
    ensures Exclusive(p) <==> Guards(p)
  {
    if Guards(p) {
      forall s, es, t: nat, u: nat | Initial(s) && IsRun(s, es) ensures !BothCommit(Exec(s, es), t, u, p) {
        InitialInv(s);
        RunInv(s.db, s, es);
        GuardExcludes(s.db, Exec(s, es), t, u, p);
      }
    } else if p.None? || p.value.resourceVersion.None? {
      var s, es := UnguardedUpdatesOverwrite(p);
      assert BothCommit(Exec(s, es), 0, 2, p);
    } else {
      var s, es := EmptyVersionHoldsAgain(p);
      assert BothCommit(Exec(s, es), 0, 2, p);
    }
  }

  lemma VersionsDiffer(r: nat, r': nat)
    requires r < r'
    ensures ResourceVersion(r) != ResourceVersion(r')
  {
    assert Print(r') != "" by { PrintParses(r'); }
    if Print(r) == Print(r') { PrintInjective(r, r'); }
  }

  /** An update that commits leaves its object under a revision never issued before. */
  lemma UpdatePuts(db: Db, s: System, i: nat)
    requires Inv(db, s) && i < |s.log| && s.threads[s.log[i].thread].call.Update?
    ensures var before, after := Replay(db, s.log[..i]), Replay(db, s.log[..i + 1]);
            var key := s.log[i].key;
            && before.Valid()
            && after.At(key).Some? && after.At(key).value.rev == before.rev + 1
  {
    ReplayValid(db, s.log[..i]);
    assert s.log[..i + 1][..i] == s.log[..i];
    assert ThreadInv(db, s, s.log[i].thread);
  }

  /** A version that has been checked before an update is stale after it. */
  lemma VersionedNotLost(db: Db, s: System, i: nat, j: nat, p: Option<Preconditions>)
    requires Inv(db, s) && p.Some? && p.value.resourceVersion.Some?
    ensures !Overwrites(db, s, i, j, p)
  {
    if Overwrites(db, s, i, j, p) {
      CommitChecked(db, s, i);
      CommitChecked(db, s, j);
      UpdatePuts(db, s, i);
      var before := Replay(db, s.log[..i]);
      VersionsDiffer(View(before.At(s.log[i].key)).rev, before.rev + 1);
    }
  }

  /** A precondition prevents lost updates exactly when it names a resource version,
      be it the empty one of a missing object. */
  lemma LosslessExactly(p: Option<Preconditions>)
    ensures Lossless(p) <==> p.Some? && p.value.resourceVersion.Some?
  {
    if p.Some? && p.value.resourceVersion.Some? {
      forall s, es, i: nat, j: nat | Initial(s) && IsRun(s, es) ensures !Overwrites(s.db, Exec(s, es), i, j, p) {
        InitialInv(s);
        RunInv(s.db, s, es);
        VersionedNotLost(s.db, Exec(s, es), i, j, p);
      }
    } else {
      var s, es := UnguardedUpdatesOverwrite(p);
      assert Overwrites(s.db, Exec(s, es), 0, 1, p);
    }
  }

  /** The preconditions the API server gives an update of an object: its UID or none. */
  function UpdatePreconditions(obj: Object): Option<Preconditions> {
    if obj.uid == "" then None else Some(Preconditions(Some(obj.uid), None))
  }

  /** So an update sent to the server can always be lost to another one. */
  lemma ServerUpdatesUnguarded(obj: Object)
    ensures !Lossless(UpdatePreconditions(obj)) && !Exclusive(UpdatePreconditions(obj))
  {
    LosslessExactly(UpdatePreconditions(obj));
    ExclusiveExactly(UpdatePreconditions(obj));
  }

  // ---------- progress ----------

  function Weight(db: Db, n: nat, th: Thread): nat {
    match th.phase
    case Idle => n + 3
    case Invoked(_) => n + 2
    case Loaded(_, cell, _) => if Revision(db.At(th.call.Key())) == Revision(cell) then n else n + 1
    case Finished(_, _, _) => 0
  }

  function Weigher(db: Db, n: nat): Thread -> nat { th => Weight(db, n, th) }

  function Work(s: System): nat { Total(s.threads, Weigher(s.db, |s.threads|)) }

  /** A commit refreshes its own thread and makes others stale at most once. */
  lemma CommitWorks(s: System, s': System, t: nat)
    requires t < |s.threads| == |s'.threads| && s'.threads[t].phase.Finished? && !s.threads[t].phase.Finished?
    requires forall u :: 0 <= u < |s.threads| && u != t ==> s'.threads[u] == s.threads[u]
    ensures Work(s') < Work(s)
  {
    var n := |s.threads|;
    var f, g := Weigher(s.db, n), Weigher(s'.db, n);
    assert f(s.threads[t]) >= n && g(s'.threads[t]) == 0;
    TotalDrop(s.threads, s'.threads, f, g, t);
  }

  /** Every step makes progress: a conflict costs its thread one retry, and each commit
      can put at most one retry before each other thread. */
  lemma StepWorks(s: System, e: Event)
    requires Enabled(s, e)
    ensures Work(Apply(s, e)) < Work(s) && |Apply(s, e).threads| == |s.threads|
  {
    var s' := Apply(s, e);
    if s'.threads[e.t].phase.Finished? {
      CommitWorks(s, s', e.t);
    } else {
      TotalUpdate(s.threads, e.t, s'.threads[e.t], Weigher(s.db, |s.threads|));
    }
  }

  lemma {:induction false} RunWorks(s: System, es: seq<Event>)
    requires IsRun(s, es)
    ensures |es| + Work(Exec(s, es)) <= Work(s)
    decreases |es|
  {
    if |es| > 0 {
      StepWorks(s, es[0]);
      RunWorks(Apply(s, es[0]), es[1..]);
    }
  }

  /** No call retries for ever: n calls come to rest within n(n + 3) steps under every
      schedule, and a run that can go no further has finished every call. */
  lemma EveryCallFinishes(s: System, es: seq<Event>)
    requires Initial(s) && IsRun(s, es)
    ensures |es| <= (|s.threads| + 3) * |s.threads|
    ensures (forall e :: !Enabled(Exec(s, es), e)) ==>
              forall t :: 0 <= t < |Exec(s, es).threads| ==> Exec(s, es).threads[t].phase.Finished?
  {
    TotalConstant(s.threads, Weigher(s.db, |s.threads|), |s.threads| + 3);
    RunWorks(s, es);
    var s' := Exec(s, es);
    if forall e :: !Enabled(s', e) {
      forall t | 0 <= t < |s'.threads| ensures s'.threads[t].phase.Finished? {
        assert !Enabled(s', Invoke(t)) && !Enabled(s', Read(t)) && !Enabled(s', Attempt(t));
      }
    }
  }
}
