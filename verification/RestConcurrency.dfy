/** Requests served at the same time.  Every concurrent run of REST writes has an order
    of its finished calls, respecting real time, in which serving them one at a time
    leaves the same store and gives the same replies. */
module RestConcurrency {
  import opened Basics
  import opened EtcdStore
  import opened EtcdConcurrency
  import opened RestStore

  /** Thread t serves request reqs[t], which is not a read. */
  ghost predicate Serving(s: System, reqs: seq<Request>) {
    |reqs| == |s.threads| && forall t :: 0 <= t < |reqs| ==> !reqs[t].GetReq? && s.threads[t].call == CallOf(reqs[t])
  }

  ghost predicate Done(s: System, t: nat) { t < |s.threads| && s.threads[t].phase.Finished? }

  /** The log entry at its moment of effect is the call's own. */
  ghost predicate Wrote(s: System, t: nat)
    requires Done(s, t)
  {
    s.threads[t].phase.effect < |s.log| && s.log[s.threads[t].phase.effect].thread == t
  }

  // ---------- the order in which calls finish ----------

  ghost function FinishOrder(s: System, es: seq<Event>): seq<nat>
    requires IsRun(s, es)
    decreases |es|
  {
    if |es| == 0 then []
    else
      var s' := Apply(s, es[0]);
      (if s'.threads[es[0].t].phase.Finished? then [es[0].t] else []) + FinishOrder(s', es[1..])
  }

  ghost predicate Distinct(order: seq<nat>) { forall i, j :: 0 <= i < j < |order| ==> order[i] != order[j] }

  lemma AppendAssociates(a: seq<nat>, b: seq<nat>, c: seq<nat>)
    ensures (a + b) + c == a + (b + c)
  {
  }

  lemma DistinctAppend(a: seq<nat>, b: seq<nat>)
    requires Distinct(a) && Distinct(b) && forall t :: t in a ==> t !in b
    ensures Distinct(a + b)
  {
    forall i, j | 0 <= i < j < |a + b| ensures (a + b)[i] != (a + b)[j] {
      if i < |a| <= j { assert a[i] in a && b[j - |a|] in b; }
    }
  }

  /** One event finishes its own call or none. */
  lemma StepFinishes(s: System, e: Event)
    requires Enabled(s, e)
    ensures var s' := Apply(s, e);
            && |s'.threads| == |s.threads| && !Done(s, e.t) && s'.threads[e.t].call == s.threads[e.t].call
            && forall t :: 0 <= t < |s.threads| && t != e.t ==> s'.threads[t] == s.threads[t]
  {
  }

  lemma {:induction false} FinishOrderExact(s: System, es: seq<Event>)
    requires IsRun(s, es)
    ensures |Exec(s, es).threads| == |s.threads|
    ensures forall t: nat :: t in FinishOrder(s, es) <==> Done(Exec(s, es), t) && !Done(s, t)
    ensures forall t: nat :: Done(s, t) ==> Exec(s, es).threads[t] == s.threads[t]
    ensures forall t: nat :: t < |s.threads| ==> Exec(s, es).threads[t].call == s.threads[t].call
    ensures Distinct(FinishOrder(s, es))
    decreases |es|
  {
    if |es| > 0 {
      var s' := Apply(s, es[0]);
      StepFinishes(s, es[0]);
      FinishOrderExact(s', es[1..]);
      if Done(s', es[0].t) { DistinctAppend([es[0].t], FinishOrder(s', es[1..])); }
    }
  }

  lemma {:induction false} FinishOrderAppend(s: System, es: seq<Event>, more: seq<Event>)
    requires IsRun(s, es) && IsRun(Exec(s, es), more)
    ensures IsRun(s, es + more)
    ensures FinishOrder(s, es + more) == FinishOrder(s, es) + FinishOrder(Exec(s, es), more)
    decreases |es|
  {
    RunAppend(s, es, more);
    if |es| == 0 {
      assert es + more == more;
    } else {
      var s' := Apply(s, es[0]);
      var head: seq<nat> := if Done(s', es[0].t) then [es[0].t] else [];
      assert (es + more)[0] == es[0] && (es + more)[1..] == es[1..] + more;
      FinishOrderAppend(s', es[1..], more);
      AppendAssociates(head, FinishOrder(s', es[1..]), FinishOrder(Exec(s', es[1..]), more));
      assert FinishOrder(s, es) == head + FinishOrder(s', es[1..]);
      assert FinishOrder(s, es + more) == head + FinishOrder(s', es[1..] + more);
    }
  }

  // ---------- the serial order ----------

  /** The calls that took effect at moment e without writing, in the order they finished. */
  ghost function Quiet(s: System, fin: seq<nat>, e: nat): seq<nat> {
    if |fin| == 0 then []
    else
      var n := |fin| - 1;
      Quiet(s, fin[..n], e) + if IsQuiet(s, fin[n], e) then [fin[n]] else []
  }

  ghost predicate IsQuiet(s: System, t: nat, e: nat) {
    Done(s, t) && !Wrote(s, t) && s.threads[t].phase.effect == e
  }

  /** The calls of moment e: first those that did not write, then the one that did. */
  ghost function Moment(s: System, fin: seq<nat>, e: nat): seq<nat> {
    Quiet(s, fin, e) + if e < |s.log| then [s.log[e].thread] else []
  }

  ghost function Before(s: System, fin: seq<nat>, e: nat): seq<nat> {
    if e == 0 then [] else Before(s, fin, e - 1) + Moment(s, fin, e - 1)
  }

  ghost function Serial(s: System, fin: seq<nat>): seq<nat> { Before(s, fin, |s.log| + 1) }

  lemma {:induction false} QuietExact(s: System, fin: seq<nat>, e: nat)
    ensures forall t: nat :: t in Quiet(s, fin, e) <==> t in fin && IsQuiet(s, t, e)
    ensures Distinct(fin) ==> Distinct(Quiet(s, fin, e))
  {
    var n := |fin| - 1;
    if n >= 0 {
      QuietExact(s, fin[..n], e);
      assert fin == fin[..n] + [fin[n]];
    }
  }

  /** A finished call's place among the moments. */
  ghost predicate Within(s: System, t: nat, e: nat) { Done(s, t) && s.threads[t].phase.effect < e }

  lemma MomentExact(s: System, fin: seq<nat>, e: nat)
    requires LogInv(s) && e <= |s.log| && Distinct(fin)
    requires forall t: nat :: t in fin <==> Done(s, t)
    ensures forall t: nat :: t in Moment(s, fin, e) <==> Done(s, t) && s.threads[t].phase.effect == e
    ensures Distinct(Moment(s, fin, e))
  {
    QuietExact(s, fin, e);
  }

  lemma {:induction false} BeforeExact(s: System, fin: seq<nat>, e: nat)
    requires LogInv(s) && e <= |s.log| + 1 && Distinct(fin)
    requires forall t: nat :: t in fin <==> Done(s, t)
    ensures forall t: nat :: t in Before(s, fin, e) <==> Within(s, t, e)
    ensures Distinct(Before(s, fin, e))
  {
    if e > 0 {
      BeforeExact(s, fin, e - 1);
      MomentExact(s, fin, e - 1);
      DistinctAppend(Before(s, fin, e - 1), Moment(s, fin, e - 1));
    }
  }

  // ---------- the same store and the same replies ----------

  ghost predicate AllDone(s: System, order: seq<nat>) { forall k :: 0 <= k < |order| ==> Done(s, order[k]) }

  function Pick(reqs: seq<Request>, order: seq<nat>): seq<Request>
    requires forall k :: 0 <= k < |order| ==> order[k] < |reqs|
  {
    seq(|order|, k requires 0 <= k < |order| => reqs[order[k]])
  }

  ghost function ReplyOf(s: System, reqs: seq<Request>, t: nat): Reply
    requires Done(s, t) && |reqs| == |s.threads|
  {
    ReplyTo(reqs[t], s.threads[t].phase.answer)
  }

  /** Served one at a time in this order, the calls leave store now and are answered as
      they were. */
  ghost predicate Explains(db: Db, now: Db, s: System, reqs: seq<Request>, order: seq<nat>)
    requires |reqs| == |s.threads| && AllDone(s, order)
  {
    && StoreRun(db, Pick(reqs, order)) == now
    && forall k :: 0 <= k < |order| ==> Replies(db, Pick(reqs, order))[k] == ReplyOf(s, reqs, order[k])
  }

  lemma ExplainsMore(db: Db, now: Db, s: System, reqs: seq<Request>, order: seq<nat>, t: nat)
    requires |reqs| == |s.threads| && AllDone(s, order) && Explains(db, now, s, reqs, order) && Done(s, t)
    requires StoreStep(now, reqs[t]).1 == ReplyOf(s, reqs, t)
    ensures AllDone(s, order + [t]) && Explains(db, StoreStep(now, reqs[t]).0, s, reqs, order + [t])
  {
    var rs, more := Pick(reqs, order), Pick(reqs, order + [t]);
    assert more[..|more| - 1] == rs && more[|more| - 1] == reqs[t];
  }

  /** A finished call, served in one step at its moment, is answered as it was. */
  lemma AtItsMoment(db: Db, s: System, reqs: seq<Request>, t: nat)
    requires Inv(db, s) && Serving(s, reqs) && Done(s, t)
    ensures s.threads[t].phase.effect <= |s.log|
    ensures var e := s.threads[t].phase.effect;
            var now := Replay(db, s.log[..e]);
            && StoreStep(now, reqs[t]).1 == ReplyOf(s, reqs, t)
            && StoreStep(now, reqs[t]).0 == if Wrote(s, t) then Replay(db, s.log[..e + 1]) else now
  {
    assert ThreadInv(db, s, t);
    var e := s.threads[t].phase.effect;
    StoreStepIsCall(Replay(db, s.log[..e]), reqs[t]);
    if Wrote(s, t) {
      assert s.log[..e + 1][..e] == s.log[..e];
    }
  }

  lemma QuietOneExplains(db: Db, s: System, reqs: seq<Request>, order: seq<nat>, t: nat, e: nat)
    requires Inv(db, s) && Serving(s, reqs) && IsQuiet(s, t, e) && e <= |s.log|
    requires AllDone(s, order) && Explains(db, Replay(db, s.log[..e]), s, reqs, order)
    ensures AllDone(s, order + [t]) && Explains(db, Replay(db, s.log[..e]), s, reqs, order + [t])
  {
    AtItsMoment(db, s, reqs, t);
    ExplainsMore(db, Replay(db, s.log[..e]), s, reqs, order, t);
  }

  lemma WriterExplains(db: Db, s: System, reqs: seq<Request>, order: seq<nat>, e: nat)
    requires Inv(db, s) && Serving(s, reqs) && e < |s.log|
    requires AllDone(s, order) && Explains(db, Replay(db, s.log[..e]), s, reqs, order)
    ensures AllDone(s, order + [s.log[e].thread])
    ensures Explains(db, Replay(db, s.log[..e + 1]), s, reqs, order + [s.log[e].thread])
  {
    AtItsMoment(db, s, reqs, s.log[e].thread);
    ExplainsMore(db, Replay(db, s.log[..e]), s, reqs, order, s.log[e].thread);
  }

  lemma {:induction false} QuietExplains(
    db: Db, s: System, reqs: seq<Request>, order: seq<nat>, fin: seq<nat>, e: nat)
    requires Inv(db, s) && Serving(s, reqs) && e <= |s.log|
    requires AllDone(s, order) && Explains(db, Replay(db, s.log[..e]), s, reqs, order)
    ensures AllDone(s, order + Quiet(s, fin, e))
    ensures Explains(db, Replay(db, s.log[..e]), s, reqs, order + Quiet(s, fin, e))
  {
    var n := |fin| - 1;
    if n < 0 {
      assert order + [] == order;
    } else {
      QuietExplains(db, s, reqs, order, fin[..n], e);
      var quiet := Quiet(s, fin[..n], e);
      if IsQuiet(s, fin[n], e) {
        QuietOneExplains(db, s, reqs, order + quiet, fin[n], e);
        AppendAssociates(order, quiet, [fin[n]]);
      } else {
        assert quiet + [] == quiet;
      }
    }
  }

  lemma {:induction false} BeforeExplains(db: Db, s: System, reqs: seq<Request>, fin: seq<nat>, e: nat)
    requires Inv(db, s) && Serving(s, reqs) && e <= |s.log|
    ensures AllDone(s, Before(s, fin, e)) && Explains(db, Replay(db, s.log[..e]), s, reqs, Before(s, fin, e))
  {
    if e > 0 {
      var d := e - 1;
      var order, quiet := Before(s, fin, d), Quiet(s, fin, d);
      BeforeExplains(db, s, reqs, fin, d);
      QuietExplains(db, s, reqs, order, fin, d);
      WriterExplains(db, s, reqs, order + quiet, d);
      AppendAssociates(order, quiet, [s.log[d].thread]);
    }
  }

  lemma SerialExplains(db: Db, s: System, reqs: seq<Request>, fin: seq<nat>)
    requires Inv(db, s) && Serving(s, reqs)
    ensures AllDone(s, Serial(s, fin)) && Explains(db, s.db, s, reqs, Serial(s, fin))
  {
    var m := |s.log|;
    BeforeExplains(db, s, reqs, fin, m);
    QuietExplains(db, s, reqs, Before(s, fin, m), fin, m);
    assert s.log[..m] == s.log;
    assert Moment(s, fin, m) == Quiet(s, fin, m);
  }

  // ---------- real time ----------

  ghost predicate Precedes(order: seq<nat>, t: nat, u: nat) {
    exists i, j :: 0 <= i < j < |order| && order[i] == t && order[j] == u
  }

  lemma PrecedesAcross(a: seq<nat>, b: seq<nat>, t: nat, u: nat)
    requires t in a && u in b
    ensures Precedes(a + b, t, u)
  {
    var i :| 0 <= i < |a| && a[i] == t;
    var j :| 0 <= j < |b| && b[j] == u;
    assert (a + b)[i] == t && (a + b)[|a| + j] == u;
  }

  lemma PrecedesInside(a: seq<nat>, b: seq<nat>, t: nat, u: nat)
    ensures Precedes(a, t, u) ==> Precedes(a + b, t, u)
    ensures Precedes(b, t, u) ==> Precedes(a + b, t, u)
  {
    if Precedes(a, t, u) {
      var i, j :| 0 <= i < j < |a| && a[i] == t && a[j] == u;
      assert (a + b)[i] == t && (a + b)[j] == u;
    }
    if Precedes(b, t, u) {
      var i, j :| 0 <= i < j < |b| && b[i] == t && b[j] == u;
      assert (a + b)[|a| + i] == t && (a + b)[|a| + j] == u;
    }
  }

  lemma {:induction false} QuietKeepsOrder(s: System, fin: seq<nat>, e: nat, t: nat, u: nat)
    requires Precedes(fin, t, u) && IsQuiet(s, t, e) && IsQuiet(s, u, e)
    ensures Precedes(Quiet(s, fin, e), t, u)
  {
    var n := |fin| - 1;
    var i, j :| 0 <= i < j <= n && fin[i] == t && fin[j] == u;
    QuietExact(s, fin[..n], e);
    if j < n {
      assert fin[..n][i] == t && fin[..n][j] == u;
      QuietKeepsOrder(s, fin[..n], e, t, u);
      PrecedesInside(Quiet(s, fin[..n], e), if IsQuiet(s, fin[n], e) then [fin[n]] else [], t, u);
    } else {
      assert fin[..n][i] == t && t in fin[..n];
      PrecedesAcross(Quiet(s, fin[..n], e), [u], t, u);
    }
  }

  /** What comes before moment d keeps its order in what comes before a later moment e. */
  lemma {:induction false} BeforeKeepsOrder(s: System, fin: seq<nat>, d: nat, e: nat, t: nat, u: nat)
    requires d <= e && Precedes(Before(s, fin, d), t, u)
    ensures Precedes(Before(s, fin, e), t, u)
  {
    if d < e {
      BeforeKeepsOrder(s, fin, d, e - 1, t, u);
      PrecedesInside(Before(s, fin, e - 1), Moment(s, fin, e - 1), t, u);
    }
  }

  /** Two calls of one moment, the first of which did not write. */
  lemma MomentPrecedes(s: System, fin: seq<nat>, e: nat, t: nat, u: nat)
    requires Precedes(fin, t, u) && t in fin && u in fin
    requires IsQuiet(s, t, e) && Done(s, u) && s.threads[u].phase.effect == e
    ensures Precedes(Moment(s, fin, e), t, u)
  {
    QuietExact(s, fin, e);
    var quiet := Quiet(s, fin, e);
    var writer := if e < |s.log| then [s.log[e].thread] else [];
    if Wrote(s, u) {
      PrecedesAcross(quiet, writer, t, u);
    } else {
      QuietKeepsOrder(s, fin, e, t, u);
      PrecedesInside(quiet, writer, t, u);
    }
  }

  /** Two calls up to moment e. */
  lemma UptoPrecedes(s: System, fin: seq<nat>, t: nat, u: nat, e: nat)
    requires LogInv(s) && e <= |s.log| && Distinct(fin) && forall v: nat :: v in fin <==> Done(s, v)
    requires Done(s, t) && Done(s, u) && Precedes(fin, t, u)
    requires s.threads[t].phase.effect <= s.threads[u].phase.effect == e
    requires Wrote(s, t) ==> s.threads[t].phase.effect < e
    ensures Precedes(Before(s, fin, e + 1), t, u)
  {
    var before, moment := Before(s, fin, e), Moment(s, fin, e);
    if s.threads[t].phase.effect < e {
      BeforeExact(s, fin, e);
      MomentExact(s, fin, e);
      PrecedesAcross(before, moment, t, u);
    } else {
      MomentPrecedes(s, fin, e, t, u);
      PrecedesInside(before, moment, t, u);
    }
  }

  lemma SerialPrecedes(s: System, fin: seq<nat>, t: nat, u: nat)
    requires LogInv(s) && Distinct(fin) && forall v: nat :: v in fin <==> Done(s, v)
    requires Done(s, t) && Done(s, u) && Precedes(fin, t, u)
    requires s.threads[t].phase.effect <= s.threads[u].phase.effect <= |s.log|
    requires Wrote(s, t) ==> s.threads[t].phase.effect < s.threads[u].phase.effect
    ensures Precedes(Serial(s, fin), t, u)
  {
    var e := s.threads[u].phase.effect;
    UptoPrecedes(s, fin, t, u, e);
    BeforeKeepsOrder(s, fin, e + 1, |s.log| + 1, t, u);
  }

  /** After the first k events of the run, t had finished and u had not been invoked. */
  ghost predicate Earlier(s: System, es: seq<Event>, k: nat, t: nat, u: nat) {
    && k <= |es| && IsRun(s, es[..k])
    && Done(Exec(s, es[..k]), t)
    && u < |Exec(s, es[..k]).threads| && Exec(s, es[..k]).threads[u].phase.Idle?
  }

  lemma {:induction false} SplitRun(s: System, es: seq<Event>, k: nat)
    requires IsRun(s, es) && k <= |es|
    ensures IsRun(s, es[..k]) && IsRun(Exec(s, es[..k]), es[k..])
    ensures Exec(s, es) == Exec(Exec(s, es[..k]), es[k..])
    decreases k
  {
    if k == 0 {
      assert es[..0] == [] && es[0..] == es;
    } else {
      SplitRun(Apply(s, es[0]), es[1..], k - 1);
      assert es[..k][1..] == es[1..][..k - 1] && es[k..] == es[1..][k - 1..];
    }
  }

  /** A call that finished before another was invoked finishes first, */
  lemma EarlierFinishes(s: System, es: seq<Event>, more: seq<Event>, t: nat, u: nat)
    requires Initial(s) && IsRun(s, es) && IsRun(Exec(s, es), more)
    requires Done(Exec(s, es), t) && !Done(Exec(s, es), u) && Done(Exec(Exec(s, es), more), u)
    ensures IsRun(s, es + more) && Precedes(FinishOrder(s, es + more), t, u)
  {
    FinishOrderExact(s, es);
    FinishOrderExact(Exec(s, es), more);
    FinishOrderAppend(s, es, more);
    PrecedesAcross(FinishOrder(s, es), FinishOrder(Exec(s, es), more), t, u);
  }

  lemma {:induction false} LogGrows(s: System, es: seq<Event>)
    requires IsRun(s, es)
    ensures |s.log| <= |Exec(s, es).log| && Exec(s, es).log[..|s.log|] == s.log
    decreases |es|
  {
    if |es| > 0 {
      LogGrows(Apply(s, es[0]), es[1..]);
      assert Exec(s, es).log[..|Apply(s, es[0]).log|][..|s.log|] == Exec(s, es).log[..|s.log|];
    }
  }

  /** and takes effect first. */
  lemma EarlierTakesEffect(db: Db, s: System, es: seq<Event>, t: nat, u: nat)
    requires Inv(db, s) && IsRun(s, es) && Done(s, t) && Done(Exec(s, es), u)
    requires u < |s.threads| && s.threads[u].phase.Idle?
    ensures var s' := Exec(s, es);
            && Done(s', t) && s'.threads[t].phase.effect <= s'.threads[u].phase.effect <= |s'.log|
            && (Wrote(s', t) ==> s'.threads[t].phase.effect < s'.threads[u].phase.effect)
  {
    var s' := Exec(s, es);
    RunInv(db, s, es);
    FinishOrderExact(s, es);
    RealTimeOrder(db, s, es, t, u);
    LogGrows(s, es);
    EffectInLog(db, s', u);
    WroteThen(db, s, s', t);
  }

  lemma EffectInLog(db: Db, s: System, t: nat)
    requires Inv(db, s) && Done(s, t)
    ensures s.threads[t].phase.effect <= |s.log|
  {
    assert ThreadInv(db, s, t);
  }

  /** Whether a finished call has written does not depend on what happens later. */
  lemma WroteThen(db: Db, s: System, s': System, t: nat)
    requires Inv(db, s) && Inv(db, s') && Done(s, t) && Done(s', t) && s'.threads[t] == s.threads[t]
    requires |s.log| <= |s'.log| && s'.log[..|s.log|] == s.log
    ensures Wrote(s', t) ==> Committed(s, t)
  {
    assert ThreadInv(db, s, t) && ThreadInv(db, s', t);
    var e := s.threads[t].phase.effect;
    assert e < |s.log| ==> s'.log[e] == s'.log[..|s.log|][e];
    assert s'.log[..e] == s.log[..e];
  }

  lemma EarlierPrecedes(s: System, es: seq<Event>, k: nat, t: nat, u: nat)
    requires Initial(s) && IsRun(s, es) && Earlier(s, es, k, t, u) && Done(Exec(s, es), u)
    ensures Precedes(Serial(Exec(s, es), FinishOrder(s, es)), t, u)
  {
    SplitRun(s, es, k);
    assert es[..k] + es[k..] == es;
    InitialInv(s);
    RunInv(s.db, s, es[..k]);
    RunInv(s.db, s, es);
    FinishOrderExact(s, es);
    EarlierFinishes(s, es[..k], es[k..], t, u);
    EarlierTakesEffect(s.db, Exec(s, es[..k]), es[k..], t, u);
    SerialPrecedes(Exec(s, es), FinishOrder(s, es), t, u);
  }

  // ---------- the whole ----------

  /** For every concurrent run of REST writes there is an order of the finished calls,
      each once, in which serving them one at a time leaves the same store and gives the
      same replies; and a call that finished before another was invoked comes first. */
  lemma ConcurrentIsSerial(s: System, es: seq<Event>, reqs: seq<Request>) returns (order: seq<nat>)
    requires Initial(s) && IsRun(s, es) && Serving(s, reqs)
    ensures Distinct(order) && forall t: nat :: t in order <==> Done(Exec(s, es), t)
    ensures |reqs| == |Exec(s, es).threads| && AllDone(Exec(s, es), order)
    ensures Explains(s.db, Exec(s, es).db, Exec(s, es), reqs, order)
    ensures forall k: nat, t: nat, u: nat :: Earlier(s, es, k, t, u) && Done(Exec(s, es), u) ==> Precedes(order, t, u)
  {
    var s', fin := Exec(s, es), FinishOrder(s, es);
    order := Serial(s', fin);
    InitialInv(s);
    RunInv(s.db, s, es);
    FinishOrderExact(s, es);
    SerialExplains(s.db, s', reqs, fin);
    BeforeExact(s', fin, |s'.log| + 1);
    forall t: nat | Done(s', t) ensures Within(s', t, |s'.log| + 1) {
      assert ThreadInv(s.db, s', t);
    }
    forall k: nat, t: nat, u: nat | Earlier(s, es, k, t, u) && Done(s', u) ensures Precedes(order, t, u) {
      EarlierPrecedes(s, es, k, t, u);
    }
  }

  /** An update or delete request that gives resource version v. */
  predicate Gives(r: Request, v: string) {
    (r.UpdateReq? || r.DeleteReq?) && r.pre.Some? && r.pre.value.resourceVersion == Some(v)
  }

  /** Of two requests on one name that give one nonempty resource version, at most one
      changes the store, in every concurrent run. */
  lemma NoLostRequest(s: System, es: seq<Event>, reqs: seq<Request>, t: nat, u: nat, v: string)
    requires Initial(s) && IsRun(s, es) && Serving(s, reqs)
    requires t < |reqs| && u < |reqs| && t != u && reqs[t].Name() == reqs[u].Name()
    requires Gives(reqs[t], v) && Gives(reqs[u], v) && v != ""
    ensures !(Committed(Exec(s, es), t) && Committed(Exec(s, es), u))
  {
    InitialInv(s);
    RunInv(s.db, s, es);
    FinishOrderExact(s, es);
    NoLostUpdate(s.db, Exec(s, es), t, u, v);
  }

  /** So concurrent writes, too, leave what a namespaced store would hold, as long as no
      name is used in two namespaces. */
  lemma ConcurrentNamespaced(s: System, es: seq<Event>, reqs: seq<Request>, rev: nat, places: Places)
    returns (order: seq<nat>)
    requires Initial(s) && s.db == Db(map[], rev) && IsRun(s, es) && Serving(s, reqs)
    requires NamesUnique(places) && Over(reqs, places)
    ensures |reqs| == |Exec(s, es).threads| && AllDone(Exec(s, es), order)
    ensures Explains(s.db, Exec(s, es).db, Exec(s, es), reqs, order)
    ensures Represents(Exec(s, es).db, SpacedRan(Pick(reqs, order), rev), places)
  {
    order := ConcurrentIsSerial(s, es, reqs);
    RunRepresents(Pick(reqs, order), rev, places);
  }
}
