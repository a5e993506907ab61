/** Whole runs of a shared informer factory used by any number of threads.  Each
    locked region is one event; WaitForCacheSync is one snapshot event followed by
    its per-informer polls, which interleave freely with everything else. */
module InformerRuns {
  import opened Basics
  import opened InformerFactory
  import opened Orders

  /** One result of cache.WaitForCacheSync and the moment it was decided. */
  datatype Entry = Entry(ok: bool, at: nat)

  /** A WaitForCacheSync call past its snapshot, which it took at moment since. */
  datatype Waiter = Waiter(
    since: nat, stopCh: StopCh, snapshot: map<TypeId, InformerId>,
    current: Option<TypeId>, missed: bool, res: map<TypeId, Entry>, returned: bool)

  datatype Config = Config(f: Registry, synced: set<InformerId>, closed: set<StopCh>, waiters: seq<Waiter>)

  datatype Event =
    | Ask(t: TypeId, newFunc: Duration -> InformerId)   // InformerFor
    | Start(ch: StopCh, order: seq<TypeId>)
    | SetSynced(x: InformerId, now: bool)               // HasSynced changes
    | Close(ch: StopCh)
    | Snapshot(ch: StopCh)
    | Pick(w: nat, t: TypeId)                           // next key of the range loop
    | PollHit(w: nat)
    | PollMiss(w: nat)
    | GiveUp(w: nat)                                    // stop channel closed after a failed poll
    | Return(w: nat)

  ghost predicate Enabled(c: Config, e: Event) {
    match e
    case Ask(_, _) => true
    case Start(_, order) => IsOrder(order, c.f.informers.Keys)
    case SetSynced(_, _) => true
    case Close(_) => true
    case Snapshot(_) => true
    case Pick(w, t) =>
      && w < |c.waiters| && c.waiters[w].current.None?
      && t in c.waiters[w].snapshot && t !in c.waiters[w].res
    case PollHit(w) => Polling(c, w) && Target(c, w) in c.synced
    case PollMiss(w) => Polling(c, w) && Target(c, w) !in c.synced
    case GiveUp(w) => Polling(c, w) && c.waiters[w].missed && c.waiters[w].stopCh in c.closed
    case Return(w) =>
      && w < |c.waiters| && c.waiters[w].current.None?
      && c.waiters[w].res.Keys == c.waiters[w].snapshot.Keys
  }

  ghost predicate Polling(c: Config, w: nat) {
    w < |c.waiters| && c.waiters[w].current.Some? && c.waiters[w].current.value in c.waiters[w].snapshot
  }

  ghost function Target(c: Config, w: nat): InformerId
    requires Polling(c, w)
  {
    c.waiters[w].snapshot[c.waiters[w].current.value]
  }

  ghost function Apply(c: Config, e: Event, now: nat): Config
    requires Enabled(c, e)
  {
    match e
    case Ask(t, newFunc) => c.(f := c.f.Ask(t, newFunc))
    case Start(ch, order) => c.(f := c.f.Start(ch, order))
    case SetSynced(x, on) => c.(synced := if on then c.synced + {x} else c.synced - {x})
    case Close(ch) => c.(closed := c.closed + {ch})
    case Snapshot(ch) => c.(waiters := c.waiters + [Waiter(now, ch, c.f.StartedInformers(), None, false, map[], false)])
    case Pick(w, t) => Put(c, w, c.waiters[w].(current := Some(t), missed := false))
    case PollHit(w) => Put(c, w, Record(c.waiters[w], Entry(true, now)))
    case PollMiss(w) => Put(c, w, c.waiters[w].(missed := true))
    case GiveUp(w) => Put(c, w, Record(c.waiters[w], Entry(false, now)))
    case Return(w) => Put(c, w, c.waiters[w].(returned := true))
  }

  function Put(c: Config, w: nat, x: Waiter): Config
    requires w < |c.waiters|
  {
    c.(waiters := c.waiters[w := x])
  }

  function Record(x: Waiter, e: Entry): Waiter
    requires x.current.Some?
  {
    x.(res := x.res[x.current.value := e], current := None, missed := false)
  }

  /** A freshly constructed factory, nothing synced, nobody waiting. */
  ghost predicate Fresh(c: Config) {
    c.f.informers == map[] && c.f.started == map[] && c.f.runs == [] && c.f.builds == [] && c.waiters == []
  }

  ghost predicate IsRun(c: Config, es: seq<Event>)
    decreases |es|, 0
  {
    |es| == 0 || (IsRun(c, es[..|es| - 1]) && Enabled(Exec(c, es[..|es| - 1]), es[|es| - 1]))
  }

  ghost function Exec(c: Config, es: seq<Event>): Config
    requires IsRun(c, es)
    decreases |es|, 1
  {
    if |es| == 0 then c else Apply(Exec(c, es[..|es| - 1]), es[|es| - 1], |es| - 1)
  }

  /** The configuration at moment k of a run. */
  ghost function At(c: Config, es: seq<Event>, k: nat): Config
    requires IsRun(c, es) && k <= |es|
  {
    PrefixIsRun(c, es, k);
    Exec(c, es[..k])
  }

  lemma {:induction false} PrefixIsRun(c: Config, es: seq<Event>, k: nat)
    requires IsRun(c, es) && k <= |es|
    ensures IsRun(c, es[..k])
  {
    if k == |es| {
      assert es[..k] == es;
    } else {
      PrefixIsRun(c, es[..|es| - 1], k);
      assert es[..|es| - 1][..k] == es[..k];
    }
  }

  lemma AtPrefix(c: Config, es: seq<Event>, j: nat, k: nat)
    requires IsRun(c, es) && k <= j <= |es|
    ensures IsRun(c, es[..j]) && At(c, es[..j], k) == At(c, es, k)
  {
    PrefixIsRun(c, es, j);
    assert es[..j][..k] == es[..k];
  }

  // ---------- start once, construct once ----------

  /** The constructor passed by the first InformerFor of type t, if any thread asked for it. */
  function FirstRequest(es: seq<Event>, t: TypeId): Option<Duration -> InformerId> {
    if |es| == 0 then None
    else
      var earlier, e := FirstRequest(es[..|es| - 1], t), es[|es| - 1];
      if earlier.Some? then earlier
      else if e.Ask? && e.t == t then Some(e.newFunc)
      else None
  }

  /** The stop channel of the first Start that comes after an InformerFor of type t. */
  function FirstStop(es: seq<Event>, t: TypeId): Option<StopCh> {
    if |es| == 0 then None
    else
      var init, e := es[..|es| - 1], es[|es| - 1];
      var earlier := FirstStop(init, t);
      if earlier.Some? then earlier
      else if e.Start? && FirstRequest(init, t).Some? then Some(e.ch)
      else None
  }

  ghost predicate TypeHistory(f: Registry, es: seq<Event>, t: TypeId) {
    var request, stop := FirstRequest(es, t), FirstStop(es, t);
    && (t in f.informers <==> request.Some?)
    && (request.Some? ==> f.informers[t] == request.value(if t in f.custom then f.custom[t] else f.defaultResync))
    && (f.Started(t) <==> stop.Some?)
    && (stop.Some? ==> t in f.informers && RunsOf(f.runs, t) == [Run(t, f.informers[t], stop.value)])
    && (stop.None? ==> RunsOf(f.runs, t) == [])
  }

  /** For every interleaving, an informer is run at most once, exactly when some Start
      follows a request for it, and always with the stop channel of the first such
      Start; a type is registered exactly when it was asked for, with the informer the
      first request's constructor made, called exactly once and with the custom period
      if there is one. */
  lemma {:induction false} StartOnce(c: Config, es: seq<Event>, t: TypeId)
    requires Fresh(c) && IsRun(c, es)
    ensures Exec(c, es).f.Inv()
    ensures Exec(c, es).f.custom == c.f.custom && Exec(c, es).f.defaultResync == c.f.defaultResync
    ensures TypeHistory(Exec(c, es).f, es, t)
  {
    var n := |es| - 1;
    if n >= 0 {
      StartOnce(c, es[..n], t);
      ExecLast(c, es);
      RegistryStep(Exec(c, es[..n]).f, es, t);
    }
  }

  lemma ExecLast(c: Config, es: seq<Event>)
    requires |es| > 0 && IsRun(c, es)
    ensures var n := |es| - 1;
            var before := Exec(c, es[..n]).f;
            Exec(c, es).f == AfterLast(before, es) && (es[n].Start? ==> IsOrder(es[n].order, before.informers.Keys))
  {
  }

  /** What the last event of a run makes of the registry. */
  ghost function AfterLast(f: Registry, es: seq<Event>): Registry
    requires |es| > 0
  {
    match es[|es| - 1]
    case Ask(u, newFunc) => f.Ask(u, newFunc)
    case Start(ch, order) => f.Start(ch, order)
    case _ => f
  }

  lemma RegistryStep(f: Registry, es: seq<Event>, t: TypeId)
    requires |es| > 0 && f.Inv() && TypeHistory(f, es[..|es| - 1], t)
    requires es[|es| - 1].Start? ==> IsOrder(es[|es| - 1].order, f.informers.Keys)
    ensures var f' := AfterLast(f, es);
            f'.Inv() && TypeHistory(f', es, t) && f'.custom == f.custom && f'.defaultResync == f.defaultResync
  {
    match es[|es| - 1]
    case Ask(u, newFunc) =>
      AskInv(f, u, newFunc);
      HistoryAfterAsk(f, es, t);
    case Start(ch, order) =>
      StartInv(f, ch, order);
      HistoryAfterStart(f, es, t);
    case _ =>
  }

  lemma HistoryAfterAsk(f: Registry, es: seq<Event>, t: TypeId)
    requires |es| > 0 && es[|es| - 1].Ask? && f.RunsInv() && TypeHistory(f, es[..|es| - 1], t)
    ensures TypeHistory(f.Ask(es[|es| - 1].t, es[|es| - 1].newFunc), es, t)
  {
  }

  lemma HistoryAfterStart(f: Registry, es: seq<Event>, t: TypeId)
    requires |es| > 0 && TypeHistory(f, es[..|es| - 1], t)
    requires es[|es| - 1].Start? && IsOrder(es[|es| - 1].order, f.informers.Keys)
    ensures var e := es[|es| - 1];
            var f' := f.Start(e.ch, e.order);
            TypeHistory(f', es, t) && f'.custom == f.custom && f'.defaultResync == f.defaultResync
  {
    var e := es[|es| - 1];
    StartEffect(f, e.ch, e.order, t);
    assert t in e.order <==> t in f.informers;
    assert RunsOf(f.runs, t) + [] == RunsOf(f.runs, t);
  }

  /** A registered informer is never replaced or removed, so every InformerFor of a
      type, at any moment and by any thread, returns the same informer. */
  lemma {:induction false} InformersAreStable(c: Config, es: seq<Event>, k: nat, t: TypeId)
    requires Fresh(c) && IsRun(c, es) && k <= |es|
    ensures t in At(c, es, k).f.informers ==>
              t in Exec(c, es).f.informers && Exec(c, es).f.informers[t] == At(c, es, k).f.informers[t]
    ensures At(c, es, k).f.Started(t) ==> Exec(c, es).f.Started(t)
  {
    if k == |es| {
      assert es[..k] == es;
    } else {
      var n := |es| - 1;
      InformersAreStable(c, es[..n], k, t);
      AtPrefix(c, es, n, k);
      var f := Exec(c, es[..n]).f;
      match es[n]
      case Start(ch, order) => StartEffect(f, ch, order, t);
      case _ =>
    }
  }

  // ---------- WaitForCacheSync ----------

  /** At some moment of the call, informer x had not synced. */
  ghost predicate UnsyncedBetween(c: Config, es: seq<Event>, x: InformerId, from: nat, to: nat)
    requires IsRun(c, es) && to <= |es|
  {
    exists m :: from <= m < to && x !in At(c, es, m).synced
  }

  ghost predicate EntryJustified(c: Config, es: seq<Event>, x: Waiter, t: TypeId)
    requires IsRun(c, es) && t in x.res
  {
    var e := x.res[t];
    && t in x.snapshot
    && x.since <= e.at < |es|
    && (if e.ok then x.snapshot[t] in At(c, es, e.at).synced
        else x.stopCh in At(c, es, e.at).closed && UnsyncedBetween(c, es, x.snapshot[t], x.since, e.at))
  }

  /** What a WaitForCacheSync call in progress, or returned, knows about the run. */
  ghost predicate WaiterInv(c: Config, es: seq<Event>, x: Waiter)
    requires IsRun(c, es)
  {
    && x.since < |es| && es[x.since] == Snapshot(x.stopCh)
    && x.snapshot == At(c, es, x.since).f.StartedInformers()
    && (forall t :: t in x.res ==> EntryJustified(c, es, x, t))
    && (x.current.Some? ==> x.current.value in x.snapshot)
    && (x.current.Some? && x.missed ==> UnsyncedBetween(c, es, x.snapshot[x.current.value], x.since, |es|))
    && (x.returned ==> x.res.Keys == x.snapshot.Keys && x.current.None?)
  }

  lemma WaiterKept(c: Config, es: seq<Event>, x: Waiter)
    requires |es| > 0 && IsRun(c, es) && WaiterInv(c, es[..|es| - 1], x)
    ensures WaiterInv(c, es, x)
  {
    var n := |es| - 1;
    AtPrefix(c, es, n, x.since);
    forall t | t in x.res ensures EntryJustified(c, es, x, t) {
      assert EntryJustified(c, es[..n], x, t);
      AtPrefix(c, es, n, x.res[t].at);
      if !x.res[t].ok { UnsyncedKept(c, es, x.snapshot[t], x.since, x.res[t].at); }
    }
    if x.current.Some? && x.missed {
      UnsyncedKept(c, es, x.snapshot[x.current.value], x.since, n);
    }
  }

  lemma UnsyncedKept(c: Config, es: seq<Event>, x: InformerId, from: nat, to: nat)
    requires |es| > 0 && IsRun(c, es) && to <= |es| - 1 && UnsyncedBetween(c, es[..|es| - 1], x, from, to)
    ensures UnsyncedBetween(c, es, x, from, to)
    ensures UnsyncedBetween(c, es, x, from, |es|)
  {
    var n := |es| - 1;
    var m :| from <= m < to && x !in At(c, es[..n], m).synced;
    AtPrefix(c, es, n, m);
    assert x !in At(c, es, m).synced;
  }

  /** Snapshot semantics of WaitForCacheSync, for every call in every run: its
      snapshot event is the one at since, with its own stop channel; its keys
      are the types started at that moment, whatever Start and
      InformerFor do afterwards; every true entry was synced at some moment of the
      call, every false entry was seen unsynced and given up on a closed channel. */
  lemma {:induction false} SnapshotSemantics(c: Config, es: seq<Event>)
    requires Fresh(c) && IsRun(c, es)
    ensures forall x :: x in Exec(c, es).waiters ==> WaiterInv(c, es, x)
  {
    var n := |es| - 1;
    if n >= 0 {
      var init, e := es[..n], es[n];
      SnapshotSemantics(c, init);
      var before := Exec(c, init);
      AtPrefix(c, es, n, n);
      assert init[..n] == init && At(c, es, n) == before;
      forall x | x in Exec(c, es).waiters ensures WaiterInv(c, es, x) {
        if x in before.waiters {
          WaiterKept(c, es, x);
        } else {
          WaiterMoved(c, init, es, before, x);
        }
      }
    }
  }

  /** The waiter an event creates or changes. */
  lemma WaiterMoved(c: Config, init: seq<Event>, es: seq<Event>, before: Config, x: Waiter)
    requires |es| > 0 && IsRun(c, es) && init == es[..|es| - 1]
    requires before == Exec(c, init) == At(c, es, |es| - 1)
    requires forall y :: y in before.waiters ==> WaiterInv(c, init, y)
    requires x in Exec(c, es).waiters && x !in before.waiters
    ensures WaiterInv(c, es, x)
  {
    var n := |es| - 1;
    var e := es[n];
    if e.Snapshot? {
      assert x == Waiter(n, e.ch, before.f.StartedInformers(), None, false, map[], false);
    } else if e.Pick? || e.PollHit? || e.PollMiss? || e.GiveUp? || e.Return? {
      var y := before.waiters[e.w];
      assert y in before.waiters && x == Exec(c, es).waiters[e.w];
      WaiterKept(c, es, y);
      if e.PollHit? || e.GiveUp? {
        WaiterRecords(c, es, before, e.w);
      } else {
        WaiterPolls(c, es, before, e.w);
      }
    } else {
      assert false;
    }
  }

  /** Picking a key, seeing it unsynced, returning: nothing is recorded. */
  lemma WaiterPolls(c: Config, es: seq<Event>, before: Config, w: nat)
    requires |es| > 0 && IsRun(c, es) && before == Exec(c, es[..|es| - 1]) == At(c, es, |es| - 1)
    requires var e := es[|es| - 1]; (e.Pick? || e.PollMiss? || e.Return?) && e.w == w
    requires w < |before.waiters| && WaiterInv(c, es, before.waiters[w])
    ensures w < |Exec(c, es).waiters| && WaiterInv(c, es, Exec(c, es).waiters[w])
  {
    var n := |es| - 1;
    var x, y := Exec(c, es).waiters[w], before.waiters[w];
    assert es[n].PollMiss? ==> x.snapshot[x.current.value] !in At(c, es, n).synced;
    forall t | t in x.res ensures EntryJustified(c, es, x, t) {
      assert EntryJustified(c, es, y, t);
    }
  }

  /** Seeing it synced, or giving up on a closed channel. */
  lemma WaiterRecords(c: Config, es: seq<Event>, before: Config, w: nat)
    requires |es| > 0 && IsRun(c, es) && before == Exec(c, es[..|es| - 1]) == At(c, es, |es| - 1)
    requires var e := es[|es| - 1]; (e.PollHit? || e.GiveUp?) && e.w == w
    requires w < |before.waiters| && WaiterInv(c, es, before.waiters[w])
    requires WaiterInv(c, es[..|es| - 1], before.waiters[w])
    ensures w < |Exec(c, es).waiters| && WaiterInv(c, es, Exec(c, es).waiters[w])
  {
    var e := es[|es| - 1];
    var x, y := Exec(c, es).waiters[w], before.waiters[w];
    if e.GiveUp? { UnsyncedKept(c, es, y.snapshot[y.current.value], y.since, |es| - 1); }
    EntriesAfterRecord(c, es, y, x, e.PollHit?);
  }

  lemma EntriesAfterRecord(c: Config, es: seq<Event>, y: Waiter, x: Waiter, ok: bool)
    requires |es| > 0 && IsRun(c, es) && WaiterInv(c, es, y) && y.current.Some?
    requires x == Record(y, Entry(ok, |es| - 1))
    requires var target := y.snapshot[y.current.value];
             if ok then target in At(c, es, |es| - 1).synced
             else y.stopCh in At(c, es, |es| - 1).closed && UnsyncedBetween(c, es, target, y.since, |es| - 1)
    ensures forall t :: t in x.res ==> EntryJustified(c, es, x, t)
  {
    forall t | t in x.res ensures EntryJustified(c, es, x, t) {
      if t != y.current.value {
        assert EntryJustified(c, es, y, t);
      }
    }
  }

  /** A waiter's snapshot written out: the types that some Start followed a request for,
      by the moment of the snapshot, each with the informer registered for it then. */
  lemma SnapshotIsStarted(c: Config, es: seq<Event>, x: Waiter, t: TypeId)
    requires Fresh(c) && IsRun(c, es) && x in Exec(c, es).waiters
    ensures x.since < |es|
    ensures t in x.snapshot <==> FirstStop(es[..x.since], t).Some?
    ensures t in x.snapshot ==>
              t in At(c, es, x.since).f.informers && x.snapshot[t] == At(c, es, x.since).f.informers[t]
    ensures x.returned ==> (t in x.res <==> t in x.snapshot)
  {
    SnapshotSemantics(c, es);
    assert WaiterInv(c, es, x);
    PrefixIsRun(c, es, x.since);
    StartOnce(c, es[..x.since], t);
  }

  /** The options a factory was made with decide every resync period its informers ever
      get: the one of the last option that mentions the type, or the default. */
  lemma PeriodsFromOptions(
    options: seq<FactoryOption>, orders: seq<seq<Object>>, c: Config, es: seq<Event>, t: TypeId)
    returns (k: int, key: Object)
    requires OrdersFit(options, orders) && Fresh(c) && c.f.custom == FoldOptions(options, orders).custom
    requires IsRun(c, es)
    ensures -1 <= k < |options| && forall j :: k < j < |options| ==> !MentionsType(options[j], t)
    ensures k >= 0 ==> options[k].WithCustomResyncConfig? && key in options[k].config && key.t == t
    ensures var period := if k < 0 then c.f.defaultResync else options[k].config[key];
            var f := Exec(c, es).f;
            && (forall i :: 0 <= i < |f.builds| && f.builds[i].t == t ==> f.builds[i].resync == period)
            && (FirstRequest(es, t).Some? ==>
                  t in f.informers && f.informers[t] == FirstRequest(es, t).value(period) && HasBuild(f.builds, t))
  {
    k, key := LastCustomResyncWins(options, orders, t);
    StartOnce(c, es, t);
  }

  // ---------- waiting ends ----------

  /** Extends a run by one event. */
  lemma Extend(c: Config, es: seq<Event>, e: Event) returns (fs: seq<Event>)
    requires IsRun(c, es) && Enabled(Exec(c, es), e)
    ensures fs == es + [e] && IsRun(c, fs) && Exec(c, fs) == Apply(Exec(c, es), e, |es|)
  {
    fs := es + [e];
    assert fs[..|es|] == es;
  }

  /** A call whose stop channel is closed, or whose informers have all synced. */
  ghost predicate CanEnd(c: Config, x: Waiter) {
    x.stopCh in c.closed || forall t :: t in x.snapshot ==> x.snapshot[t] in c.synced
  }

  /** The type being polled is decided: true if its informer has synced, else after one
      failed poll the call gives up on it.  One event or two, the last at moment now. */
  lemma HitDecides(c: Config, w: nat, now: nat)
    requires Polling(c, w) && Target(c, w) in c.synced
    ensures Enabled(c, PollHit(w)) && Apply(c, PollHit(w), now) == Put(c, w, Record(c.waiters[w], Entry(true, now)))
  {
  }

  lemma MissDecides(c: Config, w: nat, now: nat)
    requires Polling(c, w) && Target(c, w) !in c.synced && c.waiters[w].stopCh in c.closed
    ensures Enabled(c, PollMiss(w)) && Enabled(Apply(c, PollMiss(w), now), GiveUp(w))
    ensures Apply(Apply(c, PollMiss(w), now), GiveUp(w), now + 1)
            == Put(c, w, Record(c.waiters[w], Entry(false, now + 1)))
  {
    var x := c.waiters[w].(missed := true);
    assert Apply(c, PollMiss(w), now) == Put(c, w, x);
    assert Record(x, Entry(false, now + 1)) == Record(c.waiters[w], Entry(false, now + 1));
  }

  /** From here the run can go on, by the waiter's own steps, to a configuration. */
  ghost predicate Leads(c: Config, es: seq<Event>, fs: seq<Event>, to: Config) {
    |fs| > |es| && fs[..|es|] == es && IsRun(c, fs) && Exec(c, fs) == to
  }

  lemma HitRun(c: Config, es: seq<Event>, now: Config, w: nat) returns (fs: seq<Event>)
    requires IsRun(c, es) && now == Exec(c, es) && Polling(now, w) && Target(now, w) in now.synced
    ensures |fs| > |es| && Leads(c, es, fs, Put(now, w, Record(now.waiters[w], Entry(true, |fs| - 1))))
  {
    HitDecides(now, w, |es|);
    fs := Extend(c, es, PollHit(w));
  }

  lemma MissRun(c: Config, es: seq<Event>, now: Config, w: nat) returns (fs: seq<Event>)
    requires IsRun(c, es) && now == Exec(c, es) && Polling(now, w) && Target(now, w) !in now.synced
    requires now.waiters[w].stopCh in now.closed
    ensures |fs| > |es| && Leads(c, es, fs, Put(now, w, Record(now.waiters[w], Entry(false, |fs| - 1))))
  {
    MissDecides(now, w, |es|);
    var gs := Extend(c, es, PollMiss(w));
    fs := Extend(c, gs, GiveUp(w));
    assert fs[..|es|] == gs[..|es|];
  }

  lemma PickRun(c: Config, es: seq<Event>, now: Config, w: nat, t: TypeId) returns (fs: seq<Event>)
    requires IsRun(c, es) && now == Exec(c, es) && w < |now.waiters|
    requires now.waiters[w].current.None? && t in now.waiters[w].snapshot && t !in now.waiters[w].res
    ensures Leads(c, es, fs, Put(now, w, now.waiters[w].(current := Some(t), missed := false)))
  {
    fs := Extend(c, es, Pick(w, t));
  }

  /** Takes one type and decides it. */
  lemma Decide(c: Config, es: seq<Event>, w: nat, t: TypeId) returns (fs: seq<Event>)
    requires IsRun(c, es) && w < |Exec(c, es).waiters|
    requires var x := Exec(c, es).waiters[w];
             CanEnd(Exec(c, es), x) && t in x.snapshot && x.current.None? && t !in x.res
    ensures |fs| > |es|
    ensures var before := Exec(c, es);
            var x := before.waiters[w];
            var e := Entry(x.snapshot[t] in before.synced, |fs| - 1);
            Leads(c, es, fs, Put(before, w, x.(current := None, missed := false, res := x.res[t := e])))
  {
    var before := Exec(c, es);
    var x := before.waiters[w];
    var picked := Put(before, w, x.(current := Some(t), missed := false));
    var gs := PickRun(c, es, before, w, t);
    if x.snapshot[t] in before.synced {
      fs := HitRun(c, gs, picked, w);
    } else {
      fs := MissRun(c, gs, picked, w);
    }
    assert fs[..|es|] == fs[..|gs|][..|es|];
  }

  lemma AnswersWithin(c: Config, es: seq<Event>, x: Waiter)
    requires Fresh(c) && IsRun(c, es) && x in Exec(c, es).waiters
    ensures x.res.Keys <= x.snapshot.Keys
  {
    SnapshotSemantics(c, es);
    assert WaiterInv(c, es, x);
    forall t | t in x.res ensures t in x.snapshot {
      assert EntryJustified(c, es, x, t);
    }
  }

  /** Waiter x has become y, which has returned; what was open is answered by synced. */
  ghost predicate Ended(x: Waiter, y: Waiter, synced: set<InformerId>) {
    && y.returned && y.snapshot == x.snapshot && y.res.Keys == x.snapshot.Keys
    && forall t :: t in x.snapshot ==>
         if t in x.res then y.res[t] == x.res[t] else (y.res[t].ok <==> x.snapshot[t] in synced)
  }

  function Open(x: Waiter): set<TypeId> { x.snapshot.Keys - x.res.Keys }

  /** One type decided, and the rest after it. */
  lemma EndedMore(x: Waiter, y: Waiter, z: Waiter, synced: set<InformerId>, t: TypeId, at: nat)
    requires t in x.snapshot && t !in x.res
    requires y == x.(current := None, missed := false, res := x.res[t := Entry(x.snapshot[t] in synced, at)])
    ensures Open(y) == Open(x) - {t}
    ensures Ended(y, z, synced) ==> Ended(x, z, synced)
  {
  }

  /** Takes one open type and decides it; whatever ends the call now, ends it from before. */
  lemma DecideOne(c: Config, es: seq<Event>, w: nat) returns (fs: seq<Event>)
    requires IsRun(c, es) && w < |Exec(c, es).waiters|
    requires var x := Exec(c, es).waiters[w];
             CanEnd(Exec(c, es), x) && x.current.None? && Open(x) != {}
    ensures |fs| > |es| && fs[..|es|] == es && IsRun(c, fs) && w < |Exec(c, fs).waiters|
    ensures var before, after := Exec(c, es), Exec(c, fs);
            var x, y := before.waiters[w], after.waiters[w];
            && y.current.None? && CanEnd(after, y) && after.synced == before.synced && |Open(y)| < |Open(x)|
            && forall z :: Ended(y, z, before.synced) ==> Ended(x, z, before.synced)
  {
    var x, synced := Exec(c, es).waiters[w], Exec(c, es).synced;
    var t :| t in Open(x);
    fs := Decide(c, es, w, t);
    var y := Exec(c, fs).waiters[w];
    forall z ensures Ended(y, z, synced) ==> Ended(x, z, synced) {
      EndedMore(x, y, z, synced, t, |fs| - 1);
    }
    EndedMore(x, y, y, synced, t, |fs| - 1);
  }

  lemma ReturnNow(c: Config, es: seq<Event>, w: nat) returns (fs: seq<Event>)
    requires Fresh(c) && IsRun(c, es) && w < |Exec(c, es).waiters|
    requires Exec(c, es).waiters[w].current.None? && Open(Exec(c, es).waiters[w]) == {}
    ensures |fs| > |es| && fs[..|es|] == es && IsRun(c, fs) && w < |Exec(c, fs).waiters|
    ensures Ended(Exec(c, es).waiters[w], Exec(c, fs).waiters[w], Exec(c, es).synced)
  {
    var x := Exec(c, es).waiters[w];
    AnswersWithin(c, es, x);
    forall t | t in x.snapshot ensures t in x.res {
      assert t !in Open(x);
    }
    assert x.res.Keys == x.snapshot.Keys;
    fs := Extend(c, es, Return(w));
  }

  /** WaitForCacheSync can always end once its stop channel is closed or its informers
      have synced, by steps of its own, and then says of every type still open whether
      its informer has synced. */
  lemma {:induction false} WaitCanEnd(c: Config, es: seq<Event>, w: nat) returns (fs: seq<Event>)
    requires Fresh(c) && IsRun(c, es) && w < |Exec(c, es).waiters|
    requires CanEnd(Exec(c, es), Exec(c, es).waiters[w])
    requires Exec(c, es).waiters[w].current.None?
    ensures |fs| > |es| && fs[..|es|] == es && IsRun(c, fs) && w < |Exec(c, fs).waiters|
    ensures Ended(Exec(c, es).waiters[w], Exec(c, fs).waiters[w], Exec(c, es).synced)
    decreases |Open(Exec(c, es).waiters[w])|
  {
    if Open(Exec(c, es).waiters[w]) == {} {
      fs := ReturnNow(c, es, w);
    } else {
      var gs := DecideOne(c, es, w);
      fs := WaitCanEnd(c, gs, w);
      assert fs[..|es|] == fs[..|gs|][..|es|];
    }
  }
}
