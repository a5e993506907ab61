/** The shared informer factory: a locked registry with lazy construction and
    start-once tracking.  Each method body is one locked region. */
module InformerFactory {
  import opened Orders

  type TypeId = string      // reflect.Type of the requested object
  type InformerId = nat     // identity of a cache.SharedIndexInformer
  type StopCh = nat
  type Duration = int

  /** One "go informer.Run(stopCh)". */
  datatype Run = Run(t: TypeId, informer: InformerId, stopCh: StopCh)

  /** One call of a NewInformerFunc. */
  datatype Build = Build(t: TypeId, resync: Duration, made: InformerId)

  datatype Registry = Registry(
    defaultResync: Duration, custom: map<TypeId, Duration>,
    informers: map<TypeId, InformerId>, started: map<TypeId, bool>,
    runs: seq<Run>, builds: seq<Build>)
  {
    predicate Started(t: TypeId) { t in started && started[t] }

    function Period(t: TypeId): Duration { if t in custom then custom[t] else defaultResync }

    /** What WaitForCacheSync snapshots under the lock. */
    function StartedInformers(): map<TypeId, InformerId> {
      map t | t in informers && Started(t) :: informers[t]
    }

    function Ask(t: TypeId, newFunc: Duration -> InformerId): Registry {
      if t in informers then this
      else
        var made := newFunc(Period(t));
        this.(informers := informers[t := made], builds := builds + [Build(t, Period(t), made)])
    }

    /** The body of Start's loop for one key. */
    function StartOne(ch: StopCh, t: TypeId): Registry {
      if t !in informers || Started(t) then this
      else this.(started := started[t := true], runs := runs + [Run(t, informers[t], ch)])
    }

    /** Start when the map is iterated in the given order. */
    function Start(ch: StopCh, order: seq<TypeId>): Registry {
      if |order| == 0 then this
      else Start(ch, order[..|order| - 1]).StartOne(ch, order[|order| - 1])
    }

    /** Started types are registered; runs and started types agree, once per type. */
    ghost predicate RunsInv() {
      && (forall t :: Started(t) ==> t in informers)
      && (forall i :: 0 <= i < |runs| ==> Started(runs[i].t) && runs[i].informer == informers[runs[i].t])
      && (forall i, j :: 0 <= i < j < |runs| ==> runs[i].t != runs[j].t)
      && (forall t :: Started(t) ==> HasRun(runs, t))
    }

    /** Constructor calls and registered types agree, once per type, with the right period. */
    ghost predicate BuildsInv() {
      && (forall i :: 0 <= i < |builds| ==>
            && builds[i].t in informers
            && builds[i].made == informers[builds[i].t]
            && builds[i].resync == (if builds[i].t in custom then custom[builds[i].t] else defaultResync))
      && (forall i, j :: 0 <= i < j < |builds| ==> builds[i].t != builds[j].t)
      && (forall t :: t in informers ==> HasBuild(builds, t))
    }

    ghost predicate Inv() { RunsInv() && BuildsInv() }
  }

  ghost predicate HasRun(runs: seq<Run>, t: TypeId) { exists i :: 0 <= i < |runs| && runs[i].t == t }

  ghost predicate HasBuild(builds: seq<Build>, t: TypeId) { exists i :: 0 <= i < |builds| && builds[i].t == t }

  /** Runs of one type, in order. */
  function RunsOf(runs: seq<Run>, t: TypeId): seq<Run> {
    if |runs| == 0 then []
    else RunsOf(runs[..|runs| - 1], t) + (if runs[|runs| - 1].t == t then [runs[|runs| - 1]] else [])
  }

  lemma AskInv(r: Registry, t: TypeId, newFunc: Duration -> InformerId)
    requires r.Inv()
    ensures r.Ask(t, newFunc).Inv()
  {
    if t !in r.informers {
      AskBuildsInv(r, t, newFunc);
    }
  }

  lemma AskBuildsInv(r: Registry, t: TypeId, newFunc: Duration -> InformerId)
    requires r.BuildsInv() && t !in r.informers
    ensures r.Ask(t, newFunc).BuildsInv()
  {
    var r' := r.Ask(t, newFunc);
    assert r'.builds[|r.builds|].t == t;
    forall u | u in r'.informers ensures HasBuild(r'.builds, u) {
      if u != t {
        assert HasBuild(r.builds, u);
        var i :| 0 <= i < |r.builds| && r.builds[i].t == u;
        assert r'.builds[i].t == u;
      }
    }
  }

  lemma StartOneInv(r: Registry, ch: StopCh, t: TypeId)
    requires r.Inv()
    ensures r.StartOne(ch, t).Inv()
  {
    var r' := r.StartOne(ch, t);
    if t in r.informers && !r.Started(t) {
      assert r'.runs[|r.runs|].t == t;
      forall u | r'.Started(u) ensures HasRun(r'.runs, u) {
        if u != t {
          assert r.Started(u) && HasRun(r.runs, u);
          var i :| 0 <= i < |r.runs| && r.runs[i].t == u;
          assert r'.runs[i].t == u;
        }
      }
      assert forall u :: r.Started(u) ==> r'.Started(u);
    }
  }

  lemma {:induction false} StartInv(r: Registry, ch: StopCh, order: seq<TypeId>)
    requires r.Inv()
    ensures r.Start(ch, order).Inv()
  {
    if |order| > 0 {
      StartInv(r, ch, order[..|order| - 1]);
      StartOneInv(r.Start(ch, order[..|order| - 1]), ch, order[|order| - 1]);
    }
  }

  /** What Start does to one type, whatever the iteration order: a registered type
      that was not started is run once with this channel, every other type is left alone. */
  lemma {:induction false} StartEffect(r: Registry, ch: StopCh, order: seq<TypeId>, t: TypeId)
    requires forall i, j :: 0 <= i < j < |order| ==> order[i] != order[j]
    ensures OneTypeEffect(r, ch, r.Start(ch, order), t, t in order && t in r.informers && !r.Started(t))
  {
    var n := |order| - 1;
    if n >= 0 {
      StartEffect(r, ch, order[..n], t);
      assert order == order[..n] + [order[n]];
      assert order[n] !in order[..n];
      var r1, t0 := r.Start(ch, order[..n]), t in order[..n] && t in r.informers && !r.Started(t);
      StartOneEffect(r1, ch, order[n], t);
      EffectsCompose(r, r1, r.Start(ch, order), ch, t, t0, order[n] == t && t in r1.informers && !r1.Started(t));
    }
  }

  ghost predicate OneTypeEffect(r: Registry, ch: StopCh, r': Registry, t: TypeId, now: bool)
    requires now ==> t in r.informers
  {
    && r' == r.(started := r'.started, runs := r'.runs)
    && RunsOf(r'.runs, t) == RunsOf(r.runs, t) + (if now then [Run(t, r.informers[t], ch)] else [])
    && (t in r'.started <==> t in r.started || now)
    && (t in r'.started ==> r'.started[t] == if now then true else r.started[t])
  }

  lemma EffectsCompose(r: Registry, r1: Registry, r2: Registry, ch: StopCh, t: TypeId, now1: bool, now2: bool)
    requires now1 ==> t in r.informers && !now2
    requires now2 ==> t in r1.informers
    requires OneTypeEffect(r, ch, r1, t, now1) && OneTypeEffect(r1, ch, r2, t, now2)
    ensures OneTypeEffect(r, ch, r2, t, now1 || now2)
  {
  }

  lemma StartOneEffect(r: Registry, ch: StopCh, u: TypeId, t: TypeId)
    ensures OneTypeEffect(r, ch, r.StartOne(ch, u), t, u == t && t in r.informers && !r.Started(t))
  {
    var r' := r.StartOne(ch, u);
    if r'.runs != r.runs {
      assert r'.runs[..|r'.runs| - 1] == r.runs;
    }
  }

  /** The outcome of Start does not depend on the map's iteration order: the same
      types are started and every type has the same history of runs. */
  lemma StartOrderIndependent(r: Registry, ch: StopCh, o1: seq<TypeId>, o2: seq<TypeId>)
    requires IsOrder(o1, r.informers.Keys) && IsOrder(o2, r.informers.Keys)
    ensures var r1, r2 := r.Start(ch, o1), r.Start(ch, o2);
            && r1 == r2.(runs := r1.runs)
            && (forall t :: RunsOf(r1.runs, t) == RunsOf(r2.runs, t))
            && (forall t :: r1.Started(t) <==> r.Started(t) || t in r.informers)
  {
    var r1, r2 := r.Start(ch, o1), r.Start(ch, o2);
    forall t
      ensures RunsOf(r1.runs, t) == RunsOf(r2.runs, t)
      ensures t in r1.started <==> t in r2.started
      ensures t in r1.started ==> r1.started[t] == r2.started[t]
      ensures r1.Started(t) <==> r.Started(t) || t in r.informers
      ensures r1 == r.(started := r1.started, runs := r1.runs)
      ensures r2 == r.(started := r2.started, runs := r2.runs)
    {
      StartEffect(r, ch, o1, t);
      StartEffect(r, ch, o2, t);
      assert t in o1 <==> t in o2;
    }
    assert r1.started == r2.started;
    StartEffect(r, ch, o1, "");
    StartEffect(r, ch, o2, "");
  }

  /** An informer object is run at most once exactly when no two started types share it. */
  lemma SharedInformerRunsTwice(r: Registry)
    requires r.Inv()
    ensures (forall i, j :: 0 <= i < j < |r.runs| ==> r.runs[i].informer != r.runs[j].informer)
            <==> (forall t, u :: r.Started(t) && r.Started(u) && t != u ==> r.informers[t] != r.informers[u])
  {
    if forall i, j :: 0 <= i < j < |r.runs| ==> r.runs[i].informer != r.runs[j].informer {
      forall t, u | r.Started(t) && r.Started(u) && t != u ensures r.informers[t] != r.informers[u] {
        assert HasRun(r.runs, t) && HasRun(r.runs, u);
        var i :| 0 <= i < |r.runs| && r.runs[i].t == t;
        var j :| 0 <= j < |r.runs| && r.runs[j].t == u;
        assert r.runs[i].informer != r.runs[j].informer;
      }
    }
  }

  // ---------- options ----------

  /** A key of the map given to WithCustomResyncConfig: an object of some type. */
  datatype Object = Object(t: TypeId, id: nat)

  datatype FactoryOption =
    | WithNamespace(namespace: string)
    | WithTweakListOptions(tweak: nat)  // 0 is the nil filter
    | WithCustomResyncConfig(config: map<Object, Duration>)

  function CustomFold(
    custom: map<TypeId, Duration>, config: map<Object, Duration>, order: seq<Object>): map<TypeId, Duration>
    requires forall k :: k in order ==> k in config
  {
    if |order| == 0 then custom
    else
      var k := order[|order| - 1];
      assert forall x :: x in order[..|order| - 1] ==> x in order;
      CustomFold(custom, config, order[..|order| - 1])[k.t := config[k]]
  }

  /** The last key of a type in the iteration order decides the type's period. */
  lemma {:induction false} CustomFoldLast(
    custom: map<TypeId, Duration>, config: map<Object, Duration>, order: seq<Object>, t: TypeId)
    returns (last: int)
    requires forall k :: k in order ==> k in config
    ensures -1 <= last < |order|
    ensures forall i :: last < i < |order| ==> order[i].t != t
    ensures var r := CustomFold(custom, config, order);
            if last >= 0 then order[last].t == t && t in r && r[t] == config[order[last]]
            else (t in r <==> t in custom) && (t in r ==> r[t] == custom[t])
  {
    var n := |order| - 1;
    if n < 0 {
      last := -1;
    } else if order[n].t == t {
      last := n;
    } else {
      assert forall x :: x in order[..n] ==> x in order;
      last := CustomFoldLast(custom, config, order[..n], t);
      forall i | last < i < |order| ensures order[i].t != t {
        if i < n { assert order[..n][i].t != t; }
      }
    }
  }

  ghost predicate Consistent(config: map<Object, Duration>) {
    forall a, b :: a in config && b in config && a.t == b.t ==> config[a] == config[b]
  }

  ghost predicate CustomOrderIndependent(custom: map<TypeId, Duration>, config: map<Object, Duration>) {
    forall o1, o2 :: IsOrder(o1, config.Keys) && IsOrder(o2, config.Keys) ==>
      CustomFold(custom, config, o1) == CustomFold(custom, config, o2)
  }

  /** WithCustomResyncConfig is deterministic exactly when no two keys of the same
      type carry different periods. */
  lemma CustomResyncDeterminism(custom: map<TypeId, Duration>, config: map<Object, Duration>)
    ensures CustomOrderIndependent(custom, config) <==> Consistent(config)
  {
    if Consistent(config) {
      forall o1, o2 | IsOrder(o1, config.Keys) && IsOrder(o2, config.Keys)
        ensures CustomFold(custom, config, o1) == CustomFold(custom, config, o2)
      {
        ConsistentOrdersAgree(custom, config, o1, o2);
      }
    } else {
      var a, b :| a in config && b in config && a.t == b.t && config[a] != config[b];
      var o1 := EndingWith(config.Keys, a);
      var o2 := EndingWith(config.Keys, b);
      assert CustomFold(custom, config, o1)[a.t] == config[a];
      assert CustomFold(custom, config, o2)[b.t] == config[b];
    }
  }

  lemma EndingWith(keys: set<Object>, k: Object) returns (order: seq<Object>)
    requires k in keys
    ensures IsOrder(order, keys) && |order| > 0 && order[|order| - 1] == k
  {
    var o := Enumerate(keys - {k});
    order := o + [k];
  }

  lemma ConsistentOrdersAgree(
    custom: map<TypeId, Duration>, config: map<Object, Duration>, o1: seq<Object>, o2: seq<Object>)
    requires Consistent(config) && IsOrder(o1, config.Keys) && IsOrder(o2, config.Keys)
    ensures CustomFold(custom, config, o1) == CustomFold(custom, config, o2)
  {
    var r1, r2 := CustomFold(custom, config, o1), CustomFold(custom, config, o2);
    forall t
      ensures (t in r1 <==> t in r2) && (t in r1 ==> r1[t] == r2[t])
    {
      var l1 := CustomFoldLast(custom, config, o1, t);
      var l2 := CustomFoldLast(custom, config, o2, t);
      if l1 >= 0 { assert o1[l1] in o2; }
      if l2 >= 0 { assert o2[l2] in o1; }
    }
  }

  /** The fields an option may set. */
  datatype Settings = Settings(namespace: string, tweak: nat, custom: map<TypeId, Duration>)

  /** The iteration order met by each WithCustomResyncConfig; other options have none. */
  ghost predicate OrdersFit(options: seq<FactoryOption>, orders: seq<seq<Object>>) {
    && |orders| == |options|
    && forall k :: 0 <= k < |options| && options[k].WithCustomResyncConfig? ==>
         IsOrder(orders[k], options[k].config.Keys)
  }

  ghost function FoldOptions(options: seq<FactoryOption>, orders: seq<seq<Object>>): Settings
    requires OrdersFit(options, orders)
  {
    if |options| == 0 then Settings("", 0, map[])
    else
      var n := |options| - 1;
      var s := FoldOptions(options[..n], orders[..n]);
      match options[n]
      case WithNamespace(ns) => s.(namespace := ns)
      case WithTweakListOptions(tw) => s.(tweak := tw)
      case WithCustomResyncConfig(config) => s.(custom := CustomFold(s.custom, config, orders[n]))
  }

  ghost predicate MentionsType(o: FactoryOption, t: TypeId) {
    o.WithCustomResyncConfig? && exists k :: k in o.config && k.t == t
  }

  /** The last option that sets a field decides it. */
  lemma {:induction false} LastOptionWins(options: seq<FactoryOption>, orders: seq<seq<Object>>, k: nat)
    requires OrdersFit(options, orders) && k < |options|
    ensures options[k].WithNamespace? && (forall j :: k < j < |options| ==> !options[j].WithNamespace?)
            ==> FoldOptions(options, orders).namespace == options[k].namespace
    ensures options[k].WithTweakListOptions? && (forall j :: k < j < |options| ==> !options[j].WithTweakListOptions?)
            ==> FoldOptions(options, orders).tweak == options[k].tweak
  {
    var n := |options| - 1;
    if k < n {
      LastOptionWins(options[..n], orders[..n], k);
    }
  }

  /** Without an option for it the namespace is the empty one, which stands for all, and
      the list filter is the nil one. */
  lemma {:induction false} DefaultsStand(options: seq<FactoryOption>, orders: seq<seq<Object>>)
    requires OrdersFit(options, orders)
    ensures (forall j :: 0 <= j < |options| ==> !options[j].WithNamespace?) ==>
              FoldOptions(options, orders).namespace == ""
    ensures (forall j :: 0 <= j < |options| ==> !options[j].WithTweakListOptions?) ==>
              FoldOptions(options, orders).tweak == 0
  {
    var n := |options| - 1;
    if n >= 0 {
      DefaultsStand(options[..n], orders[..n]);
    }
  }

  /** The period of a type comes from the last option that mentions the type. */
  lemma {:induction false} LastCustomResyncWins(options: seq<FactoryOption>, orders: seq<seq<Object>>, t: TypeId)
    returns (k: int, key: Object)
    requires OrdersFit(options, orders)
    ensures -1 <= k < |options|
    ensures forall j :: k < j < |options| ==> !MentionsType(options[j], t)
    ensures var custom := FoldOptions(options, orders).custom;
            if k < 0 then t !in custom
            else options[k].WithCustomResyncConfig? && key in options[k].config && key.t == t
                 && t in custom && custom[t] == options[k].config[key]
  {
    var n := |options| - 1;
    key := Object(t, 0);
    if n < 0 {
      k := -1;
    } else {
      var last := -1;
      if options[n].WithCustomResyncConfig? {
        var s := FoldOptions(options[..n], orders[..n]);
        last := CustomFoldLast(s.custom, options[n].config, orders[n], t);
        assert forall o :: o in options[n].config ==> o in orders[n];
      }
      if last >= 0 {
        k, key := n, orders[n][last];
      } else {
        k, key := LastCustomResyncWins(options[..n], orders[..n], t);
      }
    }
  }

  // ---------- the factory object ----------

  class SharedInformerFactory {
    var namespace: string
    var tweakListOptions: nat
    var defaultResync: Duration
    var customResync: map<TypeId, Duration>
    var informers: map<TypeId, InformerId>
    var startedInformers: map<TypeId, bool>
    ghost var runs: seq<Run>        // goroutines started
    ghost var builds: seq<Build>    // constructor calls made
    ghost var orders: seq<seq<Object>>

    ghost function Abstract(): Registry
      reads this
    {
      Registry(defaultResync, customResync, informers, startedInformers, runs, builds)
    }

    ghost function CurrentSettings(): Settings
      reads this
    {
      Settings(namespace, tweakListOptions, customResync)
    }

    /** NewSharedInformerFactoryWithOptions applies the options from left to right;
        orders records the map iteration orders it met. */
    constructor (defaultResync: Duration, options: seq<FactoryOption>)
      ensures this.defaultResync == defaultResync && informers == map[] && startedInformers == map[]
      ensures Abstract().Inv()
      ensures OrdersFit(options, orders) && CurrentSettings() == FoldOptions(options, orders)
    {
      namespace, tweakListOptions := "", 0;
      this.defaultResync := defaultResync;
      customResync, informers, startedInformers := map[], map[], map[];
      runs, builds, orders := [], [], [];
      new;
      for i := 0 to |options|
        invariant this.defaultResync == defaultResync && informers == map[] && startedInformers == map[]
        invariant runs == [] && builds == []
        invariant OrdersFit(options[..i], orders)
        invariant CurrentSettings() == FoldOptions(options[..i], orders)
      {
        ghost var order: seq<Object> := [];
        match options[i] {
          case WithNamespace(ns) => namespace := ns;
          case WithTweakListOptions(tw) => tweakListOptions := tw;
          case WithCustomResyncConfig(config) => order := SetCustomResync(config);
        }
        assert options[..i + 1][..i] == options[..i];
        assert (orders + [order])[..i] == orders;
        orders := orders + [order];
      }
      assert options[..|options|] == options;
    }

    /** Ranges over the given map in some order. */
    method SetCustomResync(config: map<Object, Duration>) returns (ghost order: seq<Object>)
      modifies this`customResync
      ensures IsOrder(order, config.Keys)
      ensures customResync == CustomFold(old(customResync), config, order)
    {
      order := [];
      var rest := config.Keys;
      while rest != {}
        invariant rest <= config.Keys && IsOrder(order, config.Keys - rest)
        invariant customResync == CustomFold(old(customResync), config, order)
      {
        var k :| k in rest;
        customResync := customResync[k.t := config[k]];
        rest := rest - {k};
        assert (order + [k])[..|order|] == order;
        order := order + [k];
      }
    }

    method Start(stopCh: StopCh) returns (ghost order: seq<TypeId>)
      modifies this`startedInformers, this`runs
      ensures IsOrder(order, informers.Keys)
      ensures Abstract() == old(Abstract()).Start(stopCh, order)
    {
      order := [];
      var rest := informers.Keys;
      while rest != {}
        invariant rest <= informers.Keys && IsOrder(order, informers.Keys - rest)
        invariant Abstract() == old(Abstract()).Start(stopCh, order)
      {
        var t :| t in rest;
        if !(t in startedInformers && startedInformers[t]) {
          runs := runs + [Run(t, informers[t], stopCh)];
          startedInformers := startedInformers[t := true];
        }
        rest := rest - {t};
        assert (order + [t])[..|order|] == order;
        order := order + [t];
      }
    }

    method InformerFor(t: TypeId, newFunc: Duration -> InformerId) returns (informer: InformerId)
      modifies this`informers, this`builds
      ensures Abstract() == old(Abstract()).Ask(t, newFunc)
      ensures t in old(informers) ==> informer == old(informers[t]) && informers == old(informers)
      ensures t !in old(informers) ==>
                && informer == newFunc(if t in customResync then customResync[t] else defaultResync)
                && informers == old(informers)[t := informer]
    {
      if t in informers {
        return informers[t];
      }
      var resyncPeriod := defaultResync;
      if t in customResync {
        resyncPeriod := customResync[t];
      }
      informer := newFunc(resyncPeriod);
      informers := informers[t := informer];
      builds := builds + [Build(t, resyncPeriod, informer)];
    }

    /** The locked first half of WaitForCacheSync. */
    method SnapshotStarted() returns (snapshot: map<TypeId, InformerId>)
      ensures snapshot == Abstract().StartedInformers()
      ensures forall t :: t in snapshot <==> t in informers && t in startedInformers && startedInformers[t]
      ensures forall t :: t in snapshot ==> snapshot[t] == informers[t]
    {
      snapshot := map[];
      var rest := informers.Keys;
      while rest != {}
        invariant rest <= informers.Keys
        invariant snapshot == map t | t in informers.Keys - rest && Abstract().Started(t) :: informers[t]
      {
        var t :| t in rest;
        if t in startedInformers && startedInformers[t] {
          snapshot := snapshot[t := informers[t]];
        }
        rest := rest - {t};
      }
    }
  }
}
