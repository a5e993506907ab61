/** The REST storage of VolumeSnapshotDelta objects: what Create, Update, Delete, List
    and Connect make of the etcd interface below them, over whole runs of requests. */
module RestStore {
  import opened Basics
  import opened Decimal
  import opened EtcdStore

  datatype Reply = Found(obj: Object, version: string) | Error(failure: Failure)

  function Rendered(s: Stored): Reply { Found(s.obj, ResourceVersion(s.rev)) }

  /** A request in a namespace; now is the clock at its arrival. */
  datatype Request =
    | CreateReq(namespace: string, obj: Object, version: string, now: int)
    | UpdateReq(namespace: string, name: string, pre: Option<Preconditions>, transform: Stored -> Option<Object>)
    | DeleteReq(namespace: string, name: string, pre: Option<Preconditions>, validate: Stored -> bool)
    | GetReq(namespace: string, name: string)
  {
    function Name(): string { if CreateReq? then obj.name else name }

    /** Where a store that respects namespaces keeps the object. */
    function Place(): (string, string) { (namespace, Name()) }
  }

  /** The object a create submits, stamped with its creation time. */
  function Stamped(obj: Object, now: int): Object { obj.(created := now) }

  /** What one request does to the cell it addresses: the new cell, the new revision
      of the store, the reply.  "Already exists" is answered with the submitted object. */
  function Serve(r: Request, c: Cell, rev: nat): (Cell, nat, Reply) {
    match r
    case GetReq(_, _) => (c, rev, if c.None? then Error(NotFound) else Rendered(c.value))
    case _ =>
      var d := Decide(CallOf(r), c);
      var a := AnswerAfter(d, c, rev + 1);
      (CellAfter(d, c, rev + 1), if Writes(d) then rev + 1 else rev, ReplyTo(r, a))
  }

  function CallOf(r: Request): Call
    requires !r.GetReq?
  {
    match r
    case CreateReq(_, obj, version, now) => Create(Stamped(obj, now), version)
    case UpdateReq(_, name, pre, transform) => Update(name, pre, transform)
    case DeleteReq(_, name, pre, validate) => Delete(name, pre, validate)
  }

  function ReplyTo(r: Request, a: Answer): Reply {
    if r.CreateReq? && a == Failed(KeyExists) then Found(Stamped(r.obj, r.now), "")
    else if a.Ok? then Rendered(a.result)
    else Error(a.failure)
  }

  // ---------- the code's store, keyed by name only ----------

  function SetCell(db: Db, key: string, c: Cell, rev: nat): Db {
    Db(if c.Some? then db.kv[key := c.value] else db.kv - {key}, rev)
  }

  function StoreStep(db: Db, r: Request): (Db, Reply) {
    var key := KeyPath(r.Name());
    var (c, rev, reply) := Serve(r, db.At(key), db.rev);
    (SetCell(db, key, c, rev), reply)
  }

  /** A request that is not a read is exactly its storage call, applied in one step. */
  lemma StoreStepIsCall(db: Db, r: Request)
    requires !r.GetReq?
    ensures StoreStep(db, r) == (db.After(CallOf(r)), ReplyTo(r, db.AnswerTo(CallOf(r))))
  {
    var key := KeyPath(r.Name());
    assert key in db.kv ==> db.kv[key := db.kv[key]] == db.kv;
    assert key !in db.kv ==> db.kv - {key} == db.kv;
  }

  // ---------- what each request does, on the store as it is written down ----------

  lemma StepValid(db: Db, r: Request)
    requires db.Valid()
    ensures StoreStep(db, r).0.Valid()
  {
  }

  /** A get shows the object stored under the name, or reports it missing. */
  lemma GetExactly(db: Db, namespace: string, name: string)
    requires db.Valid()
    ensures var key := "cbt.storage.k8s.io/" + name;
            StoreStep(db, GetReq(namespace, name))
            == (db, if key in db.kv then Found(db.kv[key].obj, Print(db.kv[key].rev)) else Error(NotFound))
  {
    var key := KeyPath(name);
    KeyPathExactly(name);
    assert key in db.kv ==> db.kv[key := db.kv[key]] == db.kv;
    assert key !in db.kv ==> db.kv - {key} == db.kv;
  }

  /** A create fails exactly when the submitted object carries a resource version other
      than zero.  If the name is missing it stores the submitted object, its creation
      time set to now; if not it stores nothing, and answers the same object all the same. */
  lemma CreateExactly(db: Db, r: Request)
    requires db.Valid() && r.CreateReq?
    ensures var key := "cbt.storage.k8s.io/" + r.obj.name;
            var obj := Object(r.obj.namespace, r.obj.name, r.obj.uid, r.now, r.obj.spec, r.obj.status);
            StoreStep(db, r) ==
              if exists n: nat :: 0 < n < 0x1_0000_0000_0000_0000 && Denotes(r.version, n) then
                (db, Error(VersionSet))
              else if key in db.kv then
                (db, Found(obj, ""))
              else
                (Db(db.kv[key := Stored(obj, db.rev + 1)], db.rev + 1), Found(obj, Print(db.rev + 1)))
  {
    StoreStepIsCall(db, r);
    KeyPathExactly(r.Name());
    var given := Parsed(r.version).Some? && Parsed(r.version).value != 0;
    assert given ==> Denotes(r.version, Parsed(r.version).value);
  }

  /** What a precondition on UID and resource version asks of a stored object: the values
      it gives must be the stored ones, which for a missing object are both empty. */
  predicate Admits(pre: Option<Preconditions>, uid: string, version: string) {
    match pre
    case None => true
    case Some(Preconditions(u, v)) => (u == None || u == Some(uid)) && (v == None || v == Some(version))
  }

  /** An update succeeds exactly when its preconditions agree with what is stored, or
      with empty values for a missing name, and its transform accepts that.  A success
      stores the transform's object, unless that is what is stored already; a refusal
      stores nothing. */
  lemma UpdateExactly(db: Db, r: Request)
    requires db.Valid() && r.UpdateReq?
    ensures var key := "cbt.storage.k8s.io/" + r.name;
            var there := key in db.kv;
            var input := if there then db.kv[key] else Stored(Object("", "", "", 0, "", ""), 0);
            var updated := r.transform(input);
            StoreStep(db, r) ==
              if !Admits(r.pre, input.obj.uid, if there then Print(input.rev) else "") then
                (db, Error(PreconditionFailed))
              else if updated.None? then
                (db, Error(Rejected))
              else if there && updated.value == input.obj then
                (db, Found(input.obj, Print(input.rev)))
              else
                (Db(db.kv[key := Stored(updated.value, db.rev + 1)], db.rev + 1),
                 Found(updated.value, Print(db.rev + 1)))
  {
    StoreStepIsCall(db, r);
    KeyPathExactly(r.Name());
  }

  /** A delete succeeds exactly when the name is there, its preconditions agree with what
      is stored, and its validation accepts that; it answers what it removed. */
  lemma DeleteExactly(db: Db, r: Request)
    requires db.Valid() && r.DeleteReq?
    ensures var key := "cbt.storage.k8s.io/" + r.name;
            StoreStep(db, r) ==
              if key !in db.kv then
                (db, Error(NotFound))
              else if !Admits(r.pre, db.kv[key].obj.uid, Print(db.kv[key].rev)) then
                (db, Error(PreconditionFailed))
              else if !r.validate(db.kv[key]) then
                (db, Error(Rejected))
              else
                (Db(db.kv - {key}, db.rev + 1), Found(db.kv[key].obj, Print(db.kv[key].rev)))
  {
    StoreStepIsCall(db, r);
    KeyPathExactly(r.Name());
  }

  /** Optimistic concurrency as a client sees it: an update or delete that gives the
      resource version of an earlier write is refused once the object has changed, and one
      that gives the current version is not refused for it. */
  lemma StaleVersionRefused(db: Db, r: Request, rev: nat)
    requires db.Valid() && (r.UpdateReq? || r.DeleteReq?)
    requires r.pre == Some(Preconditions(None, Some(Print(rev)))) && "cbt.storage.k8s.io/" + r.name in db.kv
    ensures StoreStep(db, r).1 == Error(PreconditionFailed) <==> db.kv["cbt.storage.k8s.io/" + r.name].rev != rev
    ensures StoreStep(db, r).1 == Error(PreconditionFailed) ==> StoreStep(db, r).0 == db
  {
    var current := db.kv["cbt.storage.k8s.io/" + r.name].rev;
    if Print(current) == Print(rev) { PrintInjective(current, rev); }
    if r.UpdateReq? { UpdateExactly(db, r); } else { DeleteExactly(db, r); }
  }

  // ---------- the store a namespaced API stands for ----------

  datatype Spaced = Spaced(objs: map<(string, string), Stored>, rev: nat) {
    function At(p: (string, string)): Cell { if p in objs then Some(objs[p]) else None }
  }

  function SetPlace(m: Spaced, p: (string, string), c: Cell, rev: nat): Spaced {
    Spaced(if c.Some? then m.objs[p := c.value] else m.objs - {p}, rev)
  }

  function SpacedStep(m: Spaced, r: Request): (Spaced, Reply) {
    var p := r.Place();
    var (c, rev, reply) := Serve(r, m.At(p), m.rev);
    (SetPlace(m, p, c, rev), reply)
  }

  /** The two stores give the same reply to every request of the run. */
  ghost predicate Agrees(db: Db, m: Spaced, rs: seq<Request>)
    decreases |rs|
  {
    |rs| == 0 ||
    (&& StoreStep(db, rs[0]).1 == SpacedStep(m, rs[0]).1
     && Agrees(StoreStep(db, rs[0]).0, SpacedStep(m, rs[0]).0, rs[1..]))
  }

  type Places = set<(string, string)>

  ghost predicate Over(rs: seq<Request>, places: Places) {
    forall i :: 0 <= i < |rs| ==> rs[i].Place() in places
  }

  /** No name is used in two namespaces. */
  ghost predicate NamesUnique(places: Places) {
    forall p, q :: p in places && q in places && p.1 == q.1 ==> p.0 == q.0
  }

  /** Every run over these places, from an empty store, is answered as a namespaced store
      would, list requests aside. */
  ghost predicate Faithful(places: Places) {
    forall rs, rev: nat :: Over(rs, places) ==> Agrees(Db(map[], rev), Spaced(map[], rev), rs)
  }

  ghost predicate HasPlace(m: Spaced, key: string) { exists p :: p in m.objs && KeyPath(p.1) == key }

  /** The code's store represents the namespaced one. */
  ghost predicate Represents(db: Db, m: Spaced, places: Places) {
    && db.rev == m.rev
    && (forall p :: p in places ==> m.At(p) == db.At(KeyPath(p.1)))
    && m.objs.Keys <= places
    && (forall k :: k in db.kv ==> HasPlace(m, k))
  }

  lemma SetRepresents(db: Db, m: Spaced, places: Places, at: (string, string), c: Cell, rev: nat)
    requires NamesUnique(places) && at in places && Represents(db, m, places)
    ensures Represents(SetCell(db, KeyPath(at.1), c, rev), SetPlace(m, at, c, rev), places)
  {
    var db', m' := SetCell(db, KeyPath(at.1), c, rev), SetPlace(m, at, c, rev);
    forall p | p in places ensures m'.At(p) == db'.At(KeyPath(p.1)) {
      if p != at {
        assert p.1 != at.1;
        if KeyPath(p.1) == KeyPath(at.1) { KeyPathInjective(p.1, at.1); }
      }
    }
    forall k | k in db'.kv ensures HasPlace(m', k) {
      if k == KeyPath(at.1) {
        assert at in m'.objs;
      } else {
        assert HasPlace(m, k);
        var p :| p in m.objs && KeyPath(p.1) == k;
        assert p in m'.objs;
      }
    }
  }

  lemma StepRepresents(db: Db, m: Spaced, places: Places, r: Request)
    requires NamesUnique(places) && r.Place() in places && Represents(db, m, places)
    ensures StoreStep(db, r).1 == SpacedStep(m, r).1
    ensures Represents(StoreStep(db, r).0, SpacedStep(m, r).0, places)
  {
    var (c, rev, _) := Serve(r, m.At(r.Place()), m.rev);
    SetRepresents(db, m, places, r.Place(), c, rev);
  }

  lemma {:induction false} RepresentedRunsAgree(db: Db, m: Spaced, places: Places, rs: seq<Request>)
    requires NamesUnique(places) && Over(rs, places) && Represents(db, m, places)
    ensures Agrees(db, m, rs)
    decreases |rs|
  {
    if |rs| > 0 {
      assert rs[0].Place() in places;
      StepRepresents(db, m, places, rs[0]);
      RepresentedRunsAgree(StoreStep(db, rs[0]).0, SpacedStep(m, rs[0]).0, places, rs[1..]);
    }
  }

  /** To creates, updates, deletes and gets the store keyed by name alone behaves as a
      namespaced store, on all runs over some places, exactly when no name occurs there
      in two namespaces.  (Lists ask for more, see NamespacedExactly.) */
  lemma FaithfulExactly(places: Places)
    ensures Faithful(places) <==> NamesUnique(places)
  {
    if NamesUnique(places) {
      forall rs, rev: nat | Over(rs, places) ensures Agrees(Db(map[], rev), Spaced(map[], rev), rs) {
        RepresentedRunsAgree(Db(map[], rev), Spaced(map[], rev), places, rs);
      }
    } else {
      var p, q :| p in places && q in places && p.1 == q.1 && p.0 != q.0;
      var rs := CollidingRun(p.0, q.0, p.1);
      assert Over(rs, places);
      assert !Agrees(Db(map[], 0), Spaced(map[], 0), rs);
    }
  }

  /** Creating a name in one namespace makes it readable in another. */
  lemma CollidingRun(ns: string, other: string, name: string) returns (rs: seq<Request>)
    requires ns != other
    ensures |rs| == 2 && rs[0].Place() == (ns, name) && rs[1].Place() == (other, name)
    ensures rs[0].CreateReq? && rs[1].GetReq?
    ensures Replies(Db(map[], 0), rs)[1] == Found(Stamped(rs[0].obj, rs[0].now), ResourceVersion(1))
    ensures SpacedStep(SpacedStep(Spaced(map[], 0), rs[0]).0, rs[1]).1 == Error(NotFound)
    ensures !Agrees(Db(map[], 0), Spaced(map[], 0), rs)
  {
    var obj := Object(ns, name, "", 0, "", "");
    var create, get := CreateReq(ns, obj, "", 0), GetReq(other, name);
    rs := [create, get];
    var db := StoreStep(Db(map[], 0), create).0;
    assert db.At(KeyPath(name)) == Some(Stored(obj, 1));
    assert SpacedStep(Spaced(map[], 0), create).0.At((other, name)) == None;
    assert rs[..1] == [create] && [create][..0] == [];
    assert StoreRun(Db(map[], 0), rs[..1]) == db;
    assert rs[1..][0] == get;
  }

  // ---------- whole runs ----------

  function StoreRun(db: Db, rs: seq<Request>): Db {
    if |rs| == 0 then db else StoreStep(StoreRun(db, rs[..|rs| - 1]), rs[|rs| - 1]).0
  }

  function LastReply(db: Db, rs: seq<Request>): Reply
    requires |rs| > 0
  {
    StoreStep(StoreRun(db, rs[..|rs| - 1]), rs[|rs| - 1]).1
  }

  /** What each request of a run is answered. */
  function Replies(db: Db, rs: seq<Request>): (r: seq<Reply>)
    ensures |r| == |rs|
  {
    if |rs| == 0 then [] else Replies(db, rs[..|rs| - 1]) + [LastReply(db, rs)]
  }

  function CellAnswer(c: Cell): Reply { if c.None? then Error(NotFound) else Rendered(c.value) }

  /** What a get of the name answers. */
  function Answer(db: Db, name: string): Reply { CellAnswer(db.At(KeyPath(name))) }

  /** Read off the reply: this request has written the name.  A create answered without
      a resource version has only found the name taken. */
  predicate Changes(name: string, r: Request, reply: Reply) {
    && r.Name() == name && reply.Found? && !r.GetReq?
    && (r.CreateReq? ==> reply.version != "")
  }

  /** What a get answers after such a write. */
  function Shows(r: Request, reply: Reply): Reply { if r.DeleteReq? then Error(NotFound) else reply }

  lemma ServeShows(r: Request, c: Cell, rev: nat)
    ensures var (c', _, reply) := Serve(r, c, rev);
            CellAnswer(c') == if Changes(r.Name(), r, reply) then Shows(r, reply) else CellAnswer(c)
  {
    assert Print(rev + 1) != "" by { PrintParses(rev + 1); }
  }

  lemma StepShows(db: Db, r: Request, name: string)
    ensures var (db', reply) := StoreStep(db, r);
            Answer(db', name) == if Changes(name, r, reply) then Shows(r, reply) else Answer(db, name)
  {
    var key := KeyPath(r.Name());
    ServeShows(r, db.At(key), db.rev);
    var (c, rev, _) := Serve(r, db.At(key), db.rev);
    if r.Name() == name {
      assert SetCell(db, key, c, rev).At(key) == c;
    } else {
      if key == KeyPath(name) { KeyPathInjective(r.Name(), name); }
      assert SetCell(db, key, c, rev).At(KeyPath(name)) == db.At(KeyPath(name));
    }
  }

  /** The answers to a get at every moment of a run. */
  ghost function Answers(db: Db, rs: seq<Request>, name: string): (r: seq<Reply>)
    ensures |r| == |rs| + 1
  {
    (if |rs| == 0 then [] else Answers(db, rs[..|rs| - 1], name)) + [Answer(StoreRun(db, rs), name)]
  }

  /** A successful create replies what it submitted, with a version exactly when the
      name was missing. */
  predicate CreateLaw(answer: Reply, r: Request, reply: Reply) {
    r.CreateReq? && reply.Found? ==>
      reply.obj == Stamped(r.obj, r.now) && (reply.version != "" <==> answer == Error(NotFound))
  }

  lemma CreateReply(db: Db, r: Request)
    ensures CreateLaw(Answer(db, r.Name()), r, StoreStep(db, r).1)
  {
    PrintParses(db.rev + 1);
  }

  /** Each answer follows from the one before and the reply in between. */
  ghost predicate Follow(answers: seq<Reply>, rs: seq<Request>, replies: seq<Reply>, name: string)
    requires |replies| == |rs| && |answers| == |rs| + 1
  {
    forall k :: 0 <= k < |rs| ==>
      && answers[k + 1] == Next(answers[k], rs[k], replies[k], name)
      && (rs[k].Name() == name ==> CreateLaw(answers[k], rs[k], replies[k]))
  }

  function Next(answer: Reply, r: Request, reply: Reply, name: string): Reply {
    if Changes(name, r, reply) then Shows(r, reply) else answer
  }

  lemma LastFollows(db: Db, rs: seq<Request>, name: string)
    requires |rs| > 0
    ensures var n := |rs| - 1;
            var before := StoreRun(db, rs[..n]);
            && Answer(StoreRun(db, rs), name) == Next(Answer(before, name), rs[n], LastReply(db, rs), name)
            && CreateLaw(Answer(before, rs[n].Name()), rs[n], LastReply(db, rs))
  {
    var n := |rs| - 1;
    StepShows(StoreRun(db, rs[..n]), rs[n], name);
    CreateReply(StoreRun(db, rs[..n]), rs[n]);
  }

  lemma FollowMore(answers: seq<Reply>, rs: seq<Request>, replies: seq<Reply>, name: string,
                   answer: Reply, r: Request, reply: Reply)
    requires |replies| == |rs| && |answers| == |rs| + 1 && Follow(answers, rs, replies, name)
    requires answer == Next(answers[|rs|], r, reply, name)
    requires r.Name() == name ==> CreateLaw(answers[|rs|], r, reply)
    ensures Follow(answers + [answer], rs + [r], replies + [reply], name)
  {
  }

  lemma {:induction false} AnswersFollow(db: Db, rs: seq<Request>, name: string)
    ensures Follow(Answers(db, rs, name), rs, Replies(db, rs), name)
    ensures Answers(db, rs, name)[0] == Answer(db, name)
    ensures Answers(db, rs, name)[|rs|] == Answer(StoreRun(db, rs), name)
  {
    var n := |rs| - 1;
    if n >= 0 {
      AnswersFollow(db, rs[..n], name);
      LastFollows(db, rs, name);
      FollowMore(Answers(db, rs[..n], name), rs[..n], Replies(db, rs[..n]), name,
                 Answer(StoreRun(db, rs), name), rs[n], LastReply(db, rs));
      assert rs == rs[..n] + [rs[n]];
    }
  }

  lemma {:induction false} LastChangeStands(
    answers: seq<Reply>, rs: seq<Request>, replies: seq<Reply>, name: string, i: nat, m: nat)
    requires |replies| == |rs| && |answers| == |rs| + 1 && Follow(answers, rs, replies, name)
    requires i <= m <= |rs| && forall j :: i <= j < m ==> !Changes(name, rs[j], replies[j])
    ensures answers[m] == answers[i]
  {
    if i < m { LastChangeStands(answers, rs, replies, name, i, m - 1); }
  }

  /** The replies tell the contents: after any run, a get, in whatever namespace it is
      asked, answers what the last request that changed the name replied, or what it answered before if none did. */
  lemma LastWriteStands(db: Db, rs: seq<Request>, namespace: string, name: string, i: int)
    requires -1 <= i < |rs|
    requires i >= 0 ==> Changes(name, rs[i], Replies(db, rs)[i])
    requires forall j :: i < j < |rs| ==> !Changes(name, rs[j], Replies(db, rs)[j])
    ensures var get := GetReq(namespace, name);
            StoreStep(StoreRun(db, rs), get).1 ==
              if i >= 0 then Shows(rs[i], Replies(db, rs)[i]) else StoreStep(db, get).1
  {
    AnswersFollow(db, rs, name);
    LastChangeStands(Answers(db, rs, name), rs, Replies(db, rs), name, i + 1, |rs|);
  }

  /** First write wins over whole runs: while a name is neither updated nor deleted, a
      get answers what the first create of it to succeed replied, and that is the object
      it submitted, however many creates follow. */
  lemma FirstCreateStands(db: Db, rs: seq<Request>, namespace: string, name: string, i: nat)
    requires i < |rs| && rs[i].CreateReq? && rs[i].Name() == name && KeyPath(name) !in db.kv
    requires forall j :: 0 <= j < |rs| && rs[j].Name() == name ==> rs[j].CreateReq? || rs[j].GetReq?
    requires Replies(db, rs)[i].Found?
    requires forall j :: 0 <= j < i && rs[j].CreateReq? && rs[j].Name() == name ==> Replies(db, rs)[j].Error?
    ensures StoreStep(StoreRun(db, rs), GetReq(namespace, name)).1 == Replies(db, rs)[i]
    ensures Replies(db, rs)[i].obj == Stamped(rs[i].obj, rs[i].now)
  {
    AnswersFollow(db, rs, name);
    FirstCreateIn(Answers(db, rs, name), rs, Replies(db, rs), name, i);
  }

  lemma FirstCreateIn(answers: seq<Reply>, rs: seq<Request>, replies: seq<Reply>, name: string, i: nat)
    requires |replies| == |rs| && |answers| == |rs| + 1 && Follow(answers, rs, replies, name)
    requires i < |rs| && rs[i].CreateReq? && rs[i].Name() == name && answers[0] == Error(NotFound)
    requires forall j :: 0 <= j < |rs| && rs[j].Name() == name ==> rs[j].CreateReq? || rs[j].GetReq?
    requires replies[i].Found?
    requires forall j :: 0 <= j < i && rs[j].CreateReq? && rs[j].Name() == name ==> replies[j].Error?
    ensures answers[|rs|] == replies[i] && replies[i].obj == Stamped(rs[i].obj, rs[i].now)
  {
    LastChangeStands(answers, rs, replies, name, 0, i);
    StaysTaken(answers, rs, replies, name, i + 1, |rs|);
  }

  /** A name that is taken stays as it is while nobody updates or deletes it. */
  lemma {:induction false} StaysTaken(
    answers: seq<Reply>, rs: seq<Request>, replies: seq<Reply>, name: string, i: nat, m: nat)
    requires |replies| == |rs| && |answers| == |rs| + 1 && Follow(answers, rs, replies, name)
    requires i <= m <= |rs| && answers[i].Found?
    requires forall j :: 0 <= j < |rs| && rs[j].Name() == name ==> rs[j].CreateReq? || rs[j].GetReq?
    ensures answers[m] == answers[i]
  {
    if i < m { StaysTaken(answers, rs, replies, name, i, m - 1); }
  }

  // ---------- single requests ----------

  /** First write wins: creating a name that exists changes nothing, and the reply is a
      success that shows the submitted object, whatever is stored. */
  lemma FirstWriteWins(db: Db, r: Request)
    requires r.CreateReq? && KeyPath(r.Name()) in db.kv
    ensures StoreStep(db, r).0 == db
    ensures Parsed(r.version).None? || Parsed(r.version).value == 0 ==>
              StoreStep(db, r).1 == Found(Stamped(r.obj, r.now), "")
  {
    StoreStepIsCall(db, r);
  }

  /** So creating twice, with any two objects of one name, is creating once. */
  lemma CreateTwice(db: Db, r: Request, again: Request)
    requires r.CreateReq? && again.CreateReq? && r.Name() == again.Name()
    requires StoreStep(db, r).1.Found?
    ensures StoreStep(StoreStep(db, r).0, again).0 == StoreStep(db, r).0
  {
    FirstWriteWins(StoreStep(db, r).0, again);
  }

  /** Updates upsert: a successful update leaves the name present with the object it
      replied, whether or not the name existed; a failed one changes nothing. */
  lemma UpdateUpserts(db: Db, r: Request)
    requires r.UpdateReq?
    ensures var (db', reply) := StoreStep(db, r);
            var key := KeyPath(r.name);
            if reply.Error? then db' == db
            else key in db'.kv && reply == Rendered(db'.kv[key])
                 && r.transform(View(db.At(key))) == Some(db'.kv[key].obj)
  {
    StoreStepIsCall(db, r);
  }

  /** A deleted name is gone, and deleting what is not there reports it. */
  lemma DeleteRemoves(db: Db, r: Request)
    requires r.DeleteReq?
    ensures var (db', reply) := StoreStep(db, r);
            var key := KeyPath(r.name);
            && (reply.Found? ==> key !in db'.kv && key in db.kv && reply == Rendered(db.kv[key]))
            && (reply.Error? ==> db' == db)
            && (key !in db.kv ==> reply == Error(NotFound))
  {
    StoreStepIsCall(db, r);
  }

  /** A successful create is told the truth exactly when the name was missing: only then
      does a get, in any namespace, answer what the create replied. */
  lemma CreateReplyTrue(db: Db, r: Request, namespace: string)
    requires db.Valid() && r.CreateReq? && StoreStep(db, r).1.Found?
    ensures StoreStep(StoreStep(db, r).0, GetReq(namespace, r.Name())).1 == StoreStep(db, r).1
            <==> KeyPath(r.Name()) !in db.kv
  {
    StepShows(db, r, r.Name());
    CreateReply(db, r);
    if KeyPath(r.Name()) in db.kv {
      assert Print(db.kv[KeyPath(r.Name())].rev) != "" by { PrintParses(db.kv[KeyPath(r.Name())].rev); }
    }
  }

  // ---------- listing ----------

  predicate HasPrefix(s: string, prefix: string) { |prefix| <= |s| && s[..|prefix|] == prefix }

  /** An unfiltered list: everything below the group's directory. */
  ghost function Listed(db: Db): set<Stored> {
    set k | k in db.kv && HasPrefix(k, GROUP + "/") :: db.kv[k]
  }

  /** An unfiltered list is exactly the objects stored under some name. */
  lemma ListedExactly(db: Db, x: Stored)
    ensures x in Listed(db) <==> exists name :: StoredAs(db, x, name)
  {
    if x in Listed(db) {
      var k :| k in db.kv && HasPrefix(k, GROUP + "/") && x == db.kv[k];
      assert k == GROUP + "/" + k[|GROUP| + 1..];
      KeyPathExactly(k[|GROUP| + 1..]);
      assert StoredAs(db, x, k[|GROUP| + 1..]);
    }
    if exists name :: StoredAs(db, x, name) {
      var name :| StoredAs(db, x, name);
      KeyPathExactly(name);
      assert HasPrefix("cbt.storage.k8s.io/" + name, GROUP + "/");
    }
  }

  ghost predicate StoredAs(db: Db, x: Stored, name: string) {
    "cbt.storage.k8s.io/" + name in db.kv && db.kv["cbt.storage.k8s.io/" + name] == x
  }

  /** Of two stores that correspond, the unfiltered list is all of the namespaced one. */
  lemma ListedValues(db: Db, m: Spaced, places: Places)
    requires Represents(db, m, places)
    ensures Listed(db) == m.objs.Values
  {
    forall x | x in Listed(db) ensures x in m.objs.Values {
      var k :| k in db.kv && x == db.kv[k];
      assert HasPlace(m, k);
      var p :| p in m.objs && KeyPath(p.1) == k;
      assert m.At(p) == db.At(k) && m.objs[p] == x;
    }
    forall x | x in m.objs.Values ensures x in Listed(db) {
      var p :| p in m.objs && m.objs[p] == x;
      assert p in places && m.At(p) == db.At(KeyPath(p.1));
      assert HasPrefix(KeyPath(p.1), GROUP + "/");
    }
  }

  function SpacedRun(m: Spaced, rs: seq<Request>): Spaced {
    if |rs| == 0 then m else SpacedStep(SpacedRun(m, rs[..|rs| - 1]), rs[|rs| - 1]).0
  }

  // The two stores after a run that began with both of them empty.
  function Ran(rs: seq<Request>, rev: nat): Db { StoreRun(Db(map[], rev), rs) }
  function SpacedRan(rs: seq<Request>, rev: nat): Spaced { SpacedRun(Spaced(map[], rev), rs) }

  lemma {:induction false} RunRepresents(rs: seq<Request>, rev: nat, places: Places)
    requires NamesUnique(places) && Over(rs, places)
    ensures Represents(Ran(rs, rev), SpacedRan(rs, rev), places)
  {
    var n := |rs| - 1;
    if n >= 0 {
      RunRepresents(rs[..n], rev, places);
      StepRepresents(Ran(rs[..n], rev), SpacedRan(rs[..n], rev), places, rs[n]);
    }
  }

  /** After every run a list shows exactly the live objects of all namespaces. */
  ghost predicate ListsEverything(places: Places) {
    forall rs, rev: nat :: Over(rs, places) ==> Listed(Ran(rs, rev)) == SpacedRan(rs, rev).objs.Values
  }

  /** What a namespaced store lists in one namespace. */
  ghost function ListedIn(m: Spaced, namespace: string): set<Stored> {
    set p | p in m.objs && p.0 == namespace :: m.objs[p]
  }

  ghost predicate Used(namespace: string, places: Places) { exists p :: p in places && p.0 == namespace }

  /** After every run a list shows exactly the live objects of the namespace it is asked in. */
  ghost predicate ListsNamespace(places: Places) {
    forall rs, rev: nat, namespace :: Over(rs, places) && Used(namespace, places) ==>
      Listed(Ran(rs, rev)) == ListedIn(SpacedRan(rs, rev), namespace)
  }

  ghost predicate OneNamespace(places: Places) {
    forall p, q :: p in places && q in places ==> p.0 == q.0
  }

  function CreateAt(p: (string, string)): Request { CreateReq(p.0, Object(p.0, p.1, "", 0, "", ""), "", 0) }

  lemma OneCreate(p: (string, string))
    ensures Ran([CreateAt(p)], 0).kv == map[KeyPath(p.1) := Stored(CreateAt(p).obj, 1)]
    ensures SpacedRan([CreateAt(p)], 0) == Spaced(map[p := Stored(CreateAt(p).obj, 1)], 1)
    ensures Listed(Ran([CreateAt(p)], 0)) == {Stored(CreateAt(p).obj, 1)}
  {
    var create := CreateAt(p);
    assert [create][..0] == [];
    assert StoreRun(Db(map[], 0), []) == Db(map[], 0) && SpacedRun(Spaced(map[], 0), []) == Spaced(map[], 0);
    assert Decide(CallOf(create), None) == Put(create.obj);
    assert HasPrefix(KeyPath(p.1), GROUP + "/");
    assert Ran([create], 0).kv[KeyPath(p.1)] == Stored(create.obj, 1);
  }

  /** A second object of the same name is kept out, in whatever namespace. */
  lemma TwoCreates(p: (string, string), q: (string, string))
    requires p != q && p.1 == q.1
    ensures Listed(Ran([CreateAt(p), CreateAt(q)], 0)) == {Stored(CreateAt(p).obj, 1)}
    ensures Stored(CreateAt(q).obj, 2) in SpacedRan([CreateAt(p), CreateAt(q)], 0).objs.Values
  {
    var rs := [CreateAt(p), CreateAt(q)];
    OneCreate(p);
    assert rs[..1] == [CreateAt(p)];
    FirstWriteWins(Ran(rs[..1], 0), CreateAt(q));
    assert SpacedRan(rs, 0).objs[q] == Stored(CreateAt(q).obj, 2);
  }

  /** A list asked of all namespaces is right, after all runs over some places, exactly
      when no name occurs there in two namespaces. */
  lemma ListsEverythingExactly(places: Places)
    ensures ListsEverything(places) <==> NamesUnique(places)
  {
    if NamesUnique(places) {
      forall rs, rev: nat | Over(rs, places) ensures Listed(Ran(rs, rev)) == SpacedRan(rs, rev).objs.Values {
        RunRepresents(rs, rev, places);
        ListedValues(Ran(rs, rev), SpacedRan(rs, rev), places);
      }
    } else {
      var p, q :| p in places && q in places && p.1 == q.1 && p.0 != q.0;
      var rs := [CreateAt(p), CreateAt(q)];
      TwoCreates(p, q);
      assert Over(rs, places);
      assert Listed(Ran(rs, 0)) != SpacedRan(rs, 0).objs.Values;
    }
  }

  /** A list asked in one namespace is right, after all runs over some places, exactly
      when all of them lie in one namespace: the namespace of the request is ignored. */
  lemma ListsNamespaceExactly(places: Places)
    ensures ListsNamespace(places) <==> OneNamespace(places)
  {
    if OneNamespace(places) {
      forall rs, rev: nat, namespace | Over(rs, places) && Used(namespace, places)
        ensures Listed(Ran(rs, rev)) == ListedIn(SpacedRan(rs, rev), namespace)
      {
        RunRepresents(rs, rev, places);
        ListedValues(Ran(rs, rev), SpacedRan(rs, rev), places);
        var m := SpacedRan(rs, rev);
        assert forall p :: p in m.objs ==> p in places && p.0 == namespace;
        assert ListedIn(m, namespace) == m.objs.Values;
      }
    } else {
      var p, q :| p in places && q in places && p.0 != q.0;
      OneCreate(p);
      assert Over([CreateAt(p)], places) && Used(q.0, places);
      assert Stored(CreateAt(p).obj, 1) !in ListedIn(SpacedRan([CreateAt(p)], 0), q.0);
    }
  }

  /** Lists included, the store behaves as a namespaced one exactly on one namespace. */
  lemma NamespacedExactly(places: Places)
    ensures Faithful(places) && ListsEverything(places) && ListsNamespace(places) <==> OneNamespace(places)
  {
    FaithfulExactly(places);
    ListsEverythingExactly(places);
    ListsNamespaceExactly(places);
  }
}
