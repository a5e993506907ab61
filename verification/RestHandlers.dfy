/** The storage provider object: its handlers call the etcd interface in place and
    turn its answers into replies. */
module RestHandlers {
  import opened Basics
  import opened EtcdStore
  import opened Orders
  import opened RestStore

  /** The storage interface, each call taking effect at once (RestConcurrency shows
      that requests served together have an order in which they can be served one at a time). */
  class Etcd {
    var db: Db

    constructor ()
      ensures db == Db(map[], 1)
    {
      db := Db(map[], 1);
    }

    method Perform(key: string, call: Call) returns (answer: Answer)
      modifies this
      ensures var d := Decide(call, old(db).At(key));
              db == old(db).Carry(key, d) && answer == AnswerAfter(d, old(db).At(key), old(db).rev + 1)
    {
      var d := Decide(call, db.At(key));
      answer := AnswerAfter(d, db.At(key), db.rev + 1);
      db := db.Carry(key, d);
    }

    /** reachable tells whether the read gets through to etcd. */
    method Get(key: string, reachable: bool) returns (answer: Answer)
      ensures !reachable ==> answer == Failed(Unreachable)
      ensures reachable ==> answer == if key in db.kv then Ok(db.kv[key]) else Failed(NotFound)
    {
      if !reachable {
        return Failed(Unreachable);
      }
      answer := if key in db.kv then Ok(db.kv[key]) else Failed(NotFound);
    }
  }

  datatype ConnectOptions = DeltaOption(fetchCBD: bool) | OtherOptions

  /** What discovering and calling the CBT service came to. */
  datatype Service = Entries(json: string) | ServiceFailed

  datatype HttpReply = Json(obj: Object, version: string) | HttpError(status: int)

  class Cbt {
    const etcd: Etcd

    constructor (etcd: Etcd)
      ensures this.etcd == etcd
    {
      this.etcd := etcd;
    }

    method Create(namespace: string, obj: Object, version: string, now: int) returns (reply: Reply)
      modifies etcd
      ensures (etcd.db, reply) == StoreStep(old(etcd.db), CreateReq(namespace, obj, version, now))
    {
      ghost var before := etcd.db;
      var casted := obj.(created := now);
      var answer := etcd.Perform(KeyPath(casted.name), EtcdStore.Create(casted, version));
      StoreStepIsCall(before, CreateReq(namespace, obj, version, now));
      match answer
      case Failed(KeyExists) => reply := Found(casted, "");
      case Failed(f) => reply := Error(f);
      case Ok(out) => reply := Rendered(out);
    }

    method Update(namespace: string, name: string, given: Option<Preconditions>, transform: Stored -> Option<Object>)
      returns (reply: Reply)
      modifies etcd
      ensures (etcd.db, reply) == StoreStep(old(etcd.db), UpdateReq(namespace, name, given, transform))
    {
      ghost var before := etcd.db;
      var preconditions: Option<Preconditions> := None;
      if given.Some? {
        preconditions := Some(Preconditions(given.value.uid, given.value.resourceVersion));
      }
      var answer := etcd.Perform(KeyPath(name), EtcdStore.Update(name, preconditions, transform));
      StoreStepIsCall(before, UpdateReq(namespace, name, given, transform));
      match answer
      case Failed(f) => reply := Error(f);
      case Ok(updated) => reply := Rendered(updated);
    }

    method Delete(namespace: string, name: string, given: Option<Preconditions>, validate: Stored -> bool)
      returns (reply: Reply)
      modifies etcd
      ensures (etcd.db, reply) == StoreStep(old(etcd.db), DeleteReq(namespace, name, given, validate))
    {
      ghost var before := etcd.db;
      var preconditions: Option<Preconditions> := None;
      if given.Some? {
        preconditions := Some(Preconditions(given.value.uid, given.value.resourceVersion));
      }
      var answer := etcd.Perform(KeyPath(name), EtcdStore.Delete(name, preconditions, validate));
      StoreStepIsCall(before, DeleteReq(namespace, name, given, validate));
      match answer
      case Failed(f) => reply := Error(f);
      case Ok(out) => reply := Rendered(out);
    }

    /** Reads the object and, if asked, fills its status from the CBT service, in the
        reply only: the store is not written.  A missing object is 404 whatever the
        options; any other trouble is 500. */
    method Connect(namespace: string, id: string, options: ConnectOptions, reachable: bool, service: Service)
      returns (reply: HttpReply)
      ensures !reachable ==> reply == HttpError(500)
      ensures var read := StoreStep(etcd.db, GetReq(namespace, id)).1;
              && (reply == HttpError(404) <==> reachable && read == Error(NotFound))
              && (reachable && read.Found? && options == DeltaOption(false) ==> reply == Json(read.obj, read.version))
              && (reachable && read.Found? && options == DeltaOption(true) && service.Entries? ==>
                    reply == Json(read.obj.(status := service.json), read.version))
              && (read.Found? && (options.OtherOptions? || (options.fetchCBD && service.ServiceFailed?)) ==>
                    reply == HttpError(500))
    {
      var answer := etcd.Get(KeyPath(id), reachable);
      if answer.Failed? {
        var status := 500;
        if answer.failure == NotFound {
          status := 404;
        }
        return HttpError(status);
      }
      var result := answer.result;
      if !options.DeltaOption? {
        return HttpError(500);
      }
      if !options.fetchCBD {
        return Json(result.obj, ResourceVersion(result.rev));
      }
      if service.ServiceFailed? {
        return HttpError(500);
      }
      var obj := result.obj.(status := service.json);
      reply := Json(obj, ResourceVersion(result.rev));
    }

    /** Ranges over the keys below the group's directory; keys records the order met. */
    method List() returns (items: seq<Stored>, ghost keys: seq<string>)
      ensures IsOrder(keys, set k | k in etcd.db.kv && HasPrefix(k, GROUP + "/"))
      ensures |items| == |keys|
      ensures forall i :: 0 <= i < |keys| ==> keys[i] in etcd.db.kv && items[i] == etcd.db.kv[keys[i]]
      ensures (set i | 0 <= i < |items| :: items[i]) == Listed(etcd.db)
    {
      items, keys := [], [];
      var kv := etcd.db.kv;
      var rest := kv.Keys;
      ghost var wanted := set k | k in kv && HasPrefix(k, GROUP + "/");
      while rest != {}
        invariant rest <= kv.Keys
        invariant IsOrder(keys, wanted - rest)
        invariant |items| == |keys| && forall i :: 0 <= i < |keys| ==> keys[i] in kv && items[i] == kv[keys[i]]
      {
        var k :| k in rest;
        if HasPrefix(k, GROUP + "/") {
          items, keys := items + [kv[k]], keys + [k];
        }
        rest := rest - {k};
      }
      assert wanted - rest == wanted;
      forall x | x in Listed(etcd.db) ensures x in set i | 0 <= i < |items| :: items[i] {
        var k :| k in wanted && x == kv[k];
        assert k in keys;
      }
      forall i | 0 <= i < |items| ensures items[i] in Listed(etcd.db) {
        assert keys[i] in keys && keys[i] in wanted;
      }
    }
  }
}
