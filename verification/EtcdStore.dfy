/** A revisioned store of named objects and the meaning of one storage call applied
    to it atomically.  The meaning is given on the single cell a call addresses. */
module EtcdStore {
  import opened Basics
  import opened Decimal

  const GROUP: string := "cbt.storage.k8s.io"

  function KeyPath(name: string): string { GROUP + "/" + name }

  lemma KeyPathExactly(name: string)
    ensures KeyPath(name) == "cbt.storage.k8s.io/" + name
  {
    assert GROUP + "/" == "cbt.storage.k8s.io/";
  }

  lemma KeyPathInjective(a: string, b: string)
    requires KeyPath(a) == KeyPath(b)
    ensures a == b
  {
    assert KeyPath(a)[|GROUP| + 1..] == a;
    assert KeyPath(b)[|GROUP| + 1..] == b;
  }

  /** A VolumeSnapshotDelta as encoded for storage (no resource version). */
  datatype Object = Object(namespace: string, name: string, uid: string, created: int, spec: string, status: string)

  const ZERO_OBJECT := Object("", "", "", 0, "", "")

  /** An object together with the revision of the write that stored it. */
  datatype Stored = Stored(obj: Object, rev: nat)

  type Cell = Option<Stored>

  /** The resource version a client sees: empty for a missing object. */
  function ResourceVersion(rev: nat): string { if rev == 0 then "" else Print(rev) }

  /** What a client may read of a cell when missing objects read as zero. */
  function View(c: Cell): Stored { if c.None? then Stored(ZERO_OBJECT, 0) else c.value }

  datatype Preconditions = Preconditions(uid: Option<string>, resourceVersion: Option<string>)

  predicate Holds(pre: Option<Preconditions>, s: Stored) {
    pre.Some? ==>
      && (pre.value.uid.Some? ==> pre.value.uid.value == s.obj.uid)
      && (pre.value.resourceVersion.Some? ==> pre.value.resourceVersion.value == ResourceVersion(s.rev))
  }

  datatype Failure = NotFound | KeyExists | PreconditionFailed | Rejected | VersionSet | Unreachable

  datatype Answer = Ok(result: Stored) | Failed(failure: Failure)

  /** transform is the caller's UpdatedObject, validate its deletion check. */
  datatype Call =
    | Create(obj: Object, version: string)
    | Update(name: string, pre: Option<Preconditions>, transform: Stored -> Option<Object>)
    | Delete(name: string, pre: Option<Preconditions>, validate: Stored -> bool)
  {
    function Name(): string {
      match this case Create(obj, _) => obj.name case Update(n, _, _) => n case Delete(n, _, _) => n
    }

    function Key(): string { KeyPath(Name()) }

    function Pre(): Option<Preconditions> {
      match this case Create(_, _) => None case Update(_, pre, _) => pre case Delete(_, pre, _) => pre
    }

    /** The precondition names resource version v. */
    predicate Carries(v: string) { Pre().Some? && Pre().value.resourceVersion == Some(v) }
  }

  /** What a call decides after reading its cell: to answer without writing, or to
      put or remove the object provided the cell still has the revision read. */
  datatype Decision = Reply(answer: Answer) | Put(obj: Object) | Remove

  function Decide(call: Call, c: Cell): Decision {
    match call
    case Create(obj, version) =>
      if Parsed(version).Some? && Parsed(version).value != 0 then Reply(Failed(VersionSet))
      else if c.Some? then Reply(Failed(KeyExists))
      else Put(obj)
    case Update(_, pre, transform) =>
      if !Holds(pre, View(c)) then Reply(Failed(PreconditionFailed))
      else
        var updated := transform(View(c));
        if updated.None? then Reply(Failed(Rejected))
        else if c.Some? && updated.value == c.value.obj then Reply(Ok(c.value))  // nothing to write
        else Put(updated.value)
    case Delete(_, pre, validate) =>
      if c.None? then Reply(Failed(NotFound))
      else if !Holds(pre, c.value) then Reply(Failed(PreconditionFailed))
      else if !validate(c.value) then Reply(Failed(Rejected))
      else Remove
  }

  predicate Writes(d: Decision) { d.Put? || d.Remove? }

  /** The cell after a decision is carried out at revision rev. */
  function CellAfter(d: Decision, c: Cell, rev: nat): Cell {
    match d case Reply(_) => c case Put(obj) => Some(Stored(obj, rev)) case Remove => None
  }

  /** The answer given once the decision is carried out at revision rev. */
  function AnswerAfter(d: Decision, c: Cell, rev: nat): Answer {
    match d case Reply(a) => a case Put(obj) => Ok(Stored(obj, rev)) case Remove => Ok(View(c))
  }

  // ---------- the whole store ----------

  datatype Db = Db(kv: map<string, Stored>, rev: nat) {
    function At(key: string): Cell { if key in kv then Some(kv[key]) else None }

    /** Revisions stored are ones already issued. */
    ghost predicate Valid() {
      forall k :: k in kv ==> 1 <= kv[k].rev <= rev
    }

    function Carry(key: string, d: Decision): Db {
      match d
      case Reply(_) => this
      case Put(obj) => Db(kv[key := Stored(obj, rev + 1)], rev + 1)
      case Remove => Db(kv - {key}, rev + 1)
    }

    /** The call taking effect in one step. */
    function After(call: Call): Db { Carry(call.Key(), Decide(call, At(call.Key()))) }

    function AnswerTo(call: Call): Answer {
      AnswerAfter(Decide(call, At(call.Key())), At(call.Key()), rev + 1)
    }
  }
}
