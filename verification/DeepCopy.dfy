/** Deep copying of the VolumeSnapshotDelta API objects on the heap.  A Go slice is
    a nullable array; a struct embedded in another is an object owned by its
    container through a const field; the elements of a slice of structs are objects. */
module DeepCopy {

  import opened Basics
  import opened Metadata

  datatype DataToken = DataToken(token: string, issuanceTime: int, ttl: int)
  datatype Spec = Spec(base: string, target: string, mode: string)

  // Abstract values: what the objects say, without where they are stored.
  datatype BlockValue = BlockValue(offset: uint64, blockSizeBytes: uint64, dataToken: DataToken)
  datatype StatusValue = StatusValue(error: string, changed: Option<seq<Option<BlockValue>>>)
  datatype DeltaValue = DeltaValue(typeMeta: TypeMeta, meta: ObjectMeta, spec: Spec, status: StatusValue)
  datatype ListValue = ListValue(typeMeta: TypeMeta, meta: ListMeta, items: Option<seq<DeltaValue>>)

  const ZERO_DELTA := DeltaValue(TypeMeta("", ""), ZERO_META, Spec("", "", ""), StatusValue("", None))

  const MODE_BLOCK := "block"

  /** The value with its empty mode filled in. */
  function Defaulted(v: DeltaValue): DeltaValue {
    if v.spec.mode == "" then v.(spec := v.spec.(mode := MODE_BLOCK)) else v
  }

  class ChangedBlockDelta {
    var offset: uint64
    var blockSizeBytes: uint64
    var dataToken: DataToken

    function Value(): BlockValue
      reads this
    {
      BlockValue(offset, blockSizeBytes, dataToken)
    }

    constructor ()
    {
      offset, blockSizeBytes, dataToken := 0, 0, DataToken("", 0, 0);
    }

    method DeepCopyInto(out: ChangedBlockDelta)
      modifies out
      ensures out.Value() == old(Value())
    {
      out.offset, out.blockSizeBytes, out.dataToken := offset, blockSizeBytes, dataToken;
      out.dataToken := dataToken;
    }
  }

  /** The values of a slice of nullable entries. */
  ghost function BlockValues(s: seq<ChangedBlockDelta?>): (r: seq<Option<BlockValue>>)
    reads s
    ensures |r| == |s|
    ensures forall i :: 0 <= i < |s| ==> r[i] == (if s[i] == null then None else Some(s[i].Value()))
  {
    seq(|s|, i requires 0 <= i < |s| reads s => if s[i] == null then None else Some(s[i].Value()))
  }

  /** Entry values change only if an entry object does. */
  twostate lemma BlocksFramed(s: seq<ChangedBlockDelta?>)
    requires forall e :: e in s && e != null ==> unchanged(e)
    ensures BlockValues(s) == old(BlockValues(s))
  {
    assert forall i :: 0 <= i < |s| && s[i] != null ==> s[i] in s;
  }

  /** No entry object occurs twice. */
  ghost predicate NoRepeats(s: seq<ChangedBlockDelta?>) {
    forall i, j :: 0 <= i < j < |s| && s[i] != null ==> s[i] != s[j]
  }

  ghost function EntryObjects(s: seq<ChangedBlockDelta?>): set<object> {
    set e: object | e in s
  }

  ghost predicate CopiedEntry(a: ChangedBlockDelta?, b: ChangedBlockDelta?)
    reads a, b
  {
    (a == null <==> b == null) && (a != null ==> a.Value() == b.Value())
  }

  /** The loop of the status copy.  src is read again after dst was installed, so the
      two may be the same array, and then there is nothing left to copy. */
  method CopyEntries(src: array<ChangedBlockDelta?>, dst: array<ChangedBlockDelta?>)
    requires src.Length == dst.Length
    requires forall j :: 0 <= j < dst.Length ==> dst[j] == null
    modifies dst
    ensures BlockValues(src[..]) == old(BlockValues(src[..])) == BlockValues(dst[..])
    ensures fresh(EntryObjects(dst[..])) && NoRepeats(dst[..])
  {
    for i := 0 to src.Length
      invariant src == dst ==> forall j :: 0 <= j < dst.Length ==> dst[j] == null
      invariant src[..] == old(src[..])
      invariant forall j :: 0 <= j < i ==> CopiedEntry(src[j], dst[j])
      invariant forall j :: i <= j < dst.Length ==> dst[j] == null
      invariant forall j :: 0 <= j < i && dst[j] != null ==> fresh(dst[j])
      invariant forall j, k :: 0 <= j < k < i && dst[j] != null ==> dst[j] != dst[k]
    {
      if src[i] != null {
        var entry := new ChangedBlockDelta();
        dst[i] := entry;
        src[i].DeepCopyInto(entry);
      }
    }
    BlocksFramed(src[..]);
    assert BlockValues(src[..]) == BlockValues(dst[..]);
  }

  class VolumeSnapshotDeltaStatus {
    var error: string
    var changed: array?<ChangedBlockDelta?>

    ghost function Value(): StatusValue
      reads this, changed, if changed == null then [] else changed[..]
    {
      StatusValue(error, if changed == null then None else Some(BlockValues(changed[..])))
    }

    /** What hangs off the status: its array and its entries. */
    ghost function Parts(): set<object>
      reads this, changed
    {
      if changed == null then {} else {changed as object} + EntryObjects(changed[..])
    }

    ghost predicate Unshared()
      reads this, changed
    {
      changed != null ==> NoRepeats(changed[..])
    }

    constructor ()
      ensures Value() == StatusValue("", None)
    {
      error, changed := "", null;
    }

    /** Copies the receiver into out.  The shallow assignment first makes out share
        the receiver's array; the loop then fills a fresh array with fresh entries.
        Copying a status into itself loses every entry, because the fresh array has
        by then replaced the one being read. */
    method DeepCopyInto(out: VolumeSnapshotDeltaStatus)
      modifies out
      ensures this != out ==> Value() == old(Value()) && out.Value() == old(Value())
      ensures this == out ==> out.Value() == Emptied(old(Value()))
      ensures fresh(out.Parts()) && out.Unshared()
    {
      out.error, out.changed := error, changed;
      if changed != null {
        out.changed := new ChangedBlockDelta?[changed.Length](_ => null);
        if this == out {
          assert BlockValues(changed[..]) == seq(changed.Length, _ => None);
        } else {
          BlocksFramed(changed[..]);
        }
        CopyEntries(changed, out.changed);
      }
    }

    static method DeepCopy(src: VolumeSnapshotDeltaStatus?) returns (out: VolumeSnapshotDeltaStatus?)
      ensures out == null <==> src == null
      ensures src != null ==> src.Value() == old(src.Value()) == out.Value()
      ensures src != null ==> fresh(out) && fresh(out.Parts()) && out.Unshared()
    {
      if src == null {
        return null;
      }
      out := new VolumeSnapshotDeltaStatus();
      src.DeepCopyInto(out);
    }
  }

  /** The same status with every entry replaced by nil. */
  ghost function Emptied(v: StatusValue): StatusValue {
    if v.changed.None? then v else v.(changed := Some(seq(|v.changed.value|, _ => None)))
  }

  /** An object copied into itself. */
  ghost function SelfCopied(v: DeltaValue): DeltaValue {
    v.(meta := Stripped(v.meta), status := Emptied(v.status))
  }

  ghost predicate NoEntries(v: StatusValue) {
    v.changed.Some? ==> forall i :: 0 <= i < |v.changed.value| ==> v.changed.value[i].None?
  }

  /** Copying a status into itself is harmless exactly when there is no entry to lose. */
  lemma SelfCopyHarmless(v: StatusValue)
    ensures Emptied(v) == v <==> NoEntries(v)
  {
    if v.changed.Some? && NoEntries(v) {
      assert Emptied(v).changed.value == v.changed.value;
    }
  }

  /** An object survives a copy into itself exactly when it has no entry and its
      metadata is bare: no labels, annotations, grace period and the like. */
  lemma DeltaSelfCopyHarmless(v: DeltaValue)
    ensures SelfCopied(v) == v <==> Bare(v.meta) && NoEntries(v.status)
  {
    SelfCopyHarmless(v.status);
    StrippedUnchanged(v.meta);
  }

  class VolumeSnapshotDelta {
    var typeMeta: TypeMeta
    var meta: ObjectMeta
    var spec: Spec
    const status: VolumeSnapshotDeltaStatus  // embedded

    ghost function Value(): DeltaValue
      reads this, status, status.changed, if status.changed == null then [] else status.changed[..]
    {
      DeltaValue(typeMeta, meta, spec, status.Value())
    }

    ghost function Footprint(): set<object>
      reads this, status, status.changed
    {
      {this, status} + status.Parts()
    }

    constructor ()
      ensures fresh(status) && Value() == ZERO_DELTA
    {
      typeMeta, meta, spec := ZERO_DELTA.typeMeta, ZERO_DELTA.meta, ZERO_DELTA.spec;
      status := new VolumeSnapshotDeltaStatus();
    }

    method DeepCopyInto(out: VolumeSnapshotDelta)
      requires this == out <==> status == out.status
      modifies out, out.status
      ensures this != out ==> Value() == old(Value()) && out.Value() == old(Value())
      ensures this == out ==> out.Value() == SelfCopied(old(Value()))
      ensures fresh(out.status.Parts()) && out.status.Unshared()
    {
      ghost var before := status.Value();
      out.typeMeta, out.meta, out.spec := typeMeta, meta, spec;
      out.status.error, out.status.changed := status.error, status.changed;
      out.typeMeta := typeMeta;
      CopyMeta(out);
      out.spec := spec;
      if status.changed != null { BlocksFramed(status.changed[..]); }
      assert status.Value() == before;
      status.DeepCopyInto(out.status);
      assert this != out ==> status.Value() == before;
    }

    /** Every field behind a pointer, map or slice is replaced in out before it is read. */
    method CopyMeta(out: VolumeSnapshotDelta)
      modifies out`meta
      ensures this != out ==> out.meta == old(meta)
      ensures this == out ==> out.meta == Stripped(old(meta))
    {
      out.meta := meta;
      if meta.gracePeriod.Some? {
        out.meta := out.meta.(gracePeriod := Some(0));
        out.meta := out.meta.(gracePeriod := meta.gracePeriod);
      }
      CopyMaps(out);
      CopySlices(out);
    }

    /** The labels and annotations. */
    method CopyMaps(out: VolumeSnapshotDelta)
      requires out.meta.labels == meta.labels && out.meta.annotations == meta.annotations
      modifies out`meta
      ensures this != out ==> out.meta == old(out.meta)
      ensures this == out ==>
                out.meta == old(meta.(labels := Stripped(meta).labels, annotations := Stripped(meta).annotations))
    {
      if meta.labels.Some? {
        out.meta := out.meta.(labels := Some(map[]));
        var labels := CopyStrings(meta.labels.value);
        out.meta := out.meta.(labels := Some(labels));
      }
      if meta.annotations.Some? {
        out.meta := out.meta.(annotations := Some(map[]));
        var annotations := CopyStrings(meta.annotations.value);
        out.meta := out.meta.(annotations := Some(annotations));
      }
    }

    /** The slices; their elements are copied as values, in order. */
    method CopySlices(out: VolumeSnapshotDelta)
      modifies out`meta
      ensures this != out ==>
                out.meta == old(out.meta.(
                  owners := meta.owners, finalizers := meta.finalizers, managed := meta.managed))
      ensures this == out ==>
                var m := Stripped(old(meta));
                out.meta == old(meta).(owners := m.owners, finalizers := m.finalizers, managed := m.managed)
    {
      out.meta := out.meta.(owners := Zeros(meta.owners, ZERO_OWNER));
      out.meta := out.meta.(owners := meta.owners);
      out.meta := out.meta.(finalizers := Zeros(meta.finalizers, ""));
      out.meta := out.meta.(finalizers := meta.finalizers);
      out.meta := out.meta.(managed := Zeros(meta.managed, ZERO_MANAGED));
      out.meta := out.meta.(managed := meta.managed);
    }

    static method DeepCopy(src: VolumeSnapshotDelta?) returns (out: VolumeSnapshotDelta?)
      ensures out == null <==> src == null
      ensures src != null ==> src.Value() == old(src.Value()) == out.Value()
      ensures src != null ==> fresh(out.Footprint()) && out.status.Unshared()
    {
      if src == null {
        return null;
      }
      out := new VolumeSnapshotDelta();
      src.DeepCopyInto(out);
    }

    method SetDefaults()
      modifies this`spec
      ensures Value() == Defaulted(old(Value()))
    {
      if spec.mode == "" {
        spec := spec.(mode := MODE_BLOCK);
      }
    }
  }

  twostate lemma StatusFramed(st: VolumeSnapshotDeltaStatus)
    requires unchanged(st)
    requires st.changed != null ==>
               unchanged(st.changed) && forall e :: e in st.changed[..] && e != null ==> unchanged(e)
    ensures st.Value() == old(st.Value())
  {
    if st.changed != null {
      assert st.changed[..] == old(st.changed[..]);
      BlocksFramed(st.changed[..]);
    }
  }

  /** A delta changes, in value or in shape, only if one of its objects does. */
  twostate lemma DeltaFramed(d: VolumeSnapshotDelta)
    requires forall o :: o in old(d.Footprint()) ==> unchanged(o)
    ensures d.Value() == old(d.Value()) && d.Footprint() == old(d.Footprint())
    ensures d.status.Unshared() == old(d.status.Unshared())
  {
    assert d in old(d.Footprint()) && d.status in old(d.Footprint());
    if d.status.changed != null {
      assert d.status.changed in old(d.Footprint());
      forall e | e in d.status.changed[..] && e != null ensures unchanged(e) {
        assert e in old(d.Footprint());
      }
      assert d.status.changed[..] == old(d.status.changed[..]);
      BlocksFramed(d.status.changed[..]);
      assert d.status.Value() == old(d.status.Value());
    }
  }

  // ---------- slices of deltas ----------

  ghost function AllFootprints(s: seq<VolumeSnapshotDelta>): set<object>
    reads s, set d | d in s :: d.status
    reads set d | d in s :: d.status.changed
  {
    set d, o | d in s && o in d.Footprint() :: o
  }

  ghost function ItemValues(s: seq<VolumeSnapshotDelta>): (r: seq<DeltaValue>)
    reads s, set d | d in s :: d.status
    reads set d | d in s :: d.status.changed
    reads AllFootprints(s)
    ensures |r| == |s|
    ensures forall i :: 0 <= i < |s| ==> r[i] == s[i].Value()
  {
    seq(|s|, i requires 0 <= i < |s|
      reads s, set d | d in s :: d.status
      reads set d | d in s :: d.status.changed
      reads AllFootprints(s) =>
        assert s[i] in s && forall o :: o in s[i].Footprint() ==> o in AllFootprints(s);
        s[i].Value())
  }

  /** No object is reachable from two elements. */
  ghost predicate Separate(s: seq<VolumeSnapshotDelta>)
    reads s, set d | d in s :: d.status
    reads set d | d in s :: d.status.changed
  {
    forall i, j :: 0 <= i < j < |s| ==> s[i].Footprint() !! s[j].Footprint()
  }

  ghost predicate AllUnshared(s: seq<VolumeSnapshotDelta>)
    reads s, set d | d in s :: d.status
    reads set d | d in s :: d.status.changed
  {
    forall i :: 0 <= i < |s| ==> s[i].status.Unshared()
  }

  /** Item values change only if a reachable object does. */
  twostate lemma ItemsFramed(s: seq<VolumeSnapshotDelta>)
    requires forall o :: o in old(AllFootprints(s)) ==> unchanged(o)
    ensures ItemValues(s) == old(ItemValues(s)) && AllFootprints(s) == old(AllFootprints(s))
  {
    forall d | d in s ensures d.Value() == old(d.Value()) && d.Footprint() == old(d.Footprint()) {
      assert forall o :: o in old(d.Footprint()) ==> o in old(AllFootprints(s));
      DeltaFramed(d);
    }
    forall i | 0 <= i < |s| ensures s[i].Value() == old(s[i].Value()) {
      assert s[i] in s;
    }
  }

  twostate lemma FreshFootprints(new s: seq<VolumeSnapshotDelta>, new cells: set<object>)
    requires forall i :: 0 <= i < |s| ==> s[i] in cells && s[i].status in cells && fresh(s[i].status.Parts())
    ensures forall o :: o in AllFootprints(s) ==> o in cells || fresh(o)
  {
    forall d, o | d in s && o in d.Footprint() && o !in cells ensures fresh(o) {
      var i :| 0 <= i < |s| && s[i] == d;
    }
  }

  /** make([]VolumeSnapshotDelta, n): n zero elements; cells collects their storage. */
  method MakeItems(n: nat) returns (a: array<VolumeSnapshotDelta>, ghost cells: set<object>)
    ensures fresh(a) && a.Length == n && fresh(cells) && a !in cells
    ensures forall i :: 0 <= i < n ==>
              a[i].Value() == ZERO_DELTA && a[i].Footprint() <= cells && a[i].status.Parts() == {}
    ensures Separate(a[..])
  {
    var made: seq<VolumeSnapshotDelta> := [];
    cells := {};
    for i := 0 to n
      invariant |made| == i && fresh(cells)
      invariant forall j :: 0 <= j < i ==>
                  made[j].Value() == ZERO_DELTA && made[j].Footprint() <= cells && made[j].status.Parts() == {}
      invariant Separate(made)
    {
      var d := new VolumeSnapshotDelta();
      assert d.Footprint() !! cells;
      made := made + [d];
      cells := cells + d.Footprint();
    }
    a := new VolumeSnapshotDelta[n](i requires 0 <= i < n => made[i]);
    assert a[..] == made;
  }

  /** Writing only objects of w leaves every delta alone that reaches none of them. */
  twostate lemma DeltaUntouched(d: VolumeSnapshotDelta, new w: set<object>)
    requires forall o :: o !in w && old(allocated(o)) ==> unchanged(o)
    requires old(d.Footprint()) !! w
    ensures d.Value() == old(d.Value()) && d.Footprint() == old(d.Footprint())
    ensures d.status.Unshared() == old(d.status.Unshared())
  {
    DeltaFramed(d);
  }

  /** One iteration of the list copy, seen from the whole destination dst. */
  method CopyItem(from: VolumeSnapshotDelta, to: VolumeSnapshotDelta, ghost dst: seq<VolumeSnapshotDelta>, ghost i: nat)
    requires i < |dst| && to == dst[i] && Separate(dst)
    requires from == to <==> from.status == to.status
    modifies to, to.status
    ensures from != to ==> to.Value() == old(from.Value())
    ensures from == to ==> to.Value() == SelfCopied(old(to.Value()))
    ensures fresh(to.status.Parts()) && to.status.Unshared()
    ensures Separate(dst)
    ensures forall j :: 0 <= j < |dst| && j != i ==>
              && dst[j].Value() == old(dst[j].Value())
              && dst[j].Footprint() == old(dst[j].Footprint())
              && dst[j].status.Unshared() == old(dst[j].status.Unshared())
  {
    ghost var w: set<object> := {to, to.status};
    assert forall j :: 0 <= j < |dst| && j != i ==> dst[j].Footprint() !! w by {
      assert w <= to.Footprint();
    }
    from.DeepCopyInto(to);
    forall j | 0 <= j < |dst| && j != i
      ensures dst[j].Value() == old(dst[j].Value()) && dst[j].Footprint() == old(dst[j].Footprint())
      ensures dst[j].status.Unshared() == old(dst[j].status.Unshared())
    {
      DeltaUntouched(dst[j], w);
    }
    forall j | 0 <= j < |dst| && j != i ensures dst[j].Footprint() !! to.Footprint() {
      ghost var f := old(dst[j].Footprint());
      assert f !! w && f !! to.status.Parts();
    }
    forall j, k | 0 <= j < k < |dst| ensures dst[j].Footprint() !! dst[k].Footprint() {
      if j != i && k != i {
        assert old(dst[j].Footprint() !! dst[k].Footprint());
      }
    }
  }

  /** The zero elements of a fresh slice dst, stored in cells, before src is copied into it. */
  ghost predicate ReadyToCopy(src: array<VolumeSnapshotDelta>, dst: array<VolumeSnapshotDelta>, cells: set<object>)
    reads src, dst, src[..], dst[..], set d | d in src[..] :: d.status, set d | d in dst[..] :: d.status
    reads set d | d in src[..] :: d.status.changed, set d | d in dst[..] :: d.status.changed
  {
    && src.Length == dst.Length && src !in cells && dst !in cells
    && (forall j :: 0 <= j < dst.Length ==> dst[j] in cells && dst[j].status in cells)
    && (src != dst ==> forall j :: 0 <= j < src.Length ==> src[j].Footprint() !! cells)
    && Separate(dst[..])
  }

  /** The loop of the list copy.  As for entries, src is read again after dst was
      installed, so the two may be the same array of zero elements. */
  method CopyEach(src: array<VolumeSnapshotDelta>, dst: array<VolumeSnapshotDelta>, ghost cells: set<object>)
    requires ReadyToCopy(src, dst, cells)
    requires src == dst ==> forall j :: 0 <= j < src.Length ==> src[j].Value() == ZERO_DELTA
    modifies cells
    ensures src[..] == old(src[..]) && dst[..] == old(dst[..])
    ensures forall j :: 0 <= j < src.Length ==> src[j].Value() == old(src[j].Value()) == dst[j].Value()
    ensures forall j :: 0 <= j < dst.Length ==> fresh(dst[j].status.Parts())
    ensures Separate(dst[..]) && AllUnshared(dst[..])
  {
    ghost var out := dst[..];
    for i := 0 to src.Length
      invariant src[..] == old(src[..]) && dst[..] == out && Separate(out)
      invariant forall j :: 0 <= j < src.Length ==> src[j].Value() == old(src[j].Value())
      invariant src != dst ==> forall j :: 0 <= j < src.Length ==> src[j].Footprint() == old(src[j].Footprint())
      invariant forall j :: 0 <= j < i ==>
                  out[j].Value() == src[j].Value() && fresh(out[j].status.Parts()) && out[j].status.Unshared()
    {
      label before:
      CopyItem(src[i], dst[i], out, i);
      if src != dst {
        forall j | 0 <= j < src.Length
          ensures src[j].Value() == old@before(src[j].Value()) && src[j].Footprint() == old@before(src[j].Footprint())
        {
          DeltaUntouched@before(src[j], {dst[i], dst[i].status});
        }
      }
    }
  }

  method CopyItems(src: array<VolumeSnapshotDelta>, dst: array<VolumeSnapshotDelta>, ghost cells: set<object>)
    requires ReadyToCopy(src, dst, cells)
    requires src == dst ==> forall j :: 0 <= j < src.Length ==> src[j].Value() == ZERO_DELTA
    modifies cells
    ensures src[..] == old(src[..]) && dst[..] == old(dst[..])
    ensures ItemValues(src[..]) == old(ItemValues(src[..])) == ItemValues(dst[..])
    ensures forall o :: o in AllFootprints(dst[..]) ==> o in cells || fresh(o)
    ensures Separate(dst[..]) && AllUnshared(dst[..])
  {
    CopyEach(src, dst, cells);
    forall j | 0 <= j < src.Length
      ensures ItemValues(src[..])[j] == old(ItemValues(src[..]))[j] == ItemValues(dst[..])[j]
    {
      assert old(src[..])[j] == old(src[j]);
    }
    FreshFootprints(dst[..], cells);
  }

  /** A fresh slice with the values of src, sharing nothing with anything allocated before. */
  method CopySlice(src: array<VolumeSnapshotDelta>) returns (dst: array<VolumeSnapshotDelta>)
    ensures fresh(dst) && dst.Length == src.Length
    ensures ItemValues(src[..]) == old(ItemValues(src[..])) == ItemValues(dst[..])
    ensures fresh(AllFootprints(dst[..])) && Separate(dst[..]) && AllUnshared(dst[..])
  {
    ghost var cells;
    dst, cells := MakeItems(src.Length);
    ItemsFramed(src[..]);
    forall j | 0 <= j < src.Length ensures src[j].Footprint() !! cells {
      DeltaFramed(src[j]);
    }
    CopyItems(src, dst, cells);
  }

  /** The loop of SetDefaultsVolumeSnapshotDeltaList. */
  method SetEachDefault(items: array<VolumeSnapshotDelta>)
    modifies items[..]
    ensures items[..] == old(items[..])
    ensures forall j :: 0 <= j < items.Length ==> items[j].Value() == Defaulted(old(items[j].Value()))
  {
    ghost var s := items[..];
    for i := 0 to items.Length
      invariant items[..] == s
      invariant forall j :: 0 <= j < i ==> s[j].Value() == Defaulted(old(s[j].Value()))
      invariant forall j :: i <= j < |s| ==>
                  s[j].Value() == Defaulted(old(s[j].Value())) || s[j].Value() == old(s[j].Value())
    {
      var a := items[i];
      label before:
      a.SetDefaults();
      forall j | 0 <= j < |s| ensures s[j].status.Value() == old@before(s[j].status.Value()) {
        StatusFramed@before(s[j].status);
      }
    }
  }

  twostate lemma ShapeFramed(s: seq<VolumeSnapshotDelta>)
    requires forall o :: o in old(AllFootprints(s)) ==> unchanged(o)
    ensures Separate(s) == old(Separate(s)) && AllUnshared(s) == old(AllUnshared(s))
  {
    forall i | 0 <= i < |s|
      ensures s[i].Footprint() == old(s[i].Footprint()) && s[i].status.Unshared() == old(s[i].status.Unshared())
    {
      assert s[i] in s && forall o :: o in old(s[i].Footprint()) ==> o in old(AllFootprints(s));
      DeltaFramed(s[i]);
    }
  }

  /** No list is reachable from its items. */
  lemma ListNotReachable(s: seq<VolumeSnapshotDelta>, l: VolumeSnapshotDeltaList)
    ensures l !in AllFootprints(s)
  {
    forall d | d in s ensures l !in d.Footprint() {
      assert d.status.changed != null ==> l !in EntryObjects(d.status.changed[..]);
    }
  }

  /** Assigning to a list leaves items, whoever's they are, alone. */
  twostate lemma ListWritten(s: seq<VolumeSnapshotDelta>, new l: VolumeSnapshotDeltaList)
    requires forall o :: o in old(AllFootprints(s)) && o != l ==> unchanged(o)
    requires l !in old(AllFootprints(s))
    ensures ItemValues(s) == old(ItemValues(s)) && AllFootprints(s) == old(AllFootprints(s))
    ensures Separate(s) == old(Separate(s)) && AllUnshared(s) == old(AllUnshared(s))
  {
    ItemsFramed(s);
    ShapeFramed(s);
  }

  class VolumeSnapshotDeltaList {
    var typeMeta: TypeMeta
    var meta: ListMeta
    var items: array?<VolumeSnapshotDelta>

    ghost function Items(): seq<VolumeSnapshotDelta>
      reads this, items
    {
      if items == null then [] else items[..]
    }

    ghost function Value(): ListValue
      reads this, items, Items(), set d | d in Items() :: d.status
      reads set d | d in Items() :: d.status.changed
      reads AllFootprints(Items())
    {
      ListValue(typeMeta, meta, if items == null then None else Some(ItemValues(items[..])))
    }

    /** What hangs off the list: its array and everything reachable from the items. */
    ghost function Parts(): set<object>
      reads this, items, Items(), set d | d in Items() :: d.status
      reads set d | d in Items() :: d.status.changed
    {
      if items == null then {} else {items as object} + AllFootprints(items[..])
    }

    /** Everything reachable from the list. */
    ghost function Footprint(): set<object>
      reads this, items, Items(), set d | d in Items() :: d.status
      reads set d | d in Items() :: d.status.changed
    {
      {this} + Parts()
    }

    constructor ()
      ensures items == null
    {
      typeMeta, meta, items := TypeMeta("", ""), ListMeta("", "", "", None), null;
    }

    /** Copies the receiver into out.  Copying a list into itself zeroes every item,
        because the fresh slice has by then replaced the one being read; the loop is
        the same in both cases. */
    method DeepCopyInto(out: VolumeSnapshotDeltaList)
      modifies out
      ensures this != out ==> Value() == old(Value()) && out.Value() == old(Value())
      ensures this == out ==> out.Value() == Zeroed(old(Value()))
      ensures fresh(out.Parts()) && Separate(out.Items()) && AllUnshared(out.Items())
    {
      AssignTo(out);
      if items != null {
        if this == out {
          CopyOntoItself();
          assert ItemValues(items[..]) == Zeroed(old(Value())).items.value;
        } else {
          CopyOnto(out);
        }
        assert out.Parts() == {out.items as object} + AllFootprints(out.items[..]);
      }
    }

    /** The shallow *out = *in, and the list's own metadata. */
    method AssignTo(out: VolumeSnapshotDeltaList)
      modifies out
      ensures out.typeMeta == typeMeta == old(typeMeta)
      ensures out.meta == (if this == out then StrippedList(old(meta)) else old(meta))
      ensures this != out ==> meta == old(meta)
      ensures out.items == items == old(items)
      ensures items != null ==> ItemValues(items[..]) == old(ItemValues(items[..]))
    {
      ListNotReachable(Items(), out);
      out.typeMeta, out.meta, out.items := typeMeta, meta, items;
      CopyListMeta(out);
      ListWritten(Items(), out);
    }

    method CopyListMeta(out: VolumeSnapshotDeltaList)
      modifies out`meta
      ensures out.meta == if this == out then StrippedList(old(meta)) else old(meta)
    {
      out.meta := meta;
      if meta.remaining.Some? {
        out.meta := out.meta.(remaining := Some(0));
        out.meta := out.meta.(remaining := meta.remaining);
      }
    }

    /** The slice is replaced by zero elements before it is read. */
    method CopyOntoItself()
      requires items != null
      modifies this`items
      ensures items != null && items.Length == old(items).Length
      ensures ItemValues(items[..]) == seq(items.Length, _ => ZERO_DELTA)
      ensures fresh(items) && fresh(AllFootprints(items[..])) && Separate(items[..]) && AllUnshared(items[..])
    {
      ghost var cells;
      items, cells := MakeItems(items.Length);
      assert ItemValues(items[..]) == seq(items.Length, _ => ZERO_DELTA);
      CopyItems(items, items, cells);
    }

    /** Gives another list a slice of its own. */
    method CopyOnto(out: VolumeSnapshotDeltaList)
      requires this != out && items != null
      modifies out
      ensures ItemValues(items[..]) == old(ItemValues(items[..]))
      ensures out.typeMeta == old(out.typeMeta) && out.meta == old(out.meta) && out.items != null
      ensures ItemValues(out.items[..]) == old(ItemValues(items[..]))
      ensures fresh(out.items) && fresh(AllFootprints(out.items[..]))
      ensures Separate(out.items[..]) && AllUnshared(out.items[..])
    {
      var copied := CopySlice(items);
      ListNotReachable(copied[..], out);
      ListNotReachable(items[..], out);
      label write:
      out.items := copied;
      ListWritten@write(copied[..], out);
      ListWritten@write(items[..], out);
    }

    static method DeepCopy(src: VolumeSnapshotDeltaList?) returns (out: VolumeSnapshotDeltaList?)
      ensures out == null <==> src == null
      ensures src != null ==> src.Value() == old(src.Value()) && out.Value() == old(src.Value())
      ensures src != null ==>
                fresh(out) && fresh(out.Parts()) && Separate(out.Items()) && AllUnshared(out.Items())
    {
      if src == null {
        return null;
      }
      out := new VolumeSnapshotDeltaList();
      if src.items != null { ItemsFramed(src.items[..]); }
      src.DeepCopyInto(out);
    }

    /** SetDefaultsVolumeSnapshotDeltaList: fills in the empty modes, in place. */
    method SetDefaults()
      modifies Parts()
      ensures Value() == DefaultedList(old(Value()))
    {
      if items != null {
        ItemsReachable(this);
        SetEachDefault(items);
        assert ItemValues(items[..]) == DefaultedList(old(Value())).items.value;
      }
    }
  }

  /** A list copied into itself. */
  function Zeroed(v: ListValue): ListValue {
    v.(meta := StrippedList(v.meta), items := Zeros(v.items, ZERO_DELTA))
  }

  /** A list survives a copy into itself exactly when every item is zero and no
      remaining items are counted. */
  lemma ListSelfCopyHarmless(v: ListValue)
    ensures Zeroed(v) == v <==> AllZero(v.items, ZERO_DELTA) && (v.meta.remaining.Some? ==> v.meta.remaining.value == 0)
  {
    ZerosUnchanged(v.items, ZERO_DELTA);
  }

  function DefaultedList(v: ListValue): ListValue {
    if v.items.None? then v
    else v.(items := Some(seq(|v.items.value|, i requires 0 <= i < |v.items.value| => Defaulted(v.items.value[i]))))
  }

  /** Separation at work: after any writes that stay within the storage of one list,
      in whatever order and of whatever kind, a list with disjoint storage still has
      its value.  Applied to an original and its copy it holds in both directions. */
  twostate lemma WritesDoNotCross(l: VolumeSnapshotDeltaList, new written: set<object>)
    requires old(l.Footprint()) !! written
    requires forall o :: o !in written && old(allocated(o)) ==> unchanged(o)
    ensures l.Value() == old(l.Value()) && l.Footprint() == old(l.Footprint())
  {
    assert l in old(l.Footprint()) && unchanged(l);
    if l.items != null {
      assert old(l.items in l.Footprint()) && unchanged(l.items);
      assert l.items[..] == old(l.items[..]);
      assert forall o :: o in old(AllFootprints(l.items[..])) ==> o in old(l.Footprint());
      ItemsFramed(l.items[..]);
    }
  }

  lemma ItemsReachable(l: VolumeSnapshotDeltaList)
    ensures forall o: object :: o in l.Items() ==> o in l.Parts()
  {
    forall d | d in l.Items() ensures d in l.Parts() {
      assert d in d.Footprint();
    }
  }

  /** Defaulting is idempotent, leaves no empty mode, and changes nothing else. */
  lemma DefaultingLaws(v: ListValue)
    ensures DefaultedList(DefaultedList(v)) == DefaultedList(v)
    ensures var r := DefaultedList(v);
            && r.typeMeta == v.typeMeta && r.meta == v.meta && (r.items.Some? <==> v.items.Some?)
            && (v.items.Some? ==>
                  && |r.items.value| == |v.items.value|
                  && forall i :: 0 <= i < |v.items.value| ==>
                       var a, b := v.items.value[i], r.items.value[i];
                       && b.spec.mode == (if a.spec.mode == "" then "block" else a.spec.mode)
                       && b.(spec := b.spec.(mode := a.spec.mode)) == a)
  {
    if v.items.Some? {
      assert DefaultedList(DefaultedList(v)).items.value == DefaultedList(v).items.value;
    }
  }

  /** Copy first, then default: the original keeps its empty modes. */
  method CopyThenDefault(l: VolumeSnapshotDeltaList) returns (copy: VolumeSnapshotDeltaList)
    ensures copy.Value() == DefaultedList(old(l.Value())) && l.Value() == old(l.Value())
  {
    ghost var mine := l.Footprint();
    assert forall o :: o in mine ==> allocated(o);
    copy := VolumeSnapshotDeltaList.DeepCopy(l);
    ItemsReachable(copy);
    WritesDoNotCross(l, {});
    ghost var written := copy.Parts();
    assert l.Footprint() == mine;
    assert mine !! written by {
      forall o | o in written ensures o !in mine { assert fresh(o); }
    }
    label copied:
    copy.SetDefaults();
    forall o | o !in written && old@copied(allocated(o)) ensures unchanged@copied(o) {}
    WritesDoNotCross@copied(l, written);
  }

  /** Default first, then copy: the same copy, but the original is defaulted too. */
  method DefaultThenCopy(l: VolumeSnapshotDeltaList) returns (copy: VolumeSnapshotDeltaList)
    modifies l.Parts()
    ensures copy.Value() == DefaultedList(old(l.Value())) == l.Value()
  {
    l.SetDefaults();
    copy := VolumeSnapshotDeltaList.DeepCopy(l);
  }

  // ---------- what the values tell ----------

  ghost predicate SameEntries(a: seq<ChangedBlockDelta?>, b: seq<ChangedBlockDelta?>)
    reads a, b
  {
    && |a| == |b|
    && forall i :: 0 <= i < |a| ==>
         && (a[i] == null <==> b[i] == null)
         && (a[i] != null ==> a[i].offset == b[i].offset && a[i].blockSizeBytes == b[i].blockSizeBytes
                              && a[i].dataToken == b[i].dataToken)
  }

  /** Two objects have one value exactly when all their fields agree, down to the entries. */
  lemma SameValue(d: VolumeSnapshotDelta, e: VolumeSnapshotDelta)
    ensures d.Value() == e.Value() <==>
              && d.typeMeta == e.typeMeta && d.meta == e.meta && d.spec == e.spec
              && d.status.error == e.status.error
              && (d.status.changed == null <==> e.status.changed == null)
              && (d.status.changed != null && e.status.changed != null ==>
                    SameEntries(d.status.changed[..], e.status.changed[..]))
  {
    if d.status.changed != null && e.status.changed != null {
      var a, b := d.status.changed[..], e.status.changed[..];
      if BlockValues(a) == BlockValues(b) {
        forall i | 0 <= i < |a|
          ensures (a[i] == null <==> b[i] == null) && (a[i] != null ==> a[i].Value() == b[i].Value())
        {
          assert BlockValues(a)[i] == BlockValues(b)[i];
        }
      }
      if SameEntries(a, b) {
        assert BlockValues(a) == BlockValues(b);
      }
    }
  }

  /** Where no entry object occurs twice, writing one entry changes no other. */
  twostate lemma EntryWriteStaysPut(s: seq<ChangedBlockDelta?>, i: nat)
    requires i < |s| && NoRepeats(s) && forall e :: e in s && e != null && e != s[i] ==> unchanged(e)
    ensures forall j :: 0 <= j < |s| && j != i ==> BlockValues(s)[j] == old(BlockValues(s)[j])
  {
    forall j | 0 <= j < |s| && j != i ensures BlockValues(s)[j] == old(BlockValues(s)[j]) {
      assert s[j] in s && (s[j] != null ==> s[j] != s[i]);
    }
  }

  /** Where no object is reachable from two items, writing one item changes no other. */
  twostate lemma ItemWriteStaysPut(s: seq<VolumeSnapshotDelta>, i: nat)
    requires i < |s| && old(Separate(s))
    requires forall o :: o in old(AllFootprints(s)) && o !in old(s[i].Footprint()) ==> unchanged(o)
    ensures forall j :: 0 <= j < |s| && j != i ==> s[j].Value() == old(s[j].Value())
  {
    forall j | 0 <= j < |s| && j != i ensures s[j].Value() == old(s[j].Value()) {
      assert old(s[i].Footprint() !! s[j].Footprint());
      assert s[j] in s && forall o :: o in old(s[j].Footprint()) ==> o in old(AllFootprints(s));
      DeltaFramed(s[j]);
    }
  }

  /** A zero object, as a fresh slice holds and a list copied into itself is left with. */
  lemma ZeroDelta()
    ensures var z := ZERO_DELTA;
            && z.typeMeta.kind == z.typeMeta.apiVersion == ""
            && z.spec.base == z.spec.target == z.spec.mode == ""
            && z.status.error == "" && z.status.changed.None?
            && z.meta.name == z.meta.namespace == z.meta.uid == z.meta.resourceVersion == ""
            && z.meta.labels.None? && z.meta.annotations.None? && z.meta.owners.None? && Bare(z.meta)
  {
  }
}
