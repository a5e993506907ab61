/** The metadata embedded in every API object, as values, and what becomes of it when
    an object is copied into itself: every field behind a pointer, map or slice is
    first replaced by a zeroed one in out, and then read from there again. */
module Metadata {
  import opened Basics

  datatype TypeMeta = TypeMeta(kind: string, apiVersion: string)
  type StringMap = map<string, string>
  datatype OwnerReference = OwnerReference(
    apiVersion: string, kind: string, name: string, uid: string,
    controller: Option<bool>, blockOwnerDeletion: Option<bool>)
  datatype ManagedFields = ManagedFields(
    manager: string, operation: string, apiVersion: string, time: Option<int>,
    fieldsType: string, fieldsV1: Option<string>, subresource: string)
  // None stands for a nil pointer, map or slice.
  datatype ObjectMeta = ObjectMeta(
    name: string, generateName: string, namespace: string, selfLink: string, uid: string,
    resourceVersion: string, generation: int, created: int, deleted: Option<int>, gracePeriod: Option<int>,
    labels: Option<StringMap>, annotations: Option<StringMap>, owners: Option<seq<OwnerReference>>,
    finalizers: Option<seq<string>>, clusterName: string, managed: Option<seq<ManagedFields>>)
  datatype ListMeta = ListMeta(
    selfLink: string, resourceVersion: string, continueToken: string, remaining: Option<int>)

  const ZERO_OWNER := OwnerReference("", "", "", "", None, None)
  const ZERO_MANAGED := ManagedFields("", "", "", None, "", None, "")
  const ZERO_META :=
    ObjectMeta("", "", "", "", "", "", 0, 0, None, None, None, None, None, None, "", None)

  function Zeros<T>(s: Option<seq<T>>, zero: T): Option<seq<T>> {
    if s.None? then None else Some(seq(|s.value|, _ => zero))
  }

  /** Metadata copied into itself. */
  function Stripped(m: ObjectMeta): ObjectMeta {
    m.(gracePeriod := if m.gracePeriod.None? then None else Some(0),
       labels := if m.labels.None? then None else Some(map[]),
       annotations := if m.annotations.None? then None else Some(map[]),
       owners := Zeros(m.owners, ZERO_OWNER),
       finalizers := Zeros(m.finalizers, ""),
       managed := Zeros(m.managed, ZERO_MANAGED))
  }

  function StrippedList(m: ListMeta): ListMeta {
    m.(remaining := if m.remaining.None? then None else Some(0))
  }

  predicate AllZero<T(==)>(s: Option<seq<T>>, zero: T) {
    s.Some? ==> forall i :: 0 <= i < |s.value| ==> s.value[i] == zero
  }

  /** Nothing that a copy into itself could lose. */
  predicate Bare(m: ObjectMeta) {
    && (m.gracePeriod.Some? ==> m.gracePeriod.value == 0)
    && (m.labels.Some? ==> |m.labels.value| == 0)
    && (m.annotations.Some? ==> |m.annotations.value| == 0)
    && AllZero(m.owners, ZERO_OWNER)
    && AllZero(m.finalizers, "")
    && AllZero(m.managed, ZERO_MANAGED)
  }

  lemma ZerosUnchanged<T>(s: Option<seq<T>>, zero: T)
    ensures Zeros(s, zero) == s <==> AllZero(s, zero)
  {
    if s.Some? && AllZero(s, zero) {
      assert Zeros(s, zero).value == s.value;
    }
  }

  /** Metadata survives exactly when it is bare. */
  lemma StrippedUnchanged(m: ObjectMeta)
    ensures Stripped(m) == m <==> Bare(m)
  {
    ZerosUnchanged(m.owners, ZERO_OWNER);
    ZerosUnchanged(m.finalizers, "");
    ZerosUnchanged(m.managed, ZERO_MANAGED);
  }

  /** The loop over a label or annotation map. */
  method CopyStrings(src: StringMap) returns (dst: StringMap)
    ensures dst == src
  {
    dst := map[];
    var rest := src.Keys;
    while rest != {}
      invariant rest <= src.Keys
      invariant dst == map k | k in src && k !in rest :: src[k]
    {
      var key :| key in rest;
      dst, rest := dst[key := src[key]], rest - {key};
    }
  }
}
