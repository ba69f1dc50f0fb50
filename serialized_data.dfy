/**
  The data contract shared by the serializer and the deserializer: the
  InstanceReference, SerializedComponent, SerializedGameObject and
  SerializedSelection records, and two views of a record list that both
  halves reason with: the record tree that positional reading rebuilds, and
  the list of objects a record list describes in creation order.
*/
module SerializedData {

  /** One saved object-reference property.  The serializer produces three shapes:
      null (isNull), internal (id is an index into the list of all objects of the
      hierarchy) and external (id is the target's instance id). */
  datatype InstanceReference = InstanceReference(isNull: bool, id: int, isInternal: bool)

  /** The parameterless constructor: a null reference. */
  const NullReference: InstanceReference := InstanceReference(true, 0, false)

  /** The two-argument constructor. */
  function Reference(id: int, isInternal: bool): InstanceReference
  {
    InstanceReference(false, id, isInternal)
  }

  /** The test the first restore pass applies: a reference it resolves by instance id. */
  predicate IsExternal(r: InstanceReference)
  {
    !r.isNull && !r.isInternal
  }

  /** The test the second restore pass applies: a reference it resolves by index. */
  predicate IsInternal(r: InstanceReference)
  {
    !r.isNull && r.isInternal
  }

  datatype SerializedComponent = SerializedComponent(
    assemblyName: string,
    typeName: string,
    serializedData: string,
    savedInstanceIDs: seq<InstanceReference>)

  datatype SerializedGameObject = SerializedGameObject(
    serializedData: string,
    savedInstanceIDs: seq<InstanceReference>,
    scenePath: string,
    hasParent: bool,
    parentID: int,
    siblingIndex: int,
    childCount: int,
    indexOfFirstChild: int,
    serializedComponents: seq<SerializedComponent>)

  datatype SerializedSelection = SerializedSelection(
    indexOfRootGOs: seq<int>,
    idOfRootGOs: seq<int>,
    serializedGameObjects: seq<SerializedGameObject>,
    foundStatic: bool)

  /** A freshly constructed selection: all lists empty, no static object seen. */
  const EmptySelection: SerializedSelection := SerializedSelection([], [], [], false)

  // ---------------------------------------------------------------------------
  // The record tree: a record together with the records of its children

  datatype RecordTree = RecordTree(record: SerializedGameObject, children: seq<RecordTree>)

  /** The records of a tree in pre-order, the order in which they are written. */
  function Flatten(t: RecordTree): (recs: seq<SerializedGameObject>)
    ensures |recs| >= 1 && recs[0] == t.record
  {
    [t.record] + FlattenSeq(t.children)
  }

  function FlattenSeq(ts: seq<RecordTree>): seq<SerializedGameObject>
  {
    if ts == [] then [] else Flatten(ts[0]) + FlattenSeq(ts[1..])
  }

  /** Regrouping a concatenation. */
  lemma {:induction false} ConcatAssoc<T>(a: seq<T>, b: seq<T>, c: seq<T>)
    ensures a + b + c == a + (b + c)
  {
  }

  lemma {:induction false} FlattenSeqAppend(a: seq<RecordTree>, b: seq<RecordTree>)
    ensures FlattenSeq(a + b) == FlattenSeq(a) + FlattenSeq(b)
  {
    if a == [] {
      assert a + b == b;
    } else {
      assert (a + b)[1..] == a[1..] + b;
      FlattenSeqAppend(a[1..], b);
    }
  }

  /** The records of the first a trees start the records of the first b, and
      each later tree adds at least one. */
  lemma {:induction false} FlattenPrefix(ts: seq<RecordTree>, a: nat, b: nat)
    requires a <= b <= |ts|
    ensures |FlattenSeq(ts[..a])| + (b - a) <= |FlattenSeq(ts[..b])|
    ensures FlattenSeq(ts[..b])[..|FlattenSeq(ts[..a])|] == FlattenSeq(ts[..a])
    decreases b - a
  {
    if a < b {
      FlattenPrefix(ts, a + 1, b);
      assert ts[..a + 1] == ts[..a] + [ts[a]];
      FlattenSeqAppend(ts[..a], [ts[a]]);
      assert FlattenSeq([ts[a]]) == Flatten(ts[a]) + FlattenSeq([]);
      var fa, fb := FlattenSeq(ts[..a]), FlattenSeq(ts[..b]);
      assert fb[..|fa| + |Flatten(ts[a])|] == fa + Flatten(ts[a]);
      assert fb[..|fa|] == (fa + Flatten(ts[a]))[..|fa|];
    }
  }

  /** Every record's childCount equals the number of children it has in the tree. */
  predicate WellShaped(t: RecordTree)
  {
    && t.record.childCount == |t.children|
    && forall i :: 0 <= i < |t.children| ==> WellShaped(t.children[i])
  }

  // ---------------------------------------------------------------------------
  // The objects a record list describes

  /** One object to be created: a game object from its record, or a component. */
  datatype SerialObject =
    | SerialGameObject(record: SerializedGameObject)
    | SerialComponent(component: SerializedComponent)

  /** The objects one record describes: its game object, then its components. */
  function RecordObjects(rec: SerializedGameObject): (sos: seq<SerialObject>)
    ensures |sos| == 1 + |rec.serializedComponents|
    ensures sos[0] == SerialGameObject(rec)
    ensures forall j :: 0 <= j < |rec.serializedComponents| ==>
      sos[1 + j] == SerialComponent(rec.serializedComponents[j])
  {
    [SerialGameObject(rec)]
      + seq(|rec.serializedComponents|, j requires 0 <= j < |rec.serializedComponents| =>
          SerialComponent(rec.serializedComponents[j]))
  }

  /** The objects a record list describes, in the order a reader creates them. */
  function SerialObjects(recs: seq<SerializedGameObject>): seq<SerialObject>
  {
    if recs == [] then [] else RecordObjects(recs[0]) + SerialObjects(recs[1..])
  }

  lemma {:induction false} SerialObjectsAppend(a: seq<SerializedGameObject>, b: seq<SerializedGameObject>)
    ensures SerialObjects(a + b) == SerialObjects(a) + SerialObjects(b)
  {
    if a == [] {
      assert a + b == b;
    } else {
      assert (a + b)[1..] == a[1..] + b;
      SerialObjectsAppend(a[1..], b);
    }
  }
}
