/**
  What the deserializer computes, as functions of the selection record and
  of the editor's current objects: destroying the originals, reading each
  loaded root's subtree back by its position, creating one object per
  record entry, restoring references in two passes, re-attaching root
  objects to their saved parents, and picking out the restored roots.

  Restored objects live in an arena: the object created n-th (game objects
  and components alike, in creation order) has handle n, which is also the
  index an internal reference names.
*/
module Deserialization {
  import opened Wrappers
  import opened SerializedData

  /** The exceptions the original code can raise along the paths it takes. */
  datatype Error =
    | IndexOutOfRange
    | AssemblyNotFound(assemblyName: string)
    | TypeNotFound(assemblyName: string, typeName: string)
    | InvalidCast(id: int)

  /** The full name of the one component type that is not added but reused. */
  const TransformTypeName: string := "UnityEngine.Transform"

  // ---------------------------------------------------------------------------
  // The editor's existing objects

  datatype ObjectKind = GameObjectKind | TransformKind | OtherComponentKind

  /** An existing object: its kind, and the game objects whose destruction takes
      it along (the object itself when it is a game object, and every game
      object above it). */
  datatype HostObject = HostObject(kind: ObjectKind, owners: set<int>)

  /** InstanceIDToObject: the live objects by instance id. */
  type Host = map<int, HostObject>

  /** Ownership is transitive: what owns an owner of `k` owns `k`. */
  predicate HostConsistent(host: Host)
  {
    forall a, k :: k in host && a in host && a in host[k].owners ==> host[a].owners <= host[k].owners
  }

  /** The destruction of `id` (with everything it owns) when it names a live
      game object; anything else is left alone. */
  function DestroyObject(host: Host, id: int): (h: Host)
    ensures forall k :: k in h ==> k in host && h[k] == host[k]
  {
    if id in host && host[id].kind == GameObjectKind
    then map k | k in host && id !in host[k].owners :: host[k]
    else host
  }

  /** DestroyOriginals: the saved root ids destroyed one after another. */
  function DestroyAll(host: Host, ids: seq<int>): Host
  {
    if ids == [] then host else DestroyAll(DestroyObject(host, ids[0]), ids[1..])
  }

  /** `k` is taken along by the destruction of one of the ids. */
  predicate DestroyedBy(host: Host, ids: seq<int>, k: int)
    requires k in host
  {
    exists i :: 0 <= i < |ids| && ids[i] in host && host[ids[i]].kind == GameObjectKind && ids[i] in host[k].owners
  }

  // ---------------------------------------------------------------------------
  // Component types

  /** The loadable assemblies, each with the full names of the types it defines. */
  type Registry = map<string, set<string>>

  predicate TypeKnown(c: SerializedComponent, reg: Registry)
  {
    c.assemblyName in reg && c.typeName in reg[c.assemblyName]
  }

  /** The error RestoreComponent raises for `c`, if any. */
  function TypeError(c: SerializedComponent, reg: Registry): (e: Option<Error>)
    ensures e.None? <==> TypeKnown(c, reg)
  {
    if c.assemblyName !in reg then Some(AssemblyNotFound(c.assemblyName))
    else if c.typeName !in reg[c.assemblyName] then Some(TypeNotFound(c.assemblyName, c.typeName))
    else None
  }

  /** The first error restoring the components `cs` in order raises. */
  function FirstTypeError(cs: seq<SerializedComponent>, reg: Registry): (e: Option<Error>)
    ensures e.None? <==> forall j :: 0 <= j < |cs| ==> TypeKnown(cs[j], reg)
    ensures e.Some? ==> exists j :: 0 <= j < |cs| && !TypeKnown(cs[j], reg) && e == TypeError(cs[j], reg)
  {
    if cs == [] then None
    else if TypeError(cs[0], reg).Some? then TypeError(cs[0], reg)
    else FirstTypeError(cs[1..], reg)
  }

  // ---------------------------------------------------------------------------
  // Restored objects

  /** The value of one restored object-reference property: as the JSON blob set
      it, cleared (the saved id named nothing), an existing object, or the
      restored object with that handle. */
  datatype SlotValue = FromSnapshot | Cleared | ToExisting(id: int) | ToCreated(handle: int)

  datatype LiveObject =
    | LiveGameObject(data: string, scenePath: string, slots: seq<SlotValue>)
    | LiveComponent(assemblyName: string, typeName: string, added: bool, data: string, slots: seq<SlotValue>)

  /** RestoreObjectReference for one property: external references are looked up
      by instance id, the rest keep the value the JSON blob gave them. */
  function FirstPassSlot(r: InstanceReference, host: Host): SlotValue
  {
    if IsExternal(r) then (if r.id in host then ToExisting(r.id) else Cleared) else FromSnapshot
  }

  function FirstPassSlots(ids: seq<InstanceReference>, host: Host): (slots: seq<SlotValue>)
    ensures |slots| == |ids|
  {
    seq(|ids|, j requires 0 <= j < |ids| => FirstPassSlot(ids[j], host))
  }

  /** The object RestoreGameObject or RestoreComponent creates for one entry.
      A transform is not added: the new game object's own transform is reused. */
  function InitialObject(so: SerialObject, host: Host): LiveObject
  {
    match so
    case SerialGameObject(rec) =>
      LiveGameObject(rec.serializedData, rec.scenePath, FirstPassSlots(rec.savedInstanceIDs, host))
    case SerialComponent(c) =>
      LiveComponent(c.assemblyName, c.typeName, c.typeName != TransformTypeName, c.serializedData,
                    FirstPassSlots(c.savedInstanceIDs, host))
  }

  function CreateAll(sos: seq<SerialObject>, host: Host): (objs: seq<LiveObject>)
    ensures |objs| == |sos|
  {
    seq(|sos|, i requires 0 <= i < |sos| => InitialObject(sos[i], host))
  }

  lemma {:induction false} CreateAllAppend(a: seq<SerialObject>, b: seq<SerialObject>, host: Host)
    ensures CreateAll(a + b, host) == CreateAll(a, host) + CreateAll(b, host)
  {
  }

  /** An entry of deserializedGameObjects: the record and the restored game object. */
  datatype DeserializedGameObject = DeserializedGameObject(record: SerializedGameObject, handle: int)

  /** An entry of deserializedComponents: the saved component and the restored one. */
  datatype DeserializedComponent = DeserializedComponent(component: SerializedComponent, handle: int)

  /** The game-object entries for objects created from `sos` starting at handle `base`. */
  function GameObjectEntries(sos: seq<SerialObject>, base: int): seq<DeserializedGameObject>
  {
    if sos == [] then []
    else
      var head := if sos[0].SerialGameObject? then [DeserializedGameObject(sos[0].record, base)] else [];
      head + GameObjectEntries(sos[1..], base + 1)
  }

  function ComponentEntries(sos: seq<SerialObject>, base: int): seq<DeserializedComponent>
  {
    if sos == [] then []
    else
      var head := if sos[0].SerialComponent? then [DeserializedComponent(sos[0].component, base)] else [];
      head + ComponentEntries(sos[1..], base + 1)
  }

  lemma {:induction false} GameObjectEntriesAppend(a: seq<SerialObject>, b: seq<SerialObject>, base: int)
    ensures GameObjectEntries(a + b, base) == GameObjectEntries(a, base) + GameObjectEntries(b, base + |a|)
  {
    if a == [] {
      assert a + b == b;
    } else {
      assert (a + b)[0] == a[0] && (a + b)[1..] == a[1..] + b;
      GameObjectEntriesAppend(a[1..], b, base + 1);
      var head := if a[0].SerialGameObject? then [DeserializedGameObject(a[0].record, base)] else [];
      ConcatAssoc(head, GameObjectEntries(a[1..], base + 1), GameObjectEntries(b, base + |a|));
    }
  }

  lemma {:induction false} ComponentEntriesAppend(a: seq<SerialObject>, b: seq<SerialObject>, base: int)
    ensures ComponentEntries(a + b, base) == ComponentEntries(a, base) + ComponentEntries(b, base + |a|)
  {
    if a == [] {
      assert a + b == b;
    } else {
      assert (a + b)[0] == a[0] && (a + b)[1..] == a[1..] + b;
      ComponentEntriesAppend(a[1..], b, base + 1);
      var head := if a[0].SerialComponent? then [DeserializedComponent(a[0].component, base)] else [];
      ConcatAssoc(head, ComponentEntries(a[1..], base + 1), ComponentEntries(b, base + |a|));
    }
  }

  // ---------------------------------------------------------------------------
  // Reading records back by position

  /** ReadNodeFromSerializedNodes: the tree rooted at record `index`, and the
      index of the last record it consumed. */
  function ReadNode(recs: seq<SerializedGameObject>, reg: Registry, index: int)
    : (r: Result<(RecordTree, int), Error>)
    ensures r.Success? ==> index <= r.value.1 < |recs| && 0 <= index && r.value.0.record == recs[index]
    decreases |recs| - index, 1
  {
    if !(0 <= index < |recs|) then Failure(IndexOutOfRange)
    else
      var rec := recs[index];
      match FirstTypeError(rec.serializedComponents, reg)
      case Some(e) => Failure(e)
      case None =>
        match ReadChildren(recs, reg, index, rec.childCount)
        case Failure(e) => Failure(e)
        case Success((children, last)) => Success((RecordTree(rec, children), last))
  }

  /** The loop over the children: `remaining` more children are read, the first
      right after record `cursor`.  As in the original, the loop stops only when
      the count reaches zero exactly. */
  function ReadChildren(recs: seq<SerializedGameObject>, reg: Registry, cursor: int, remaining: int)
    : (r: Result<(seq<RecordTree>, int), Error>)
    requires 0 <= cursor < |recs|
    ensures r.Success? ==> cursor <= r.value.1 < |recs|
    decreases |recs| - cursor, 0
  {
    if remaining == 0 then Success(([], cursor))
    else
      match ReadNode(recs, reg, cursor + 1)
      case Failure(e) => Failure(e)
      case Success((t, last)) =>
        match ReadChildren(recs, reg, last, remaining - 1)
        case Failure(e) => Failure(e)
        case Success((ts, last')) => Success(([t] + ts, last'))
  }

  /** The loop of Deserialize over indexOfRootGOs: the record must exist; roots of
      scenes that are not loaded are skipped. */
  function ReadRoots(recs: seq<SerializedGameObject>, reg: Registry, loaded: set<string>, ks: seq<int>)
    : Result<seq<RecordTree>, Error>
  {
    if ks == [] then Success([])
    else if !(0 <= ks[0] < |recs|) then Failure(IndexOutOfRange)
    else if recs[ks[0]].scenePath !in loaded then ReadRoots(recs, reg, loaded, ks[1..])
    else
      match ReadNode(recs, reg, ks[0])
      case Failure(e) => Failure(e)
      case Success((t, _)) =>
        match ReadRoots(recs, reg, loaded, ks[1..])
        case Failure(e) => Failure(e)
        case Success(ts) => Success([t] + ts)
  }

  // ---------------------------------------------------------------------------
  // Parents recorded while reading

  /** The parent of a restored game object: the restored object with handle
      `handle`, or an existing transform. */
  datatype ParentLink = CreatedParent(handle: int) | ExistingParent(id: int)

  /** The number of objects restored for a tree. */
  function Size(t: RecordTree): nat
  {
    |SerialObjects(Flatten(t))|
  }

  function SizeSeq(ts: seq<RecordTree>): nat
  {
    |SerialObjects(FlattenSeq(ts))|
  }

  /** The SetParent calls made while reading `t`, whose game object has handle `h`. */
  function TreeLinks(t: RecordTree, h: int): map<int, ParentLink>
    decreases t, 1
  {
    ChildrenLinks(t.children, h, h + 1 + |t.record.serializedComponents|)
  }

  /** The SetParent calls for children `ts` of the game object `parent`, the
      first of which has handle `h`. */
  function ChildrenLinks(ts: seq<RecordTree>, parent: int, h: int): map<int, ParentLink>
    decreases ts, 0
  {
    if ts == [] then map[]
    else TreeLinks(ts[0], h)[h := CreatedParent(parent)] + ChildrenLinks(ts[1..], parent, h + Size(ts[0]))
  }

  /** The SetParent calls while reading several roots; the roots themselves get none. */
  function ForestLinks(ts: seq<RecordTree>, h: int): map<int, ParentLink>
  {
    if ts == [] then map[] else TreeLinks(ts[0], h) + ForestLinks(ts[1..], h + Size(ts[0]))
  }

  // ---------------------------------------------------------------------------
  // RestoreInternalObjectReferences

  /** Parents and sibling indices of the restored game objects. */
  datatype Hierarchy = Hierarchy(parentOf: map<int, ParentLink>, siblingIndexOf: map<int, int>)

  /** The first loop: a game object without a parent whose record has one is
      attached to the saved parent id; every game object gets its saved sibling
      index.  A saved parent id that names nothing ends the whole method early
      (the `completed` flag is then false); one that names a non-transform
      raises a cast error. */
  function ParentPass(gos: seq<DeserializedGameObject>, host: Host, st: Hierarchy)
    : Result<(Hierarchy, bool), Error>
  {
    if gos == [] then Success((st, true))
    else
      var e := gos[0];
      var rec := e.record;
      if e.handle !in st.parentOf && rec.hasParent then
        if rec.parentID !in host then Success((st, false))
        else if host[rec.parentID].kind != TransformKind then Failure(InvalidCast(rec.parentID))
        else ParentPass(gos[1..], host,
                        Hierarchy(st.parentOf[e.handle := ExistingParent(rec.parentID)],
                                  st.siblingIndexOf[e.handle := rec.siblingIndex]))
      else ParentPass(gos[1..], host, Hierarchy(st.parentOf, st.siblingIndexOf[e.handle := rec.siblingIndex]))
  }

  /** The second loop for one component: internal references are bound to the
      restored object at that index; the others keep their value. */
  function InternalSlots(ids: seq<InstanceReference>, slots: seq<SlotValue>, n: int): (r: Result<seq<SlotValue>, Error>)
    requires |slots| == |ids|
    ensures r.Failure? <==> exists j :: 0 <= j < |ids| && IsInternal(ids[j]) && !(0 <= ids[j].id < n)
    ensures r.Success? ==> |r.value| == |ids| && forall j :: 0 <= j < |ids| ==>
      r.value[j] == (if IsInternal(ids[j]) then ToCreated(ids[j].id) else slots[j])
  {
    if exists j :: 0 <= j < |ids| && IsInternal(ids[j]) && !(0 <= ids[j].id < n) then Failure(IndexOutOfRange)
    else Success(seq(|ids|, j requires 0 <= j < |ids| => if IsInternal(ids[j]) then ToCreated(ids[j].id) else slots[j]))
  }

  /** Every entry names a restored component whose properties match the saved ones. */
  predicate EntriesFit(comps: seq<DeserializedComponent>, objs: seq<LiveObject>)
  {
    forall i :: 0 <= i < |comps| ==>
      && 0 <= comps[i].handle < |objs|
      && objs[comps[i].handle].LiveComponent?
      && |objs[comps[i].handle].slots| == |comps[i].component.savedInstanceIDs|
  }

  function InternalPass(comps: seq<DeserializedComponent>, objs: seq<LiveObject>): (r: Result<seq<LiveObject>, Error>)
    requires EntriesFit(comps, objs)
    ensures r.Success? ==> |r.value| == |objs|
  {
    if comps == [] then Success(objs)
    else
      var e := comps[0];
      var o := objs[e.handle];
      match InternalSlots(e.component.savedInstanceIDs, o.slots, |objs|)
      case Failure(err) => Failure(err)
      case Success(slots) =>
        var objs' := objs[e.handle := LiveComponent(o.assemblyName, o.typeName, o.added, o.data, slots)];
        assert EntriesFit(comps[1..], objs') by {
          forall i | 0 <= i < |comps[1..]|
            ensures objs'[comps[1..][i].handle].LiveComponent?
            ensures |objs'[comps[1..][i].handle].slots| == |comps[1..][i].component.savedInstanceIDs|
          {
            assert comps[1..][i] == comps[i + 1];
          }
        }
        InternalPass(comps[1..], objs')
  }

  // ---------------------------------------------------------------------------
  // Deserialize

  /** The returned roots: the game objects whose record position is listed in
      indexOfRootGOs (a record's position is indexOfFirstChild - 1). */
  function RootHandles(gos: seq<DeserializedGameObject>, ks: seq<int>): (hs: seq<int>)
    ensures |hs| <= |gos|
  {
    if gos == [] then []
    else
      var head := if gos[0].record.indexOfFirstChild - 1 in ks then [gos[0].handle] else [];
      head + RootHandles(gos[1..], ks)
  }

  /** What a successful restore leaves behind. */
  datatype Restoration = Restoration(
    host: Host,
    objects: seq<LiveObject>,
    hierarchy: Hierarchy,
    roots: seq<int>)

  /** The editor's objects once the originals of the roots are destroyed, when asked to. */
  function HostAfterDestroy(sel: SerializedSelection, destroyOriginals: bool, host0: Host): Host
  {
    if destroyOriginals then DestroyAll(host0, sel.idOfRootGOs) else host0
  }

  /** Deserializer.Deserialize. */
  function DeserializeSelection(sel: SerializedSelection, destroyOriginals: bool, host0: Host,
                                loaded: set<string>, reg: Registry): Result<Restoration, Error>
  {
    var host := HostAfterDestroy(sel, destroyOriginals, host0);
    match ReadRoots(sel.serializedGameObjects, reg, loaded, sel.indexOfRootGOs)
    case Failure(e) => Failure(e)
    case Success(trees) =>
      var sos := SerialObjects(FlattenSeq(trees));
      var objs := CreateAll(sos, host);
      var gos := GameObjectEntries(sos, 0);
      match ParentPass(gos, host, Hierarchy(ForestLinks(trees, 0), map[]))
      case Failure(e) => Failure(e)
      case Success((hierarchy, completed)) =>
        var comps := ComponentEntries(sos, 0);
        EntriesFitCreated(sos, host);
        var fixed := if completed then InternalPass(comps, objs) else Success(objs);
        match fixed
        case Failure(e) => Failure(e)
        case Success(objs') => Success(Restoration(host, objs', hierarchy, RootHandles(gos, sel.indexOfRootGOs)))
  }

  /** The component entries of a creation fit the objects created. */
  lemma {:induction false} EntriesFitCreated(sos: seq<SerialObject>, host: Host)
    ensures EntriesFit(ComponentEntries(sos, 0), CreateAll(sos, host))
  {
    ComponentEntriesFacts(sos, 0);
  }

  /** Component entry i names the component at its handle's position. */
  lemma {:induction false} ComponentEntriesFacts(sos: seq<SerialObject>, base: int)
    ensures forall i :: 0 <= i < |ComponentEntries(sos, base)| ==>
      var e := ComponentEntries(sos, base)[i];
      base <= e.handle < base + |sos| && sos[e.handle - base] == SerialComponent(e.component)
  {
    if sos != [] {
      ComponentEntriesFacts(sos[1..], base + 1);
      var head: seq<DeserializedComponent> :=
        if sos[0].SerialComponent? then [DeserializedComponent(sos[0].component, base)] else [];
      var rest := ComponentEntries(sos[1..], base + 1);
      var all := head + rest;
      assert ComponentEntries(sos, base) == all;
      forall i | 0 <= i < |all|
        ensures base <= all[i].handle < base + |sos|
        ensures sos[all[i].handle - base] == SerialComponent(all[i].component)
      {
        if i >= |head| {
          var e := rest[i - |head|];
          assert all[i] == e;
          assert sos[1..][e.handle - (base + 1)] == sos[e.handle - base];
        }
      }
    }
  }

  // ---------------------------------------------------------------------------
  // CanDeserialize

  /** CanDeserialize: false when a static object was serialized, otherwise true
      when some root's scene is loaded.  The roots are looked at in order and
      the search stops at the first loaded one, so a bad index after it goes
      unnoticed while one before it raises an error. */
  function CanDeserialize(sel: SerializedSelection, loaded: set<string>): Result<bool, Error>
  {
    if sel.foundStatic then Success(false) else AnyRootLoaded(sel.serializedGameObjects, loaded, sel.indexOfRootGOs)
  }

  function AnyRootLoaded(recs: seq<SerializedGameObject>, loaded: set<string>, ks: seq<int>): Result<bool, Error>
  {
    if ks == [] then Success(false)
    else if !(0 <= ks[0] < |recs|) then Failure(IndexOutOfRange)
    else if recs[ks[0]].scenePath in loaded then Success(true)
    else AnyRootLoaded(recs, loaded, ks[1..])
  }
}
