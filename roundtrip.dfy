/**
  The end-to-end property the snapshot exists for: serializing a selection
  and restoring it, with or without destroying the originals, while the
  scenes are loaded, the component types load and the roots' parents are
  alive, succeeds and creates one object per object of the copied hierarchy,
  each carrying the original's state. References a restored component holds
  to an object inside the hierarchy are redirected to its copy (those a
  restored game object holds are not). Every copied child is attached under
  the copy of its parent with its sibling index, every root under its own
  parent, and the roots' copies are returned in order.
*/
module RoundTrip {
  import opened Wrappers
  import opened SceneGraph
  import opened SerializedData
  import opened Serialization
  import opened Deserialization
  import opened DeserializationLemmas

  // ---------------------------------------------------------------------------
  // Records and the objects of the hierarchy

  /** The engine reports no component of these game objects as null. */
  predicate NoNullComponents(nodes: seq<GameObject>)
  {
    forall p, j :: 0 <= p < |nodes| && 0 <= j < |Components(nodes[p])| ==> Components(nodes[p])[j].Some?
  }

  /** An entry of the record list stands for an object of the hierarchy. */
  predicate Corresponds(so: SerialObject, o: HierarchyObject, all: seq<Target>)
  {
    match so
    case SerialGameObject(rec) =>
      o.HierarchyGameObject? && rec.serializedData == o.gameObject.data
      && rec.savedInstanceIDs == ClassifyAll(o.gameObject.slots, all)
    case SerialComponent(sc) =>
      o.HierarchyComponent? && sc == SerializeComponent(o.component, all)
  }

  predicate AllCorrespond(sos: seq<SerialObject>, os: seq<HierarchyObject>, all: seq<Target>)
  {
    |sos| == |os| && forall i :: 0 <= i < |sos| ==> Corresponds(sos[i], os[i], all)
  }

  lemma {:induction false} AllCorrespondAppend(s1: seq<SerialObject>, o1: seq<HierarchyObject>,
                            s2: seq<SerialObject>, o2: seq<HierarchyObject>, all: seq<Target>)
    requires AllCorrespond(s1, o1, all) && AllCorrespond(s2, o2, all)
    ensures AllCorrespond(s1 + s2, o1 + o2, all)
  {
    forall i | 0 <= i < |s1 + s2| ensures Corresponds((s1 + s2)[i], (o1 + o2)[i], all) {
      if i >= |s1| {
        assert (s1 + s2)[i] == s2[i - |s1|] && (o1 + o2)[i] == o2[i - |s1|];
      }
    }
  }

  lemma {:induction false} NodeCorresponds(rec: SerializedGameObject, g: GameObject, all: seq<Target>)
    requires Describes(rec, g, all) && NoNullComponents([g])
    ensures AllCorrespond(RecordObjects(rec), NodeObjects(g), all)
  {
    assert [g][0] == g;
  }

  /** With no null components, the objects a record list describes line up one
      to one with the objects of the hierarchy it was written from. */
  lemma {:induction false} RecordsCorrespond(recs: seq<SerializedGameObject>, nodes: seq<GameObject>,
                                             all: seq<Target>, pos: int)
    requires DescribesAll(recs, nodes, all, pos) && NoNullComponents(nodes)
    ensures AllCorrespond(SerialObjects(recs), HierarchyObjects(nodes), all)
  {
    if recs != [] {
      assert NoNullComponents([nodes[0]]) by {
        forall p, j | 0 <= p < 1 && 0 <= j < |Components([nodes[0]][p])| ensures Components([nodes[0]][p])[j].Some? {
          assert [nodes[0]][p] == nodes[0];
        }
      }
      NodeCorresponds(recs[0], nodes[0], all);
      assert DescribesAll(recs[1..], nodes[1..], all, pos + 1) by {
        forall p | 0 <= p < |recs[1..]|
          ensures Describes(recs[1..][p], nodes[1..][p], all) && recs[1..][p].indexOfFirstChild == pos + 1 + p + 1
        {
          assert recs[1..][p] == recs[p + 1] && nodes[1..][p] == nodes[p + 1];
        }
      }
      assert NoNullComponents(nodes[1..]) by {
        forall p, j | 0 <= p < |nodes[1..]| && 0 <= j < |Components(nodes[1..][p])|
          ensures Components(nodes[1..][p])[j].Some?
        {
          assert nodes[1..][p] == nodes[p + 1];
        }
      }
      RecordsCorrespond(recs[1..], nodes[1..], all, pos + 1);
      AllCorrespondAppend(RecordObjects(recs[0]), NodeObjects(nodes[0]),
                          SerialObjects(recs[1..]), HierarchyObjects(nodes[1..]), all);
    }
  }

  // ---------------------------------------------------------------------------
  // Reading the roots back

  /** Every record of the list resolves its component types. */
  lemma {:induction false} ReadForest(recs: seq<SerializedGameObject>, reg: Registry, loaded: set<string>,
                                      ts: seq<RecordTree>, ks: seq<int>, off: int)
    requires |ks| == |ts| && 0 <= off
    requires forall k :: 0 <= k < |ks| ==> ks[k] == off + |FlattenSeq(ts[..k])|
    requires off + |FlattenSeq(ts)| <= |recs| && recs[off..off + |FlattenSeq(ts)|] == FlattenSeq(ts)
    requires (forall i :: 0 <= i < |ts| ==> WellShaped(ts[i])) && AllTypesKnown(FlattenSeq(ts), reg)
    requires forall i :: 0 <= i < |ts| ==> ts[i].record.scenePath in loaded
    ensures ReadRoots(recs, reg, loaded, ks) == Success(ts)
  {
    if ts != [] {
      var f0 := Flatten(ts[0]);
      var rest := ts[1..];
      var fr := FlattenSeq(rest);
      assert FlattenSeq(ts) == f0 + fr;
      assert ts[..0] == [];
      assert ks[0] == off;
      WindowSplit(recs, off, f0, fr);
      AllTypesKnownSplit(f0, fr, reg);
      ReadFlattened(recs, reg, ts[0], off, off + |f0| - 1);
      assert recs[off] == f0[0];
      RestWellShaped(ts);
      forall k | 0 <= k < |ks[1..]| ensures ks[1..][k] == off + |f0| + |FlattenSeq(rest[..k])| {
        assert ts[..k + 1][1..] == rest[..k];
        assert ks[1..][k] == ks[k + 1];
      }
      ReadForest(recs, reg, loaded, rest, ks[1..], off + |f0|);
      assert [ts[0]] + rest == ts;
    }
  }

  // ---------------------------------------------------------------------------
  // The restored objects

  /** A restored game-object reference: external references are looked up by
      instance id, the others keep what the JSON blob gave them. */
  function GameObjectSlot(t: Target, all: seq<Target>, host: Host): SlotValue
  {
    if t != Null && t !in all then (if t.id in host then ToExisting(t.id) else Cleared) else FromSnapshot
  }

  /** A restored component reference: null stays as the blob set it, a reference
      into the hierarchy points at the copy, any other is looked up by id. */
  function ComponentSlot(t: Target, all: seq<Target>, host: Host): SlotValue
  {
    if t == Null then FromSnapshot
    else if t in all then ToCreated(FirstIndexOf(all, t))
    else if t.id in host then ToExisting(t.id)
    else Cleared
  }

  /** `o` is the restored copy of `ho`. */
  predicate Restores(o: LiveObject, ho: HierarchyObject, all: seq<Target>, host: Host)
  {
    match ho
    case HierarchyGameObject(g) =>
      && o.LiveGameObject? && o.data == g.data && |o.slots| == |g.slots|
      && forall j :: 0 <= j < |g.slots| ==> o.slots[j] == GameObjectSlot(g.slots[j], all, host)
    case HierarchyComponent(c) =>
      && o.LiveComponent? && o.assemblyName == c.assemblyName && o.typeName == c.typeName
      && o.added == (c.typeName != TransformTypeName) && o.data == c.data && |o.slots| == |c.slots|
      && forall j :: 0 <= j < |c.slots| ==> o.slots[j] == ComponentSlot(c.slots[j], all, host)
    case NullComponent => false
  }

  /** A reference restored to point into the copy names the copy of the very
      object the original referenced. */
  lemma {:induction false} CopiedReferenceTarget(t: Target, all: seq<Target>, host: Host)
    requires ComponentSlot(t, all, host).ToCreated?
    ensures var h := ComponentSlot(t, all, host).handle; 0 <= h < |all| && all[h] == t
  {
  }

  lemma {:induction false} CreatedObjectRestores(so: SerialObject, ho: HierarchyObject, all: seq<Target>, host: Host)
    requires Corresponds(so, ho, all) && |all| >= 0
    ensures so.SerialGameObject? ==> Restores(InitialObject(so, host), ho, all, host)
    ensures so.SerialComponent? ==>
      var o := InitialObject(so, host);
      o.LiveComponent? && |o.slots| == |so.component.savedInstanceIDs|
      && Restores(Fixed(o, so.component.savedInstanceIDs), ho, all, host)
  {
    if so.SerialComponent? {
      var c := ho.component;
      var o := InitialObject(so, host);
      var f := Fixed(o, so.component.savedInstanceIDs);
      forall j | 0 <= j < |c.slots| ensures f.slots[j] == ComponentSlot(c.slots[j], all, host) {
        var r := Classify(c.slots[j], all);
        assert so.component.savedInstanceIDs[j] == r;
      }
    } else {
      var g := ho.gameObject;
      var o := InitialObject(so, host);
      forall j | 0 <= j < |g.slots| ensures o.slots[j] == GameObjectSlot(g.slots[j], all, host) {
        var r := Classify(g.slots[j], all);
        assert so.record.savedInstanceIDs[j] == r;
      }
    }
  }

  // ---------------------------------------------------------------------------
  // The theorem

  /** Every component type of the copied hierarchy loads. */
  predicate TypesRegistered(nodes: seq<GameObject>, reg: Registry)
  {
    forall p, j :: 0 <= p < |nodes| && 0 <= j < |Components(nodes[p])| && Components(nodes[p])[j].Some? ==>
      var c := Components(nodes[p])[j].value;
      c.assemblyName in reg && c.typeName in reg[c.assemblyName]
  }

  /** The parent of every root that has one is a live transform. */
  predicate RootParentsLive(w: World, roots: seq<Loc>, host: Host)
    requires forall r :: r in roots ==> ValidLoc(w, r)
  {
    forall k :: 0 <= k < |roots| && ParentTransformId(w, roots[k]).Some? ==>
      ParentTransformId(w, roots[k]).value in host && host[ParentTransformId(w, roots[k]).value].kind == TransformKind
  }

  lemma {:induction false} TypesKnownFromNodes(recs: seq<SerializedGameObject>, nodes: seq<GameObject>, all: seq<Target>,
                            reg: Registry)
    requires DescribesAll(recs, nodes, all, 0) && NoNullComponents(nodes) && TypesRegistered(nodes, reg)
    ensures AllTypesKnown(recs, reg)
  {
    forall p, j | 0 <= p < |recs| && 0 <= j < |recs[p].serializedComponents|
      ensures TypeKnown(recs[p].serializedComponents[j], reg)
    {
      assert Describes(recs[p], nodes[p], all);
    }
  }

  /** The position of each root's record is the length of the records of the
      trees before it. */
  lemma {:induction false} RootIndexes(w: World, roots: seq<Loc>, all: seq<Target>)
    requires forall r :: r in roots ==> ValidLoc(w, r)
    ensures forall k :: 0 <= k < |roots| ==>
      |Trees(w, roots[..k])| == |FlattenSeq(RootTrees(w, roots, all, 0)[..k])|
  {
    forall k | 0 <= k < |roots|
      ensures |Trees(w, roots[..k])| == |FlattenSeq(RootTrees(w, roots, all, 0)[..k])|
    {
      RootTreesPrefix(w, roots, all, 0, k);
      RootTreesFacts(w, roots[..k], all, 0);
    }
  }

  /** The selection's roots read back as the trees that were written. */
  lemma {:induction false} ReadStage(w: World, inputs: seq<Loc>, loaded: set<string>, reg: Registry)
    requires forall g :: g in inputs ==> ValidLoc(w, g)
    requires var roots := GetRootGameObjects(inputs);
      && (forall r :: r in roots ==> ScenePath(w, r) in loaded)
      && NoNullComponents(Trees(w, roots))
      && TypesRegistered(Trees(w, roots), reg)
    ensures var roots := GetRootGameObjects(inputs);
      var sel := SerializeSelection(w, inputs);
      ReadRoots(sel.serializedGameObjects, reg, loaded, sel.indexOfRootGOs)
        == Success(RootTrees(w, roots, AllObjects(Trees(w, roots)), 0))
  {
    var roots := GetRootGameObjects(inputs);
    var nodes := Trees(w, roots);
    var all := AllObjects(nodes);
    var sel := SerializeSelection(w, inputs);
    var ts := RootTrees(w, roots, all, 0);
    SelectionShape(w, inputs);
    RootTreesFacts(w, roots, all, 0);
    RootIndexes(w, roots, all);
    RootTreesScenes(w, roots, all, 0);
    assert forall i :: 0 <= i < |ts| ==> ts[i].record.scenePath in loaded by {
      forall i | 0 <= i < |ts| ensures ts[i].record.scenePath in loaded {
        assert roots[i] in roots;
      }
    }
    ReadTrees(sel.serializedGameObjects, nodes, all, ts, sel.indexOfRootGOs, reg, loaded);
  }

  /** Records laid out as a forest of well-shaped trees, with every type known
      and every scene loaded, read back as that forest. */
  lemma {:induction false} ReadTrees(recs: seq<SerializedGameObject>, nodes: seq<GameObject>, all: seq<Target>,
                                     ts: seq<RecordTree>, ks: seq<int>, reg: Registry, loaded: set<string>)
    requires recs == FlattenSeq(ts) && |ks| == |ts|
    requires forall k :: 0 <= k < |ks| ==> ks[k] == |FlattenSeq(ts[..k])|
    requires DescribesAll(recs, nodes, all, 0) && NoNullComponents(nodes) && TypesRegistered(nodes, reg)
    requires forall i :: 0 <= i < |ts| ==> WellShaped(ts[i])
    requires forall i :: 0 <= i < |ts| ==> ts[i].record.scenePath in loaded
    ensures ReadRoots(recs, reg, loaded, ks) == Success(ts)
  {
    TypesKnownFromNodes(recs, nodes, all, reg);
    assert recs[0..|recs|] == recs;
    ReadForest(recs, reg, loaded, ts, ks, 0);
  }

  /** With the parent of every root record alive, the parent pass runs to the
      end; every game object gets its record's sibling index, and each root's
      copy is attached to its saved parent, if any, while the links made inside
      its tree stay. */
  lemma {:induction false} ParentStage(ts: seq<RecordTree>, host: Host)
    requires forall k :: 0 <= k < |ts| && ts[k].record.hasParent ==>
      ts[k].record.parentID in host && host[ts[k].record.parentID].kind == TransformKind
    ensures var sos := SerialObjects(FlattenSeq(ts));
      var r := ParentPass(GameObjectEntries(sos, 0), host, Hierarchy(ForestLinks(ts, 0), map[]));
      && r.Success? && r.value.1 && SiblingsRecorded(sos, r.value.0) && TreesRelinked(ts, r.value.0)
  {
    var sos := SerialObjects(FlattenSeq(ts));
    var st := Hierarchy(ForestLinks(ts, 0), map[]);
    forall q | 0 <= q < |sos| && sos[q].SerialGameObject? && q !in st.parentOf && sos[q].record.hasParent
      ensures sos[q].record.parentID in host && host[sos[q].record.parentID].kind == TransformKind
    {
      var k := ForestLinksComplete(ts, 0, q);
      RootObject(ts, k);
    }
    ParentPassOnObjects(sos, host, st);
    var st' := ParentPass(GameObjectEntries(sos, 0), host, st).value.0;
    forall k | 0 <= k < |ts| ensures TreeRelinked(ts, k, st') {
      ForestTreeLinks(ts, 0, k);
      RootObject(ts, k);
    }
  }

  /** The objects after both reference passes are the restored copies. */
  lemma {:induction false} ObjectsStage(recs: seq<SerializedGameObject>, nodes: seq<GameObject>, all: seq<Target>, host: Host)
    requires DescribesAll(recs, nodes, all, 0) && NoNullComponents(nodes) && all == AllObjects(nodes)
    ensures var sos := SerialObjects(recs);
      && EntriesFit(ComponentEntries(sos, 0), CreateAll(sos, host))
      && InternalPass(ComponentEntries(sos, 0), CreateAll(sos, host)).Success?
      && var objs := InternalPass(ComponentEntries(sos, 0), CreateAll(sos, host)).value;
         |objs| == |all| && forall i :: 0 <= i < |all| ==> Restores(objs[i], HierarchyObjects(nodes)[i], all, host)
  {
    var sos := SerialObjects(recs);
    RecordsCorrespond(recs, nodes, all, 0);
    var objs := CreateAll(sos, host);
    assert CreatedFrom(sos, 0, objs);
    assert InternalInRange(sos, |objs|) by {
      forall i, j | 0 <= i < |sos| && sos[i].SerialComponent? && 0 <= j < |sos[i].component.savedInstanceIDs|
        ensures IsInternal(sos[i].component.savedInstanceIDs[j]) ==> 0 <= sos[i].component.savedInstanceIDs[j].id < |objs|
      {
        assert Corresponds(sos[i], HierarchyObjects(nodes)[i], all);
        var c := HierarchyObjects(nodes)[i].component;
        assert sos[i].component.savedInstanceIDs[j] == Classify(c.slots[j], all);
      }
    }
    InternalPassClosed(sos, 0, objs);
    var result := FixRange(objs, sos, 0);
    forall i | 0 <= i < |all| ensures Restores(result[i], HierarchyObjects(nodes)[i], all, host) {
      CreatedObjectRestores(sos[i], HierarchyObjects(nodes)[i], all, host);
    }
  }

  /** The copy of root k: the first object of root k's tree in the list of
      objects to copy, returned as the k-th root, linked to the root's own
      parent and carrying its sibling index, with the copied tree below it
      rebuilt. */
  predicate RootRestored(w: World, roots: seq<Loc>, k: nat, res: Restoration)
    requires forall r :: r in roots ==> ValidLoc(w, r)
    requires k < |roots|
  {
    var l := roots[k];
    var hk := CopyHandle(w, roots, k);
    var hier := res.hierarchy;
    && k < |res.roots| && res.roots[k] == hk
    && hk < |HierarchyObjects(Trees(w, roots))| && HierarchyObjects(Trees(w, roots))[hk] == HierarchyGameObject(Node(w, l))
    && (hk in hier.parentOf <==> ParentTransformId(w, l).Some?)
    && (ParentTransformId(w, l).Some? ==> hier.parentOf[hk] == ExistingParent(ParentTransformId(w, l).value))
    && hk in hier.siblingIndexOf && hier.siblingIndexOf[hk] == SiblingIndex(l)
    && Rebuilt(Node(w, l), hk, hier)
  }

  /** What restoring the copy of `roots` against the editor's objects `host`
      gives: every object of the copied hierarchy restored, in the order of
      the index space the references use, and each root restored with its
      tree as RootRestored says. */
  predicate SelectionRestored(w: World, roots: seq<Loc>, host: Host, res: Restoration)
    requires forall r :: r in roots ==> ValidLoc(w, r)
  {
    var all := AllObjects(Trees(w, roots));
    && |res.objects| == |all|
    && (forall i :: 0 <= i < |all| ==> Restores(res.objects[i], HierarchyObjects(Trees(w, roots))[i], all, host))
    && |res.roots| == |roots|
    && forall k :: 0 <= k < |roots| ==> RootRestored(w, roots, k, res)
  }

  /** Serializing the selection and restoring it, with or without destroying
      the originals first, succeeds, leaves the editor's objects that remain
      and restores the selection against them. */
  lemma {:induction false} SerializeThenDeserialize(w: World, inputs: seq<Loc>, destroyOriginals: bool, host: Host,
                                                    loaded: set<string>, reg: Registry)
    requires forall g :: g in inputs ==> ValidLoc(w, g)
    requires var roots := GetRootGameObjects(inputs);
      && (forall r :: r in roots ==> ScenePath(w, r) in loaded)
      && NoNullComponents(Trees(w, roots))
      && TypesRegistered(Trees(w, roots), reg)
      && RootParentsLive(w, roots, HostAfterDestroy(SerializeSelection(w, inputs), destroyOriginals, host))
    ensures var roots := GetRootGameObjects(inputs);
      var sel := SerializeSelection(w, inputs);
      var remaining := HostAfterDestroy(sel, destroyOriginals, host);
      var r := DeserializeSelection(sel, destroyOriginals, host, loaded, reg);
      && r.Success?
      && r.value.host == remaining
      && SelectionRestored(w, roots, remaining, r.value)
  {
    var roots := GetRootGameObjects(inputs);
    var sel := SerializeSelection(w, inputs);
    SelectionShape(w, inputs);
    ReadStage(w, inputs, loaded, reg);
    RestoreSelection(w, roots, sel, destroyOriginals, host, loaded, reg);
  }

  /** A selection written from the trees of `roots` and read back as those
      trees is restored as SelectionRestored says. */
  lemma {:induction false} RestoreSelection(w: World, roots: seq<Loc>, sel: SerializedSelection, destroyOriginals: bool,
                                            host: Host, loaded: set<string>, reg: Registry)
    requires forall r :: r in roots ==> ValidLoc(w, r)
    requires var nodes := Trees(w, roots);
      var ts := RootTrees(w, roots, AllObjects(nodes), 0);
      && sel.serializedGameObjects == FlattenSeq(ts)
      && DescribesAll(sel.serializedGameObjects, nodes, AllObjects(nodes), 0)
      && |sel.indexOfRootGOs| == |roots|
      && (forall k :: 0 <= k < |roots| ==> sel.indexOfRootGOs[k] == |Trees(w, roots[..k])|)
      && ReadRoots(sel.serializedGameObjects, reg, loaded, sel.indexOfRootGOs) == Success(ts)
    requires NoNullComponents(Trees(w, roots))
    requires RootParentsLive(w, roots, HostAfterDestroy(sel, destroyOriginals, host))
    ensures var remaining := HostAfterDestroy(sel, destroyOriginals, host);
      var r := DeserializeSelection(sel, destroyOriginals, host, loaded, reg);
      && r.Success?
      && r.value.host == remaining
      && SelectionRestored(w, roots, remaining, r.value)
  {
    var nodes := Trees(w, roots);
    var all := AllObjects(nodes);
    var ts := RootTrees(w, roots, all, 0);
    var remaining := HostAfterDestroy(sel, destroyOriginals, host);
    RootTreesLive(w, roots, all, ts, remaining);
    RestoreStage(sel, ts, nodes, all, destroyOriginals, host, loaded, reg);
    var res := DeserializeSelection(sel, destroyOriginals, host, loaded, reg).value;
    RootsReturned(w, roots, all, sel, ts, res.roots);
    RootsRestored(w, roots, all, ts, res);
  }

  /** A selection whose roots read back as the trees it was written from
      restores each object those trees describe, rebuilds their links and
      returns the entries at the root positions as roots. */
  lemma {:induction false} RestoreStage(sel: SerializedSelection, ts: seq<RecordTree>, nodes: seq<GameObject>,
                                        all: seq<Target>, destroyOriginals: bool, host0: Host,
                                        loaded: set<string>, reg: Registry)
    requires ReadRoots(sel.serializedGameObjects, reg, loaded, sel.indexOfRootGOs) == Success(ts)
    requires FlattenSeq(ts) == sel.serializedGameObjects
    requires DescribesAll(sel.serializedGameObjects, nodes, all, 0) && NoNullComponents(nodes)
    requires all == AllObjects(nodes)
    requires var host := HostAfterDestroy(sel, destroyOriginals, host0);
      forall k :: 0 <= k < |ts| && ts[k].record.hasParent ==>
        ts[k].record.parentID in host && host[ts[k].record.parentID].kind == TransformKind
    ensures var host := HostAfterDestroy(sel, destroyOriginals, host0);
      var sos := SerialObjects(sel.serializedGameObjects);
      var r := DeserializeSelection(sel, destroyOriginals, host0, loaded, reg);
      && r.Success?
      && r.value.host == host
      && |r.value.objects| == |all|
      && (forall i :: 0 <= i < |all| ==> Restores(r.value.objects[i], HierarchyObjects(nodes)[i], all, host))
      && SiblingsRecorded(sos, r.value.hierarchy) && TreesRelinked(ts, r.value.hierarchy)
      && r.value.roots == RootHandles(GameObjectEntries(sos, 0), sel.indexOfRootGOs)
  {
    var host := HostAfterDestroy(sel, destroyOriginals, host0);
    ParentStage(ts, host);
    ObjectsStage(sel.serializedGameObjects, nodes, all, host);
  }

  // ---------------------------------------------------------------------------
  // The restored hierarchy

  /** Position `h` in the list of objects to copy holds the copy of `g`, and
      below it each child is attached, at its sibling index, to the copy of its
      parent: child i of `g` is copied at `h` plus the objects of `g` itself and
      of the subtrees of children 0..i-1. */
  predicate Rebuilt(g: GameObject, h: int, hier: Hierarchy)
    decreases g, 1
  {
    ChildrenRebuilt(g.children, h, h + |NodeObjects(g)|, 0, hier)
  }

  /** Children `cs`, the first at sibling index `index` and copied at `h`, are
      attached to the copy `parent`, each with its tree rebuilt below it. */
  predicate ChildrenRebuilt(cs: seq<GameObject>, parent: int, h: int, index: int, hier: Hierarchy)
    decreases cs, 0
  {
    cs != [] ==>
      && h in hier.parentOf && hier.parentOf[h] == CreatedParent(parent)
      && h in hier.siblingIndexOf && hier.siblingIndexOf[h] == index
      && Rebuilt(cs[0], h, hier)
      && ChildrenRebuilt(cs[1..], parent, h + |HierarchyObjects(PreOrder(cs[0]))|, index + 1, hier)
  }

  /** The copy of root k sits after the objects of the trees of roots 0..k-1. */
  function CopyHandle(w: World, roots: seq<Loc>, k: nat): int
    requires forall r :: r in roots ==> ValidLoc(w, r)
    requires k <= |roots|
  {
    |HierarchyObjects(Trees(w, roots[..k]))|
  }

  /** Every restored game object carries its record's sibling index. */
  predicate SiblingsRecorded(sos: seq<SerialObject>, hier: Hierarchy)
  {
    forall q :: 0 <= q < |sos| && sos[q].SerialGameObject? ==>
      q in hier.siblingIndexOf && hier.siblingIndexOf[q] == sos[q].record.siblingIndex
  }

  /** Root k's copy is linked to its record's parent exactly when it has one,
      and the links read inside its tree are kept. */
  predicate TreeRelinked(ts: seq<RecordTree>, k: nat, hier: Hierarchy)
    requires k < |ts|
  {
    var hk := SizeSeq(ts[..k]);
    var rec := ts[k].record;
    && (hk in hier.parentOf <==> rec.hasParent)
    && (rec.hasParent ==> hier.parentOf[hk] == ExistingParent(rec.parentID))
    && LinksKept(TreeLinks(ts[k], hk), hier.parentOf)
  }

  predicate TreesRelinked(ts: seq<RecordTree>, hier: Hierarchy)
  {
    forall k :: 0 <= k < |ts| ==> TreeRelinked(ts, k, hier)
  }

  lemma {:induction false} NoNullSplit(a: seq<GameObject>, b: seq<GameObject>)
    requires NoNullComponents(a + b)
    ensures NoNullComponents(a) && NoNullComponents(b)
  {
    forall p, j | 0 <= p < |a| && 0 <= j < |Components(a[p])| ensures Components(a[p])[j].Some? {
      assert (a + b)[p] == a[p];
    }
    forall p, j | 0 <= p < |b| && 0 <= j < |Components(b[p])| ensures Components(b[p])[j].Some? {
      assert (a + b)[|a| + p] == b[p];
    }
  }

  /** A record tree has the shape of a game object's subtree: as many saved
      components as the object has, and child i a tree of the same shape as
      child i of the object, saved with sibling index i. */
  predicate Shaped(t: RecordTree, g: GameObject)
    decreases g, 1
  {
    && |t.record.serializedComponents| == |Components(g)|
    && ChildrenShaped(t.children, g.children, 0)
  }

  predicate ChildrenShaped(ts: seq<RecordTree>, cs: seq<GameObject>, index: int)
    decreases cs, 0
  {
    && |ts| == |cs|
    && (cs != [] ==>
          && ts[0].record.siblingIndex == index
          && Shaped(ts[0], cs[0])
          && ChildrenShaped(ts[1..], cs[1..], index + 1))
  }

  /** With no null components, a subtree is written as a tree of its shape. */
  lemma {:induction false} EncodeTreeShaped(g: GameObject, parent: Option<InstanceId>, si: int, sp: string,
                                            all: seq<Target>, pos: int)
    requires NoNullComponents(PreOrder(g))
    ensures Shaped(EncodeTree(g, parent, si, sp, all, pos), g)
    decreases g, 1
  {
    NoNullSplit([g], PreOrderSeq(g.children));
    assert forall j :: 0 <= j < |Components(g)| ==> Components([g][0])[j].Some?;
    EncodeChildrenShaped(g.children, g.transform.id, 0, sp, all, pos + 1);
  }

  lemma {:induction false} EncodeChildrenShaped(cs: seq<GameObject>, parent: InstanceId, si: int, sp: string,
                                                all: seq<Target>, pos: int)
    requires NoNullComponents(PreOrderSeq(cs))
    ensures ChildrenShaped(EncodeChildren(cs, parent, si, sp, all, pos), cs, si)
    decreases cs, 0
  {
    if cs != [] {
      var ts := EncodeChildren(cs, parent, si, sp, all, pos);
      assert ts[0] == EncodeTree(cs[0], Some(parent), si, sp, all, pos);
      assert ts[1..] == EncodeChildren(cs[1..], parent, si + 1, sp, all, pos + |PreOrder(cs[0])|);
      EncodeChildrenFacts(cs, parent, si, sp, all, pos);
      NoNullSplit(PreOrder(cs[0]), PreOrderSeq(cs[1..]));
      EncodeTreeShaped(cs[0], Some(parent), si, sp, all, pos);
      EncodeChildrenShaped(cs[1..], parent, si + 1, sp, all, pos + |PreOrder(cs[0])|);
    }
  }

  /** A tree restores as many objects as the subtree of its shape has. */
  lemma {:induction false} ShapedSize(t: RecordTree, g: GameObject)
    requires Shaped(t, g)
    ensures Size(t) == |HierarchyObjects(PreOrder(g))|
    decreases g, 1
  {
    TreeObjects(t);
    ChildrenShapedSize(t.children, g.children, 0);
    assert PreOrder(g) == [g] + PreOrderSeq(g.children);
    HierarchyObjectsAppend([g], PreOrderSeq(g.children));
    assert HierarchyObjects([g]) == NodeObjects(g) + HierarchyObjects([]);
  }

  lemma {:induction false} ChildrenShapedSize(ts: seq<RecordTree>, cs: seq<GameObject>, index: int)
    requires ChildrenShaped(ts, cs, index)
    ensures SizeSeq(ts) == |HierarchyObjects(PreOrderSeq(cs))|
    decreases cs, 0
  {
    if cs != [] {
      SizeSeqCons(ts);
      ShapedSize(ts[0], cs[0]);
      ChildrenShapedSize(ts[1..], cs[1..], index + 1);
      HierarchyObjectsAppend(PreOrder(cs[0]), PreOrderSeq(cs[1..]));
    }
  }

  /** The links kept from reading a tree and the sibling indices recorded
      rebuild the hierarchy below its copy. */
  lemma {:induction false} TreeRebuilt(g: GameObject, t: RecordTree, sos: seq<SerialObject>, h: int, hier: Hierarchy)
    requires Shaped(t, g)
    requires 0 <= h && h + Size(t) <= |sos| && sos[h..h + Size(t)] == SerialObjects(Flatten(t))
    requires LinksKept(TreeLinks(t, h), hier.parentOf)
    requires SiblingsRecorded(sos, hier)
    ensures Rebuilt(g, h, hier)
    decreases g, 1
  {
    var c := |t.record.serializedComponents|;
    TreeObjects(t);
    WindowSplit(sos, h, RecordObjects(t.record), SerialObjects(FlattenSeq(t.children)));
    ChildrenRebuiltFrom(g.children, t.children, 0, h, h + 1 + c, sos, hier);
  }

  lemma {:induction false} ChildrenRebuiltFrom(cs: seq<GameObject>, ts: seq<RecordTree>, i: int, parent: int, h: int,
                                               sos: seq<SerialObject>, hier: Hierarchy)
    requires ChildrenShaped(ts, cs, i)
    requires 0 <= h && h + SizeSeq(ts) <= |sos| && sos[h..h + SizeSeq(ts)] == SerialObjects(FlattenSeq(ts))
    requires LinksKept(ChildrenLinks(ts, parent, h), hier.parentOf)
    requires SiblingsRecorded(sos, hier)
    ensures ChildrenRebuilt(cs, parent, h, i, hier)
    decreases cs, 0
  {
    if cs != [] {
      ChildrenLinksSplit(ts, parent, h, hier.parentOf);
      HeadWindow(ts, sos, h);
      ChildRebuilt(cs[0], ts[0], i, h, sos, hier);
      ChildrenRebuiltFrom(cs[1..], ts[1..], i + 1, parent, h + Size(ts[0]), sos, hier);
    }
  }

  /** A child read with sibling index `i` is linked to its parent's copy with
      that index, and its subtree is rebuilt below it. */
  lemma {:induction false} ChildRebuilt(c: GameObject, t: RecordTree, i: int, h: int,
                                        sos: seq<SerialObject>, hier: Hierarchy)
    requires Shaped(t, c) && t.record.siblingIndex == i
    requires 0 <= h && h + Size(t) <= |sos| && sos[h..h + Size(t)] == SerialObjects(Flatten(t))
    requires sos[h] == SerialGameObject(t.record)
    requires LinksKept(TreeLinks(t, h), hier.parentOf)
    requires SiblingsRecorded(sos, hier)
    ensures h in hier.siblingIndexOf && hier.siblingIndexOf[h] == i
    ensures Rebuilt(c, h, hier)
    ensures Size(t) == |HierarchyObjects(PreOrder(c))|
    decreases c, 2
  {
    ShapedSize(t, c);
    TreeRebuilt(c, t, sos, h, hier);
  }


  /** The window of a forest's records splits into its first tree's and the rest's. */
  lemma {:induction false} HeadWindow(ts: seq<RecordTree>, sos: seq<SerialObject>, h: int)
    requires ts != []
    requires 0 <= h && h + SizeSeq(ts) <= |sos| && sos[h..h + SizeSeq(ts)] == SerialObjects(FlattenSeq(ts))
    ensures SizeSeq(ts) == Size(ts[0]) + SizeSeq(ts[1..])
    ensures sos[h..h + Size(ts[0])] == SerialObjects(Flatten(ts[0]))
    ensures sos[h + Size(ts[0])..h + SizeSeq(ts)] == SerialObjects(FlattenSeq(ts[1..]))
    ensures sos[h] == SerialGameObject(ts[0].record)
  {
    SizeSeqCons(ts);
    WindowSplit(sos, h, SerialObjects(Flatten(ts[0])), SerialObjects(FlattenSeq(ts[1..])));
    TreeObjects(ts[0]);
    assert sos[h] == sos[h..h + Size(ts[0])][0];
  }

  /** The trees of roots 0..k-1, root k's tree, and the trees after it. */
  lemma {:induction false} TreesAround(w: World, roots: seq<Loc>, k: nat)
    requires forall r :: r in roots ==> ValidLoc(w, r)
    requires k < |roots|
    ensures Trees(w, roots) == Trees(w, roots[..k]) + (PreOrder(Node(w, roots[k])) + Trees(w, roots[k + 1..]))
  {
    assert roots == roots[..k] + roots[k..];
    TreesAppend(w, roots[..k], roots[k..]);
    assert roots[k..][0] == roots[k] && roots[k..][1..] == roots[k + 1..];
  }

  /** Root k's subtree has no null components when the whole selection has none. */
  lemma {:induction false} RootNoNull(w: World, roots: seq<Loc>, k: nat)
    requires forall r :: r in roots ==> ValidLoc(w, r)
    requires k < |roots| && NoNullComponents(Trees(w, roots))
    ensures NoNullComponents(Trees(w, roots[..k]))
    ensures NoNullComponents(PreOrder(Node(w, roots[k])))
  {
    TreesAround(w, roots, k);
    NoNullSplit(Trees(w, roots[..k]), PreOrder(Node(w, roots[k])) + Trees(w, roots[k + 1..]));
    NoNullSplit(PreOrder(Node(w, roots[k])), Trees(w, roots[k + 1..]));
  }

  /** The copy of root k is the object of root k itself. */
  lemma {:induction false} CopyHandleObject(w: World, roots: seq<Loc>, k: nat)
    requires forall r :: r in roots ==> ValidLoc(w, r)
    requires k < |roots|
    ensures CopyHandle(w, roots, k) < |HierarchyObjects(Trees(w, roots))|
    ensures HierarchyObjects(Trees(w, roots))[CopyHandle(w, roots, k)] == HierarchyGameObject(Node(w, roots[k]))
  {
    var g := Node(w, roots[k]);
    var before, after := Trees(w, roots[..k]), Trees(w, roots[k + 1..]);
    TreesAround(w, roots, k);
    HierarchyObjectsAppend(before, PreOrder(g) + after);
    assert PreOrder(g) + after == [g] + (PreOrderSeq(g.children) + after);
    assert HierarchyObjects(PreOrder(g) + after)[0] == HierarchyGameObject(g);
  }

  /** The trees of roots 0..k-1 restore as many objects as their subtrees have. */
  lemma {:induction false} CopyHandleAt(w: World, roots: seq<Loc>, all: seq<Target>, ts: seq<RecordTree>, k: nat)
    requires forall r :: r in roots ==> ValidLoc(w, r)
    requires k < |roots| && NoNullComponents(Trees(w, roots[..k]))
    requires ts == RootTrees(w, roots, all, 0)
    ensures SizeSeq(ts[..k]) == CopyHandle(w, roots, k)
  {
    RootTreesPrefix(w, roots, all, 0, k);
    RootTreesFacts(w, roots[..k], all, 0);
    RecordsCorrespond(FlattenSeq(ts[..k]), Trees(w, roots[..k]), all, 0);
  }

  /** The records of trees 0..k-1 open the records of the whole forest. */
  lemma {:induction false} ForestPrefix(ts: seq<RecordTree>, k: nat)
    requires k <= |ts|
    ensures |FlattenSeq(ts[..k])| <= |FlattenSeq(ts)|
    ensures FlattenSeq(ts)[..|FlattenSeq(ts[..k])|] == FlattenSeq(ts[..k])
  {
    FlattenPrefix(ts, k, |ts|);
    assert ts[..|ts|] == ts;
  }

  /** The positions of the trees' first records increase and lie inside the forest. */
  lemma {:induction false} ForestPositions(ts: seq<RecordTree>, ks: seq<int>)
    requires |ks| == |ts| && forall k :: 0 <= k < |ts| ==> ks[k] == |FlattenSeq(ts[..k])|
    ensures forall a, b :: 0 <= a < b < |ks| ==> ks[a] < ks[b]
    ensures forall a :: 0 <= a < |ks| ==> 0 <= ks[a] < |FlattenSeq(ts)|
  {
    forall a, b | 0 <= a < b < |ks| ensures ks[a] < ks[b] {
      FlattenPrefix(ts, a, b);
    }
    forall a | 0 <= a < |ks| ensures 0 <= ks[a] < |FlattenSeq(ts)| {
      ForestPrefix(ts, a + 1);
      FlattenPrefix(ts, a, a + 1);
    }
  }

  /** The game object entry read at the first record of tree k has handle SizeSeq(ts[..k]). */
  lemma {:induction false} ForestRootHandle(ts: seq<RecordTree>, k: nat)
    requires k < |ts|
    requires |FlattenSeq(ts[..k])| < |FlattenSeq(ts)|
    ensures var recs := FlattenSeq(ts);
      var gos := GameObjectEntries(SerialObjects(recs), 0);
      |gos| == |recs| && gos[|FlattenSeq(ts[..k])|].handle == SizeSeq(ts[..k])
  {
    var recs := FlattenSeq(ts);
    GameObjectEntriesOfRecords(recs, 0);
    ForestPrefix(ts, k);
  }

  /** The game object entry read from record p names position p + 1 as its first child's. */
  lemma {:induction false} EntriesChained(recs: seq<SerializedGameObject>, nodes: seq<GameObject>, all: seq<Target>)
    requires DescribesAll(recs, nodes, all, 0)
    ensures var gos := GameObjectEntries(SerialObjects(recs), 0);
      |gos| == |recs| && forall p :: 0 <= p < |gos| ==> gos[p].record.indexOfFirstChild - 1 == p
  {
    var gos := GameObjectEntries(SerialObjects(recs), 0);
    GameObjectEntriesOfRecords(recs, 0);
    forall p | 0 <= p < |gos| ensures gos[p].record.indexOfFirstChild - 1 == p {
      assert gos[p].record == recs[p];
    }
  }

  /** The returned roots are the copies of the roots, in order. */
  lemma {:induction false} RootsReturned(w: World, roots: seq<Loc>, all: seq<Target>, sel: SerializedSelection,
                                         ts: seq<RecordTree>, hs: seq<int>)
    requires forall r :: r in roots ==> ValidLoc(w, r)
    requires ts == RootTrees(w, roots, all, 0) && |ts| == |roots|
    requires sel.serializedGameObjects == FlattenSeq(ts)
    requires DescribesAll(sel.serializedGameObjects, Trees(w, roots), all, 0)
    requires |sel.indexOfRootGOs| == |roots|
    requires forall k :: 0 <= k < |roots| ==> sel.indexOfRootGOs[k] == |Trees(w, roots[..k])|
    requires hs == RootHandles(GameObjectEntries(SerialObjects(sel.serializedGameObjects), 0), sel.indexOfRootGOs)
    ensures |hs| == |roots| && forall k :: 0 <= k < |roots| ==> hs[k] == SizeSeq(ts[..k])
  {
    RootIndexes(w, roots, all);
    ForestRootsReturned(ts, Trees(w, roots), all, sel.indexOfRootGOs, hs);
  }

  /** Reading back a forest whose k-th root record sits after the records of
      trees 0..k-1 returns, as the k-th root, the copy at SizeSeq(ts[..k]). */
  lemma {:induction false} ForestRootsReturned(ts: seq<RecordTree>, nodes: seq<GameObject>, all: seq<Target>,
                                               ks: seq<int>, hs: seq<int>)
    requires DescribesAll(FlattenSeq(ts), nodes, all, 0)
    requires |ks| == |ts| && forall k :: 0 <= k < |ts| ==> ks[k] == |FlattenSeq(ts[..k])|
    requires hs == RootHandles(GameObjectEntries(SerialObjects(FlattenSeq(ts)), 0), ks)
    ensures |hs| == |ts| && forall k :: 0 <= k < |ts| ==> hs[k] == SizeSeq(ts[..k])
  {
    var gos := GameObjectEntries(SerialObjects(FlattenSeq(ts)), 0);
    EntriesChained(FlattenSeq(ts), nodes, all);
    ForestPositions(ts, ks);
    RootHandlesPick(gos, ks, 0, 0);
    forall k | 0 <= k < |ts| ensures hs[k] == SizeSeq(ts[..k]) {
      ForestRootHandle(ts, k);
    }
  }

  /** Root k's record carries the root's parent and sibling index. */
  lemma {:induction false} RootRecordAt(w: World, roots: seq<Loc>, all: seq<Target>, ts: seq<RecordTree>, k: nat)
    requires forall r :: r in roots ==> ValidLoc(w, r)
    requires k < |roots|
    requires ts == RootTrees(w, roots, all, 0)
    ensures ValidLoc(w, roots[k])
    ensures var l := roots[k];
      var rec := ts[k].record;
      && rec.siblingIndex == SiblingIndex(l)
      && (rec.hasParent <==> ParentTransformId(w, l).Some?)
      && (rec.hasParent ==> rec.parentID == ParentTransformId(w, l).value)
  {
    assert roots[k] in roots;
    RootTreesAt(w, roots, all, 0, k);
  }

  /** Root k's tree has the shape of its subtree. */
  lemma {:induction false} RootTreeAt(w: World, roots: seq<Loc>, all: seq<Target>, ts: seq<RecordTree>, k: nat)
    requires forall r :: r in roots ==> ValidLoc(w, r)
    requires k < |roots| && NoNullComponents(PreOrder(Node(w, roots[k])))
    requires ts == RootTrees(w, roots, all, 0)
    ensures Shaped(ts[k], Node(w, roots[k]))
  {
    var l := roots[k];
    RootTreesAt(w, roots, all, 0, k);
    EncodeTreeShaped(Node(w, l), ParentTransformId(w, l), SiblingIndex(l), ScenePath(w, l), all, |Trees(w, roots[..k])|);
  }

  /** The parents the roots' records name are live when the roots' parents are. */
  lemma {:induction false} RootTreesLive(w: World, roots: seq<Loc>, all: seq<Target>, ts: seq<RecordTree>, host: Host)
    requires forall r :: r in roots ==> ValidLoc(w, r)
    requires ts == RootTrees(w, roots, all, 0)
    requires RootParentsLive(w, roots, host)
    ensures forall k :: 0 <= k < |ts| && ts[k].record.hasParent ==>
      ts[k].record.parentID in host && host[ts[k].record.parentID].kind == TransformKind
  {
    forall k | 0 <= k < |ts| && ts[k].record.hasParent
      ensures ts[k].record.parentID in host && host[ts[k].record.parentID].kind == TransformKind
    {
      RootRecordAt(w, roots, all, ts, k);
    }
  }

  /** The copy of tree k is linked and indexed as its root's record says. */
  lemma {:induction false} TreeRootLinked(ts: seq<RecordTree>, k: nat, hier: Hierarchy)
    requires k < |ts|
    requires SiblingsRecorded(SerialObjects(FlattenSeq(ts)), hier) && TreesRelinked(ts, hier)
    ensures var hk := SizeSeq(ts[..k]);
      var rec := ts[k].record;
      && (hk in hier.parentOf <==> rec.hasParent)
      && (rec.hasParent ==> hier.parentOf[hk] == ExistingParent(rec.parentID))
      && hk in hier.siblingIndexOf && hier.siblingIndexOf[hk] == rec.siblingIndex
  {
    assert TreeRelinked(ts, k, hier);
    RootObject(ts, k);
  }

  /** Below the copy of tree k the subtree of its shape is rebuilt. */
  lemma {:induction false} TreeRootRebuilt(g: GameObject, ts: seq<RecordTree>, k: nat, hier: Hierarchy)
    requires k < |ts| && Shaped(ts[k], g)
    requires SiblingsRecorded(SerialObjects(FlattenSeq(ts)), hier) && TreesRelinked(ts, hier)
    ensures Rebuilt(g, SizeSeq(ts[..k]), hier)
  {
    assert TreeRelinked(ts, k, hier);
    ForestWindow(ts, k);
    TreeRebuilt(g, ts[k], SerialObjects(FlattenSeq(ts)), SizeSeq(ts[..k]), hier);
  }

  /** Root k is restored as RootRestored says. */
  lemma {:induction false} RootRestoredAt(w: World, roots: seq<Loc>, all: seq<Target>, ts: seq<RecordTree>,
                                          res: Restoration, k: nat)
    requires forall r :: r in roots ==> ValidLoc(w, r)
    requires k < |roots| && NoNullComponents(Trees(w, roots))
    requires ts == RootTrees(w, roots, all, 0)
    requires SiblingsRecorded(SerialObjects(FlattenSeq(ts)), res.hierarchy) && TreesRelinked(ts, res.hierarchy)
    requires |res.roots| == |roots| && res.roots[k] == SizeSeq(ts[..k])
    ensures RootRestored(w, roots, k, res)
  {
    RootNoNull(w, roots, k);
    CopyHandleObject(w, roots, k);
    CopyHandleAt(w, roots, all, ts, k);
    RootRecordAt(w, roots, all, ts, k);
    RootTreeAt(w, roots, all, ts, k);
    TreeRootLinked(ts, k, res.hierarchy);
    TreeRootRebuilt(Node(w, roots[k]), ts, k, res.hierarchy);
  }

  lemma {:induction false} RootsRestored(w: World, roots: seq<Loc>, all: seq<Target>, ts: seq<RecordTree>,
                                         res: Restoration)
    requires forall r :: r in roots ==> ValidLoc(w, r)
    requires NoNullComponents(Trees(w, roots))
    requires ts == RootTrees(w, roots, all, 0)
    requires SiblingsRecorded(SerialObjects(FlattenSeq(ts)), res.hierarchy) && TreesRelinked(ts, res.hierarchy)
    requires |res.roots| == |roots| && forall k :: 0 <= k < |roots| ==> res.roots[k] == SizeSeq(ts[..k])
    ensures forall k :: 0 <= k < |roots| ==> RootRestored(w, roots, k, res)
  {
    forall k | 0 <= k < |roots| ensures RootRestored(w, roots, k, res) {
      RootRestoredAt(w, roots, all, ts, res, k);
    }
  }
}
