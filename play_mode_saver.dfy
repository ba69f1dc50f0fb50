/**
  The editor-side snapshot code: the Serializer, which walks the selected
  hierarchies and fills a selection record, and the Deserializer, which
  rebuilds objects from such a record.  Each is a class over the state the
  original keeps in its fields, and each method is proved against the
  functions of the Serialization and Deserialization modules.
*/
module PlayModeSaver {
  import opened Wrappers
  import opened SceneGraph
  import opened SerializedData
  import opened Serialization
  import opened Deserialization
  import opened DeserializationLemmas

  /** PlayModeSaver.Serialize: a fresh serializer over the given objects. */
  method Serialize(world: World, gameObjects: seq<Loc>) returns (sel: SerializedSelection)
    requires forall g :: g in gameObjects ==> ValidLoc(world, g)
    ensures sel == SerializeSelection(world, gameObjects)
  {
    var serializer := new Serializer(world, gameObjects);
    sel := serializer.Serialize();
  }

  class Serializer {
    /** The scenes being read; the serializer never changes them. */
    const world: World
    const rawGameObjects: seq<Loc>
    var serializedSelection: SerializedSelection
    var rootGameObjectsToCopy: seq<Loc>
    var allGameObjectsToCopy: seq<GameObject>
    var allComponentsInGameObjectsToCopyHierarchy: seq<Target>

    constructor(world: World, rawGameObjects: seq<Loc>)
      ensures this.world == world && this.rawGameObjects == rawGameObjects
      ensures serializedSelection == EmptySelection
      ensures rootGameObjectsToCopy == [] && allGameObjectsToCopy == []
      ensures allComponentsInGameObjectsToCopyHierarchy == []
    {
      this.world := world;
      this.rawGameObjects := rawGameObjects;
      serializedSelection := EmptySelection;
      rootGameObjectsToCopy := [];
      allGameObjectsToCopy := [];
      allComponentsInGameObjectsToCopyHierarchy := [];
    }

    /** Every input is a live game object of the scenes. */
    predicate InputsValid()
    {
      forall g :: g in rawGameObjects ==> ValidLoc(world, g)
    }

    /** Serializer.Serialize: the roots, their trees, the index space, then the records. */
    method Serialize() returns (sel: SerializedSelection)
      requires InputsValid()
      modifies this
      ensures rootGameObjectsToCopy == GetRootGameObjects(rawGameObjects)
      ensures allGameObjectsToCopy == Trees(world, rootGameObjectsToCopy)
      ensures allComponentsInGameObjectsToCopyHierarchy == AllObjects(allGameObjectsToCopy)
      ensures sel == serializedSelection == SerializeSelection(world, rawGameObjects)
    {
      rootGameObjectsToCopy := GetRootGameObjects(rawGameObjects);
      CollectTrees();
      allComponentsInGameObjectsToCopyHierarchy := GetAllObjects(rootGameObjectsToCopy);
      serializedSelection := EmptySelection;
      SerializeEach(rootGameObjectsToCopy);
      sel := serializedSelection;
    }

    /** The loop of Serialize over the roots: each root's subtree in pre-order, one root after another. */
    method CollectTrees()
      requires forall g :: g in rootGameObjectsToCopy ==> ValidLoc(world, g)
      modifies this`allGameObjectsToCopy
      ensures allGameObjectsToCopy == Trees(world, rootGameObjectsToCopy)
    {
      var roots := rootGameObjectsToCopy;
      allGameObjectsToCopy := [];
      for i := 0 to |roots|
        invariant allGameObjectsToCopy == Trees(world, roots[..i])
      {
        var tree := GetTree(Node(world, roots[i]), []);
        TreesPrefix(world, roots, i);
        allGameObjectsToCopy := allGameObjectsToCopy + tree;
      }
      assert roots[..|roots|] == roots;
    }

    /** GetAllObjects: each game object to copy, followed by its components,
        null ones included.  As in the original, the list it walks is the
        field allGameObjectsToCopy, not its argument. */
    method GetAllObjects(gameObjects: seq<Loc>) returns (objects: seq<Target>)
      ensures objects == AllObjects(allGameObjectsToCopy)
    {
      var nodes := allGameObjectsToCopy;
      objects := [];
      for i := 0 to |nodes|
        invariant objects == AllObjects(nodes[..i])
      {
        var targets := NodeTargets(nodes[i]);
        objects := objects + targets;
        AllObjectsPrefix(nodes, i);
      }
      assert nodes[..|nodes|] == nodes;
    }

    /** Serialize(IEnumerable): for each root, note its position and instance
        id, then write its subtree. */
    method SerializeEach(gameObjectsToSerialize: seq<Loc>)
      requires forall g :: g in gameObjectsToSerialize ==> ValidLoc(world, g)
      modifies this`serializedSelection
      ensures serializedSelection ==
        SerializeRoots(world, gameObjectsToSerialize, allComponentsInGameObjectsToCopyHierarchy, old(serializedSelection))
    {
      var gos := gameObjectsToSerialize;
      var all := allComponentsInGameObjectsToCopyHierarchy;
      ghost var sel0 := serializedSelection;
      for i := 0 to |gos|
        invariant SerializeRoots(world, gos, all, sel0) == SerializeRoots(world, gos[i..], all, serializedSelection)
      {
        var g := gos[i];
        assert g in gos;
        ghost var before := serializedSelection;
        var pos := |serializedSelection.serializedGameObjects|;
        serializedSelection := serializedSelection.(
          indexOfRootGOs := serializedSelection.indexOfRootGOs + [pos],
          idOfRootGOs := serializedSelection.idOfRootGOs + [Node(world, g).id]);
        SerializeGameObject(g);
        RootWritten(world, g, all, before, serializedSelection);
        SerializeRootsStep(world, gos, i, all, before);
      }
    }

    /** SerializeGameObject: the record of the object at `l`, then its children's
        subtrees; foundStatic is raised for a static object, and writing goes on. */
    method SerializeGameObject(l: Loc)
      requires ValidLoc(world, l)
      modifies this`serializedSelection
      ensures serializedSelection.serializedGameObjects == old(serializedSelection.serializedGameObjects)
        + Flatten(RootTree(world, l, allComponentsInGameObjectsToCopyHierarchy, old(|serializedSelection.serializedGameObjects|)))
      ensures serializedSelection.foundStatic == (old(serializedSelection.foundStatic) || AnyStatic(PreOrder(Node(world, l))))
      ensures serializedSelection.indexOfRootGOs == old(serializedSelection.indexOfRootGOs)
      ensures serializedSelection.idOfRootGOs == old(serializedSelection.idOfRootGOs)
      decreases Node(world, l), 1
    {
      var all := allComponentsInGameObjectsToCopyHierarchy;
      var g := Node(world, l);
      var sp := ScenePath(world, l);
      var pos := |serializedSelection.serializedGameObjects|;
      ghost var recs0 := serializedSelection.serializedGameObjects;
      ghost var static0 := serializedSelection.foundStatic;
      var sgo := BuildRecord(l, pos);
      serializedSelection := serializedSelection.(serializedGameObjects := serializedSelection.serializedGameObjects + [sgo]);
      if g.isStatic {
        serializedSelection := serializedSelection.(foundStatic := true);
      }

      SerializeChildren(l, pos);
      AnyStaticAppend([g], PreOrderSeq(g.children));
      assert AnyStatic([g]) == g.isStatic by { assert [g][0] == g; }
      RootTreeUnfold(world, l, all, pos);
      ConcatAssoc(recs0, [sgo], FlattenSeq(EncodeChildren(g.children, g.transform.id, 0, sp, all, pos + 1)));
    }

    /** The loop of SerializeGameObject over the children of the object at `l`,
        whose record sits at position `pos`: each child's subtree in turn. */
    method SerializeChildren(l: Loc, pos: int)
      requires ValidLoc(world, l) && |serializedSelection.serializedGameObjects| == pos + 1
      modifies this`serializedSelection
      ensures var g := Node(world, l);
        serializedSelection.serializedGameObjects == old(serializedSelection.serializedGameObjects)
        + FlattenSeq(EncodeChildren(g.children, g.transform.id, 0, ScenePath(world, l),
                                    allComponentsInGameObjectsToCopyHierarchy, pos + 1))
      ensures serializedSelection.foundStatic ==
        (old(serializedSelection.foundStatic) || AnyStatic(PreOrderSeq(Node(world, l).children)))
      ensures serializedSelection.indexOfRootGOs == old(serializedSelection.indexOfRootGOs)
      ensures serializedSelection.idOfRootGOs == old(serializedSelection.idOfRootGOs)
      decreases Node(world, l), 0
    {
      var all := allComponentsInGameObjectsToCopyHierarchy;
      var g := Node(world, l);
      var sp := ScenePath(world, l);
      ghost var head := serializedSelection.serializedGameObjects;
      ghost var static0 := serializedSelection.foundStatic;
      assert g.children[..0] == [];
      for i := 0 to |g.children|
        invariant serializedSelection.serializedGameObjects ==
          head + FlattenSeq(EncodeChildren(g.children[..i], g.transform.id, 0, sp, all, pos + 1))
        invariant serializedSelection.foundStatic == (static0 || AnyStatic(PreOrderSeq(g.children[..i])))
        invariant serializedSelection.indexOfRootGOs == old(serializedSelection.indexOfRootGOs)
        invariant serializedSelection.idOfRootGOs == old(serializedSelection.idOfRootGOs)
      {
        var c := Child(l, i);
        ghost var before := serializedSelection.serializedGameObjects;
        ghost var staticBefore := serializedSelection.foundStatic;
        ChildNode(world, l, i);
        SerializeGameObject(c);
        ChildWritten(world, l, i, all, pos, head, before, serializedSelection.serializedGameObjects);
        ChildStatic(world, l, i, static0, staticBefore, serializedSelection.foundStatic);
      }
      assert g.children[..|g.children|] == g.children;
    }

    /** The first half of SerializeGameObject: the record of the object at `l`
        alone, written at position `pos`; null components are skipped. */
    method BuildRecord(l: Loc, pos: int) returns (sgo: SerializedGameObject)
      requires ValidLoc(world, l)
      ensures sgo == RecordOf(Node(world, l), ParentTransformId(world, l), SiblingIndex(l), ScenePath(world, l),
                              allComponentsInGameObjectsToCopyHierarchy, pos)
    {
      var all := allComponentsInGameObjectsToCopyHierarchy;
      var g := Node(world, l);
      var sp := ScenePath(world, l);
      var parent := ParentTransformId(world, l);
      var ids := GetInstanceReferenceIDs(g.slots);

      var comps := SerializeComponentsOf(Components(g));
      sgo := SerializedGameObject(g.data, ids, sp, parent.Some?, if parent.Some? then parent.value else 0,
                                  SiblingIndex(l), |g.children|, pos + 1, comps);
      assert sgo == RecordOf(g, parent, SiblingIndex(l), sp, all, pos);
    }

    /** The loop of SerializeGameObject over the object's components: missing
        ones are skipped, the others serialized in order. */
    method SerializeComponentsOf(cs: seq<Option<Component>>) returns (comps: seq<SerializedComponent>)
      ensures comps == SerializeComponents(cs, allComponentsInGameObjectsToCopyHierarchy)
    {
      var all := allComponentsInGameObjectsToCopyHierarchy;
      comps := [];
      for j := 0 to |cs|
        invariant SerializeComponents(cs, all) == comps + SerializeComponents(cs[j..], all)
      {
        ComponentsLoopStep(cs, all, comps, j);
        if cs[j].Some? {
          var sc := SerializeComponent(cs[j].value);
          comps := comps + [sc];
        }
      }
      assert cs[|cs|..] == [];
    }

    /** SerializeComponent: the component's type, its blob and its saved references. */
    method SerializeComponent(component: Component) returns (sc: SerializedComponent)
      ensures sc == Serialization.SerializeComponent(component, allComponentsInGameObjectsToCopyHierarchy)
    {
      var ids := GetInstanceReferenceIDs(component.slots);
      sc := SerializedComponent(component.assemblyName, component.typeName, component.data, ids);
    }

    /** GetInstanceReferenceIDs: one saved reference per object-reference property,
        in iteration order. */
    method GetInstanceReferenceIDs(slots: seq<Target>) returns (ids: seq<InstanceReference>)
      ensures ids == ClassifyAll(slots, allComponentsInGameObjectsToCopyHierarchy)
    {
      var all := allComponentsInGameObjectsToCopyHierarchy;
      ids := [];
      for k := 0 to |slots|
        invariant ids == ClassifyAll(slots[..k], all)
      {
        var value := slots[k];
        var r;
        if value == Null {
          r := NullReference;
        } else if value in all {
          var index := FirstIndexOf(all, value);
          r := Reference(index, true);
        } else {
          r := Reference(value.id, false);
        }
        assert r == Classify(value, all);
        ids := ids + [r];
      }
      assert slots[..|slots|] == slots;
    }

    /** GetTree: appends the subtree of `go` in pre-order. */
    static method GetTree(go: GameObject, gameObjects: seq<GameObject>) returns (result: seq<GameObject>)
      ensures result == gameObjects + PreOrder(go)
      decreases go
    {
      result := gameObjects + [go];
      for i := 0 to |go.children|
        invariant result == gameObjects + [go] + PreOrderSeq(go.children[..i])
      {
        result := GetTree(go.children[i], result);
        assert go.children[..i + 1] == go.children[..i] + [go.children[i]];
        PreOrderSeqAppend(go.children[..i], [go.children[i]]);
        assert PreOrderSeq([go.children[i]]) == PreOrder(go.children[i]) by { assert [go.children[i]][1..] == []; }
      }
      assert go.children[..|go.children|] == go.children;
    }
  }

  /** PlayModeSaver.Deserialize: a fresh deserializer over the record. */
  method Deserialize(serializedSelection: SerializedSelection, destroyOriginals: bool, host: Host,
                     loadedScenes: set<string>, registry: Registry) returns (r: Result<seq<int>, Error>)
    ensures var spec := DeserializeSelection(serializedSelection, destroyOriginals, host, loadedScenes, registry);
      && (r.Success? <==> spec.Success?)
      && (r.Failure? ==> r.error == spec.error)
      && (r.Success? ==> r.value == spec.value.roots)
  {
    var deserializer := new Deserializer(serializedSelection, destroyOriginals, host, loadedScenes, registry);
    r := deserializer.Deserialize();
  }

  /** The editor state the deserializer reads and writes: the existing objects
      (`host`), the objects it has restored so far in creation order (the
      index of an object in `deserializedObjects` is its handle), the two
      lists of entries, and the parents and sibling indices it has set. */
  class Deserializer {
    const serializedSelection: SerializedSelection
    const destroyOriginals: bool
    /** The scene paths whose scene is loaded. */
    const loadedScenes: set<string>
    /** What Assembly.Load and Assembly.GetType can find. */
    const registry: Registry
    var host: Host
    var deserializedObjects: seq<LiveObject>
    var deserializedGameObjects: seq<DeserializedGameObject>
    var deserializedComponents: seq<DeserializedComponent>
    var hierarchy: Hierarchy

    constructor(serializedSelection: SerializedSelection, destroyOriginals: bool, host: Host,
                loadedScenes: set<string>, registry: Registry)
      ensures this.serializedSelection == serializedSelection && this.destroyOriginals == destroyOriginals
      ensures this.host == host && this.loadedScenes == loadedScenes && this.registry == registry
      ensures deserializedObjects == [] && deserializedGameObjects == [] && deserializedComponents == []
      ensures hierarchy == Hierarchy(map[], map[])
    {
      this.serializedSelection := serializedSelection;
      this.destroyOriginals := destroyOriginals;
      this.host := host;
      this.loadedScenes := loadedScenes;
      this.registry := registry;
      deserializedObjects := [];
      deserializedGameObjects := [];
      deserializedComponents := [];
      hierarchy := Hierarchy(map[], map[]);
    }

    method Reset()
      modifies this`deserializedObjects, this`deserializedGameObjects, this`deserializedComponents, this`hierarchy
      ensures deserializedObjects == [] && deserializedGameObjects == [] && deserializedComponents == []
      ensures hierarchy == Hierarchy(map[], map[])
    {
      deserializedObjects := [];
      deserializedGameObjects := [];
      deserializedComponents := [];
      hierarchy := Hierarchy(map[], map[]);
    }

    /** Deserializer.Deserialize: destroy the originals if asked, read each
        loaded root's subtree, restore the references and parents, and return
        the restored roots. */
    method Deserialize() returns (r: Result<seq<int>, Error>)
      modifies this
      ensures var spec := DeserializeSelection(serializedSelection, destroyOriginals, old(host), loadedScenes, registry);
        && (r.Success? <==> spec.Success?)
        && (r.Failure? ==> r.error == spec.error)
        && (r.Success? ==> && r.value == spec.value.roots
                           && host == spec.value.host
                           && deserializedObjects == spec.value.objects
                           && hierarchy == spec.value.hierarchy)
      ensures var read := ReadRoots(serializedSelection.serializedGameObjects, registry, loadedScenes,
                                    serializedSelection.indexOfRootGOs);
        r.Success? ==>
          && read.Success?
          && deserializedGameObjects == GameObjectEntries(SerialObjects(FlattenSeq(read.value)), 0)
          && deserializedComponents == ComponentEntries(SerialObjects(FlattenSeq(read.value)), 0)
    {
      Reset();
      if destroyOriginals {
        DestroyOriginals();
      }
      var err := ReadRootNodes();
      if err.Some? {
        SelectionReadFails(serializedSelection, destroyOriginals, old(host), loadedScenes, registry);
        return Failure(err.value);
      }
      ghost var trees := ReadRoots(serializedSelection.serializedGameObjects, registry, loadedScenes,
                                   serializedSelection.indexOfRootGOs).value;
      ghost var objs0, h0 := deserializedObjects, hierarchy;
      RestorationShape(serializedSelection, destroyOriginals, old(host), loadedScenes, registry, host, trees,
                     deserializedObjects, deserializedGameObjects, deserializedComponents, hierarchy);
      err := RestoreInternalObjectReferences();
      if err.Some? {
        return Failure(err.value);
      }
      ghost var spec := DeserializeSelection(serializedSelection, destroyOriginals, old(host), loadedScenes, registry);
      assert spec == Success(Restoration(host, deserializedObjects, hierarchy,
                                         RootHandles(deserializedGameObjects, serializedSelection.indexOfRootGOs)));
      var roots := RestoredRoots();
      r := Success(roots);
    }

    /** The last loop of Deserialize: the restored game objects whose records
        are saved roots, in creation order. */
    method RestoredRoots() returns (roots: seq<int>)
      ensures roots == RootHandles(deserializedGameObjects, serializedSelection.indexOfRootGOs)
    {
      var ks := serializedSelection.indexOfRootGOs;
      var gos := deserializedGameObjects;
      roots := [];
      for i := 0 to |gos|
        invariant RootHandles(gos, ks) == roots + RootHandles(gos[i..], ks)
      {
        RootHandlesStep(gos, ks, roots, i);
        if gos[i].record.indexOfFirstChild - 1 in ks {
          roots := roots + [gos[i].handle];
        }
      }
      assert gos[|gos|..] == [];
    }

    /** The loop of Deserialize over the saved roots: each root whose scene is
        loaded is read with its subtree; roots of other scenes are skipped. */
    method ReadRootNodes() returns (err: Option<Error>)
      requires deserializedObjects == [] && deserializedGameObjects == [] && deserializedComponents == []
      requires hierarchy == Hierarchy(map[], map[])
      modifies this`deserializedObjects, this`deserializedGameObjects, this`deserializedComponents, this`hierarchy
      ensures var spec := ReadRoots(serializedSelection.serializedGameObjects, registry, loadedScenes,
                                    serializedSelection.indexOfRootGOs);
        && (err.None? <==> spec.Success?)
        && (err.Some? ==> err.value == spec.error)
        && (err.None? ==>
              && Grown(deserializedObjects, deserializedGameObjects, deserializedComponents, [], [], [],
                       SerialObjects(FlattenSeq(spec.value)), host)
              && hierarchy == Hierarchy(ForestLinks(spec.value, 0), map[]))
    {
      var recs := serializedSelection.serializedGameObjects;
      var ks := serializedSelection.indexOfRootGOs;
      ghost var trees: seq<RecordTree> := [];
      assert ks[0..] == ks;
      PrependNothing(ReadRoots(recs, registry, loadedScenes, ks), Success(([], 0)));
      for i := 0 to |ks|
        invariant ReadRoots(recs, registry, loadedScenes, ks) == PrependTrees(trees, ReadRoots(recs, registry, loadedScenes, ks[i..]))
        invariant Grown(deserializedObjects, deserializedGameObjects, deserializedComponents, [], [], [],
                        SerialObjects(FlattenSeq(trees)), host)
        invariant hierarchy == Hierarchy(ForestLinks(trees, 0), map[])
      {
        assert ks[i..][1..] == ks[i + 1..];
        var index := ks[i];
        if !(0 <= index < |recs|) {
          return Some(IndexOutOfRange);
        }
        if recs[index].scenePath in loadedScenes {
          ghost var objs0, gos0, comps0 := deserializedObjects, deserializedGameObjects, deserializedComponents;
          var res, _ := ReadNodeFromSerializedNodes(index);
          if res.Failure? {
            return Some(res.error);
          }
          ghost var t := ReadNode(recs, registry, index).value.0;
          RootStep(recs, registry, loadedScenes, ks, i, trees, t, host, objs0, gos0, comps0,
                   deserializedObjects, deserializedGameObjects, deserializedComponents);
          ForestLinksSnoc(trees, t, 0);
          trees := trees + [t];
        }
      }
      assert ks[|ks|..] == [];
      PrependNothing(Success([]), Success(([], 0)));
      assert trees + [] == trees;
      err := None;
    }

    /** DestroyOriginals: each saved root id that names a live game object is
        destroyed with everything below it; other ids are passed over. */
    method DestroyOriginals()
      modifies this`host
      ensures host == DestroyAll(old(host), serializedSelection.idOfRootGOs)
    {
      var ids := serializedSelection.idOfRootGOs;
      for i := 0 to |ids|
        invariant DestroyAll(old(host), ids) == DestroyAll(host, ids[i..])
      {
        assert ids[i..][1..] == ids[i + 1..];
        host := DestroyObject(host, ids[i]);
      }
    }

    /** ReadNodeFromSerializedNodes: restore record `index`, then read its
        children depth-first, each starting right after the last record the
        previous one consumed, and parent them to it.  Returns the index of
        the last record consumed and the restored game object's handle. */
    method ReadNodeFromSerializedNodes(index: int) returns (r: Result<int, Error>, go: int)
      modifies this`deserializedObjects, this`deserializedGameObjects, this`deserializedComponents, this`hierarchy
      ensures var spec := ReadNode(serializedSelection.serializedGameObjects, registry, index);
        && (r.Success? <==> spec.Success?)
        && (r.Failure? ==> r.error == spec.error)
        && (r.Success? ==>
              && r.value == spec.value.1
              && go == old(|deserializedObjects|)
              && Grown(deserializedObjects, deserializedGameObjects, deserializedComponents,
                       old(deserializedObjects), old(deserializedGameObjects), old(deserializedComponents),
                       SerialObjects(Flatten(spec.value.0)), host)
              && hierarchy == Hierarchy(old(hierarchy.parentOf) + TreeLinks(spec.value.0, go), old(hierarchy.siblingIndexOf)))
      decreases |serializedSelection.serializedGameObjects| - index
    {
      var recs := serializedSelection.serializedGameObjects;
      if !(0 <= index < |recs|) {
        return Failure(IndexOutOfRange), 0;
      }
      var serializedGameObject := recs[index];
      ghost var objs0, gos0, comps0 := deserializedObjects, deserializedGameObjects, deserializedComponents;
      ghost var links0 := hierarchy.parentOf;
      var created := RestoreGameObject(serializedGameObject);
      if created.Failure? {
        return Failure(created.error), 0;
      }
      var newGameObject := created.value;
      ghost var n := serializedGameObject.childCount;
      ghost var first := newGameObject + 1 + |serializedGameObject.serializedComponents|;
      ghost var kids: seq<RecordTree> := [];
      var cursor := index;
      var i := 0;
      KidsStart(serializedGameObject);
      PrependNothing(Success([]), ReadChildren(recs, registry, index, n));
      while i != serializedGameObject.childCount
        invariant index <= cursor < |recs|
        invariant ReadChildren(recs, registry, index, n) == PrependChildren(kids, ReadChildren(recs, registry, cursor, n - i))
        invariant Grown(deserializedObjects, deserializedGameObjects, deserializedComponents, objs0, gos0, comps0,
                        SerialObjects([serializedGameObject] + FlattenSeq(kids)), host)
        invariant hierarchy == Hierarchy(links0 + ChildrenLinks(kids, newGameObject, first), old(hierarchy.siblingIndexOf))
        decreases |recs| - cursor
      {
        ghost var objs1, gos1, comps1 := deserializedObjects, deserializedGameObjects, deserializedComponents;
        ghost var links1 := hierarchy.parentOf;
        var res, childGO := ReadNodeFromSerializedNodes(cursor + 1);
        if res.Failure? {
          return Failure(res.error), 0;
        }
        ghost var t := ReadNode(recs, registry, cursor + 1).value.0;
        KidsStep(serializedGameObject, kids, t, newGameObject, first, host, objs0, gos0, comps0, objs1, gos1, comps1,
                 deserializedObjects, deserializedGameObjects, deserializedComponents);
        hierarchy := hierarchy.(parentOf := hierarchy.parentOf[childGO := CreatedParent(newGameObject)]);
        LinksStep(links0, ChildrenLinks(kids, newGameObject, first), TreeLinks(t, childGO), childGO, CreatedParent(newGameObject));
        PrependChildrenSnoc(recs, registry, cursor, n - i, kids);
        kids := kids + [t];
        cursor := res.value;
        i := i + 1;
      }
      assert ReadChildren(recs, registry, cursor, 0) == Success(([], cursor));
      assert kids + [] == kids;
      NodeRead(recs, registry, index, serializedGameObject, kids, cursor, newGameObject, first,
               links0, hierarchy, old(hierarchy.siblingIndexOf));
      go := newGameObject;
      r := Success(cursor);
    }

    /** RestoreGameObject: a new game object from the record, its references
        from outside the hierarchy looked up, then its components. */
    method RestoreGameObject(serializedGameObject: SerializedGameObject) returns (r: Result<int, Error>)
      modifies this`deserializedObjects, this`deserializedGameObjects, this`deserializedComponents
      ensures var e := FirstTypeError(serializedGameObject.serializedComponents, registry);
        && (r.Failure? <==> e.Some?)
        && (r.Failure? ==> r.error == e.value)
        && (r.Success? ==>
              && r.value == old(|deserializedObjects|)
              && Grown(deserializedObjects, deserializedGameObjects, deserializedComponents,
                       old(deserializedObjects), old(deserializedGameObjects), old(deserializedComponents),
                       RecordObjects(serializedGameObject), host))
    {
      var handle := |deserializedObjects|;
      var slots := RestoreObjectReference(serializedGameObject.savedInstanceIDs);
      deserializedObjects := deserializedObjects
        + [LiveGameObject(serializedGameObject.serializedData, serializedGameObject.scenePath, slots)];
      deserializedGameObjects := deserializedGameObjects + [DeserializedGameObject(serializedGameObject, handle)];
      var err := RestoreComponents(handle, serializedGameObject.serializedComponents);
      if err.Some? {
        return Failure(err.value);
      }
      GameObjectCreated(serializedGameObject, host, old(deserializedObjects), old(deserializedGameObjects),
                        old(deserializedComponents), deserializedObjects, deserializedGameObjects, deserializedComponents);
      r := Success(handle);
    }

    /** RestoreComponents: the components in order; the first whose type cannot
        be loaded raises. */
    method RestoreComponents(go: int, serializedComponents: seq<SerializedComponent>) returns (err: Option<Error>)
      modifies this`deserializedObjects, this`deserializedComponents
      ensures err == FirstTypeError(serializedComponents, registry)
      ensures err.None? ==>
        && deserializedObjects == old(deserializedObjects) + CreateAll(ComponentObjects(serializedComponents), host)
        && deserializedComponents == old(deserializedComponents)
             + ComponentEntries(ComponentObjects(serializedComponents), old(|deserializedObjects|))
    {
      var cs := serializedComponents;
      for j := 0 to |cs|
        invariant FirstTypeError(cs, registry) == FirstTypeError(cs[j..], registry)
        invariant deserializedObjects == old(deserializedObjects) + CreateAll(ComponentObjects(cs[..j]), host)
        invariant deserializedComponents == old(deserializedComponents)
          + ComponentEntries(ComponentObjects(cs[..j]), old(|deserializedObjects|))
      {
        assert cs[j..][1..] == cs[j + 1..];
        ghost var objs1, comps1 := deserializedObjects, deserializedComponents;
        err := RestoreComponent(go, cs[j]);
        if err.Some? {
          return;
        }
        ComponentsStep(cs, j, host, old(deserializedObjects), old(deserializedComponents), objs1, comps1,
                       deserializedObjects, deserializedComponents);
      }
      assert cs[|cs|..] == [] && cs[..|cs|] == cs;
      err := None;
    }

    /** RestoreComponent: load the type, reuse the transform or add a new
        component, then look up its references from outside the hierarchy. */
    method RestoreComponent(go: int, serializedComponent: SerializedComponent) returns (err: Option<Error>)
      modifies this`deserializedObjects, this`deserializedComponents
      ensures err == TypeError(serializedComponent, registry)
      ensures err.None? ==>
        && deserializedObjects == old(deserializedObjects) + [InitialObject(SerialComponent(serializedComponent), host)]
        && deserializedComponents == old(deserializedComponents)
             + [DeserializedComponent(serializedComponent, old(|deserializedObjects|))]
    {
      if serializedComponent.assemblyName !in registry {
        return Some(AssemblyNotFound(serializedComponent.assemblyName));
      }
      if serializedComponent.typeName !in registry[serializedComponent.assemblyName] {
        return Some(TypeNotFound(serializedComponent.assemblyName, serializedComponent.typeName));
      }
      var added := serializedComponent.typeName != TransformTypeName;
      var slots := RestoreObjectReference(serializedComponent.savedInstanceIDs);
      var handle := |deserializedObjects|;
      deserializedObjects := deserializedObjects + [LiveComponent(serializedComponent.assemblyName,
        serializedComponent.typeName, added, serializedComponent.serializedData, slots)];
      deserializedComponents := deserializedComponents + [DeserializedComponent(serializedComponent, handle)];
      err := None;
    }

    /** RestoreObjectReference: the value of each object-reference property, the
        counter advancing once per such property.  An external reference is
        looked up by instance id, and cleared when nothing has that id. */
    method RestoreObjectReference(savedInstanceIDs: seq<InstanceReference>) returns (slots: seq<SlotValue>)
      ensures slots == FirstPassSlots(savedInstanceIDs, host)
    {
      slots := [];
      var i := 0;
      while i < |savedInstanceIDs|
        invariant 0 <= i <= |savedInstanceIDs|
        invariant slots == FirstPassSlots(savedInstanceIDs[..i], host)
      {
        var value := FromSnapshot;
        if !savedInstanceIDs[i].isNull && !savedInstanceIDs[i].isInternal {
          value := if savedInstanceIDs[i].id in host then ToExisting(savedInstanceIDs[i].id) else Cleared;
        }
        assert FirstPassSlots(savedInstanceIDs[..i + 1], host) == FirstPassSlots(savedInstanceIDs[..i], host) + [value];
        slots := slots + [value];
        i := i + 1;
      }
      assert savedInstanceIDs[..i] == savedInstanceIDs;
    }

    /** RestoreInternalObjectReferences: first the parents and sibling indices of
        the restored game objects (a saved parent that no longer exists ends the
        method), then every internal reference of the restored components. */
    method RestoreInternalObjectReferences() returns (err: Option<Error>)
      requires EntriesFit(deserializedComponents, deserializedObjects)
      modifies this`deserializedObjects, this`hierarchy
      ensures var pp := ParentPass(deserializedGameObjects, host, old(hierarchy));
        && (pp.Failure? ==> err == Some(pp.error))
        && (pp.Success? ==> hierarchy == pp.value.0)
        && (pp.Success? && !pp.value.1 ==> err.None? && deserializedObjects == old(deserializedObjects))
        && (pp.Success? && pp.value.1 ==>
              var ip := InternalPass(deserializedComponents, old(deserializedObjects));
              && (ip.Failure? ==> err == Some(ip.error))
              && (ip.Success? ==> err.None? && deserializedObjects == ip.value))
    {
      var gos := deserializedGameObjects;
      for i := 0 to |gos|
        invariant ParentPass(gos, host, old(hierarchy)) == ParentPass(gos[i..], host, hierarchy)
        invariant deserializedObjects == old(deserializedObjects)
      {
        assert gos[i..][1..] == gos[i + 1..];
        var e := gos[i];
        if e.handle !in hierarchy.parentOf && e.record.hasParent {
          var id := e.record.parentID;
          if id !in host {
            return None;
          }
          if host[id].kind != TransformKind {
            return Some(InvalidCast(id));
          }
          hierarchy := hierarchy.(parentOf := hierarchy.parentOf[e.handle := ExistingParent(id)]);
        }
        hierarchy := hierarchy.(siblingIndexOf := hierarchy.siblingIndexOf[e.handle := e.record.siblingIndex]);
      }

      assert gos[|gos|..] == [];
      var comps := deserializedComponents;
      for i := 0 to |comps|
        invariant |deserializedObjects| == |old(deserializedObjects)|
        invariant EntriesFit(comps[i..], deserializedObjects)
        invariant InternalPass(comps, old(deserializedObjects)) == InternalPass(comps[i..], deserializedObjects)
        invariant hierarchy == ParentPass(gos, host, old(hierarchy)).value.0
      {
        var e := comps[i];
        assert comps[i..][0] == e;
        var ids := e.component.savedInstanceIDs;
        var o := deserializedObjects[e.handle];
        var slots := o.slots;
        for j := 0 to |ids|
          invariant |slots| == |ids|
          invariant forall k :: 0 <= k < j ==> !(IsInternal(ids[k]) && !(0 <= ids[k].id < |deserializedObjects|))
          invariant forall k :: 0 <= k < |ids| ==>
            slots[k] == (if k < j && IsInternal(ids[k]) then ToCreated(ids[k].id) else o.slots[k])
        {
          if !ids[j].isNull && ids[j].isInternal {
            if !(0 <= ids[j].id < |deserializedObjects|) {
              InternalStepFails(comps[i..], deserializedObjects, j);
              return Some(IndexOutOfRange);
            }
            slots := slots[j := ToCreated(ids[j].id)];
          }
        }
        InternalStep(comps[i..], deserializedObjects, slots);
        assert comps[i..][1..] == comps[i + 1..];
        deserializedObjects := deserializedObjects[e.handle := LiveComponent(o.assemblyName, o.typeName, o.added, o.data, slots)];
      }
      err := None;
    }
  }

  // ---------------------------------------------------------------------------
  // Steps of the serializer's loops

  /** One root written: its position and id recorded, then its subtree. */
  lemma {:induction false} RootWritten(w: World, g: Loc, all: seq<Target>, before: SerializedSelection,
                                       after: SerializedSelection)
    requires ValidLoc(w, g)
    requires after.indexOfRootGOs == before.indexOfRootGOs + [|before.serializedGameObjects|]
    requires after.idOfRootGOs == before.idOfRootGOs + [Node(w, g).id]
    requires after.serializedGameObjects ==
      before.serializedGameObjects + Flatten(RootTree(w, g, all, |before.serializedGameObjects|))
    requires after.foundStatic == (before.foundStatic || AnyStatic(PreOrder(Node(w, g))))
    ensures after == SerializeRoot(w, g, all, before)
  {
  }

  /** Writing the roots from `i` on is writing root `i`, then the rest. */
  lemma {:induction false} SerializeRootsStep(w: World, gos: seq<Loc>, i: int, all: seq<Target>, sel: SerializedSelection)
    requires forall g :: g in gos ==> ValidLoc(w, g)
    requires 0 <= i < |gos|
    ensures SerializeRoots(w, gos[i..], all, sel) == SerializeRoots(w, gos[i + 1..], all, SerializeRoot(w, gos[i], all, sel))
  {
    assert gos[i..][0] == gos[i] && gos[i..][1..] == gos[i + 1..];
  }

  /** One iteration of the loop over the components: the component's record, if any, comes next. */
  lemma {:induction false} ComponentsLoopStep(cs: seq<Option<Component>>, all: seq<Target>, comps: seq<SerializedComponent>, j: nat)
    requires j < |cs| && SerializeComponents(cs, all) == comps + SerializeComponents(cs[j..], all)
    ensures SerializeComponents(cs, all)
      == (if cs[j].Some? then comps + [Serialization.SerializeComponent(cs[j].value, all)] else comps)
       + SerializeComponents(cs[j + 1..], all)
  {
    assert cs[j..][0] == cs[j] && cs[j..][1..] == cs[j + 1..];
    var rest := SerializeComponents(cs[j + 1..], all);
    if cs[j].Some? {
      ConcatAssoc(comps, [Serialization.SerializeComponent(cs[j].value, all)], rest);
    } else {
      assert [] + rest == rest;
    }
  }

  /** One iteration of the loop over the children: the records of child i follow those of its elder siblings. */
  lemma {:induction false} ChildWritten(w: World, l: Loc, i: nat, all: seq<Target>, pos: int,
                     head: seq<SerializedGameObject>, before: seq<SerializedGameObject>, after: seq<SerializedGameObject>)
    requires ValidLoc(w, l) && i < |Node(w, l).children| && |head| == pos + 1
    requires var g := Node(w, l);
      before == head + FlattenSeq(EncodeChildren(g.children[..i], g.transform.id, 0, ScenePath(w, l), all, pos + 1))
    requires ValidLoc(w, Child(l, i)) && after == before + Flatten(RootTree(w, Child(l, i), all, |before|))
    ensures var g := Node(w, l);
      after == head + FlattenSeq(EncodeChildren(g.children[..i + 1], g.transform.id, 0, ScenePath(w, l), all, pos + 1))
  {
    var g := Node(w, l);
    var sp := ScenePath(w, l);
    var written := FlattenSeq(EncodeChildren(g.children[..i], g.transform.id, 0, sp, all, pos + 1));
    EncodeChildrenPrefix(g.children, i, g.transform.id, sp, all, pos + 1);
    var q := pos + 1 + |PreOrderSeq(g.children[..i])|;
    ChildRootTree(w, l, i, all, q);
    ConcatAssoc(head, written, Flatten(EncodeTree(g.children[i], Some(g.transform.id), i, sp, all, q)));
  }

  lemma {:induction false} ChildStatic(w: World, l: Loc, i: nat, s0: bool, before: bool, after: bool)
    requires ValidLoc(w, l) && i < |Node(w, l).children|
    requires before == (s0 || AnyStatic(PreOrderSeq(Node(w, l).children[..i])))
    requires ValidLoc(w, Child(l, i)) && after == (before || AnyStatic(PreOrder(Node(w, Child(l, i)))))
    ensures after == (s0 || AnyStatic(PreOrderSeq(Node(w, l).children[..i + 1])))
  {
    var g := Node(w, l);
    EncodeChildrenPrefix(g.children, i, g.transform.id, "", [], 0);
    ChildNode(w, l, i);
  }

  /** The tree written for child i: placed under its parent's transform at sibling index i. */
  lemma {:induction false} ChildRootTree(w: World, l: Loc, i: nat, all: seq<Target>, pos: int)
    requires ValidLoc(w, l) && i < |Node(w, l).children|
    ensures ValidLoc(w, Child(l, i)) && Node(w, Child(l, i)) == Node(w, l).children[i]
    ensures RootTree(w, Child(l, i), all, pos)
      == EncodeTree(Node(w, l).children[i], Some(Node(w, l).transform.id), i, ScenePath(w, l), all, pos)
  {
    ChildNode(w, l, i);
    var c := Child(l, i);
    assert Parent(c) == Some(l) by { assert c.path[..|c.path| - 1] == l.path; }
  }

  lemma {:induction false} RootTreeUnfold(w: World, l: Loc, all: seq<Target>, pos: int)
    requires ValidLoc(w, l)
    ensures var g := Node(w, l);
      Flatten(RootTree(w, l, all, pos))
      == [RecordOf(g, ParentTransformId(w, l), SiblingIndex(l), ScenePath(w, l), all, pos)]
       + FlattenSeq(EncodeChildren(g.children, g.transform.id, 0, ScenePath(w, l), all, pos + 1))
  {
  }

  lemma {:induction false} TreesPrefix(w: World, roots: seq<Loc>, i: nat)
    requires i < |roots| && forall r :: r in roots ==> ValidLoc(w, r)
    ensures Trees(w, roots[..i + 1]) == Trees(w, roots[..i]) + PreOrder(Node(w, roots[i]))
  {
    assert roots[i] in roots;
    assert roots[..i + 1] == roots[..i] + [roots[i]];
    TreesAppend(w, roots[..i], [roots[i]]);
    assert Trees(w, [roots[i]]) == PreOrder(Node(w, roots[i])) by { assert [roots[i]][1..] == []; }
  }

  /** One round of GetAllObjects' outer loop: the game object itself, then each
      of its components, a missing one as null. */
  method NodeTargets(x: GameObject) returns (objects: seq<Target>)
    ensures objects == Identities(NodeObjects(x))
  {
    ghost var os := NodeObjects(x);
    objects := [Obj(x.id)];
    IdentitiesPrefix(os, 0);
    var components := Components(x);
    for j := 0 to |components|
      invariant objects == Identities(os[..1 + j])
    {
      var y := if components[j].Some? then Obj(components[j].value.id) else Null;
      IdentitiesPrefix(os, 1 + j);
      objects := objects + [y];
    }
    assert os[..1 + |components|] == os;
  }

  lemma {:induction false} IdentitiesPrefix(os: seq<HierarchyObject>, k: nat)
    requires k < |os|
    ensures Identities(os[..k + 1]) == Identities(os[..k]) + [Identity(os[k])]
  {
  }

  lemma {:induction false} AllObjectsPrefix(nodes: seq<GameObject>, i: nat)
    requires i < |nodes|
    ensures AllObjects(nodes[..i + 1]) == AllObjects(nodes[..i]) + Identities(NodeObjects(nodes[i]))
  {
    AllObjectsAppend(nodes[..i], [nodes[i]]);
    assert nodes[..i + 1] == nodes[..i] + [nodes[i]];
    assert HierarchyObjects([nodes[i]]) == NodeObjects(nodes[i]) by { assert [nodes[i]][1..] == []; }
  }

  /** Child i's subtree is written right after the subtrees of the children before it. */
  lemma {:induction false} EncodeChildrenPrefix(cs: seq<GameObject>, i: nat, parent: InstanceId, sp: string, all: seq<Target>, pos: int)
    requires i < |cs|
    ensures var q := pos + |PreOrderSeq(cs[..i])|;
      && |FlattenSeq(EncodeChildren(cs[..i], parent, 0, sp, all, pos))| == |PreOrderSeq(cs[..i])|
      && FlattenSeq(EncodeChildren(cs[..i + 1], parent, 0, sp, all, pos))
         == FlattenSeq(EncodeChildren(cs[..i], parent, 0, sp, all, pos)) + Flatten(EncodeTree(cs[i], Some(parent), i, sp, all, q))
      && PreOrderSeq(cs[..i + 1]) == PreOrderSeq(cs[..i]) + PreOrder(cs[i])
      && (AnyStatic(PreOrderSeq(cs[..i + 1])) <==> AnyStatic(PreOrderSeq(cs[..i])) || AnyStatic(PreOrder(cs[i])))
  {
    var prefix := cs[..i];
    var q := pos + |PreOrderSeq(prefix)|;
    var t := EncodeTree(cs[i], Some(parent), i, sp, all, q);
    EncodeChildrenSize(prefix, parent, 0, sp, all, pos);
    assert cs[..i + 1] == prefix + [cs[i]];
    EncodeChildrenAppend(prefix, [cs[i]], parent, 0, sp, all, pos);
    assert EncodeChildren([cs[i]], parent, i, sp, all, q) == [t] by { assert [cs[i]][1..] == []; }
    FlattenSeqAppend(EncodeChildren(prefix, parent, 0, sp, all, pos), [t]);
    assert FlattenSeq([t]) == Flatten(t) by { assert [t][1..] == []; }
    PreOrderSeqAppend(prefix, [cs[i]]);
    assert PreOrderSeq([cs[i]]) == PreOrder(cs[i]) by { assert [cs[i]][1..] == []; }
    AnyStaticAppend(PreOrderSeq(prefix), PreOrder(cs[i]));
  }

  // ---------------------------------------------------------------------------
  // Steps of the deserializer's loops

  /** The restored-object lists grew by the objects created for `sos`, in order. */
  predicate Grown(objs: seq<LiveObject>, gos: seq<DeserializedGameObject>, comps: seq<DeserializedComponent>,
                  objs0: seq<LiveObject>, gos0: seq<DeserializedGameObject>, comps0: seq<DeserializedComponent>,
                  sos: seq<SerialObject>, host: Host)
  {
    && objs == objs0 + CreateAll(sos, host)
    && gos == gos0 + GameObjectEntries(sos, |objs0|)
    && comps == comps0 + ComponentEntries(sos, |objs0|)
  }

  /** Growing twice is growing once by both object lists. */
  lemma {:induction false} GrownTwice(objs0: seq<LiveObject>, gos0: seq<DeserializedGameObject>, comps0: seq<DeserializedComponent>,
                   objs1: seq<LiveObject>, gos1: seq<DeserializedGameObject>, comps1: seq<DeserializedComponent>,
                   objs2: seq<LiveObject>, gos2: seq<DeserializedGameObject>, comps2: seq<DeserializedComponent>,
                   a: seq<SerialObject>, b: seq<SerialObject>, host: Host)
    requires Grown(objs1, gos1, comps1, objs0, gos0, comps0, a, host)
    requires Grown(objs2, gos2, comps2, objs1, gos1, comps1, b, host)
    ensures Grown(objs2, gos2, comps2, objs0, gos0, comps0, a + b, host)
    ensures |objs1| == |objs0| + |a|
  {
    CreateAllAppend(a, b, host);
    GameObjectEntriesAppend(a, b, |objs0|);
    ComponentEntriesAppend(a, b, |objs0|);
    ConcatAssoc(objs0, CreateAll(a, host), CreateAll(b, host));
    ConcatAssoc(gos0, GameObjectEntries(a, |objs0|), GameObjectEntries(b, |objs1|));
    ConcatAssoc(comps0, ComponentEntries(a, |objs0|), ComponentEntries(b, |objs1|));
  }

  /** A record whose types load and whose children read as `kids` reads as the
      node with those children, and the SetParent calls made for the children
      are those of the node. */
  lemma {:induction false} NodeRead(recs: seq<SerializedGameObject>, reg: Registry, index: int, rec: SerializedGameObject,
                                    kids: seq<RecordTree>, cursor: int, h: int, first: int,
                                    links0: map<int, ParentLink>, hier: Hierarchy, sib: map<int, int>)
    requires 0 <= index < |recs| && rec == recs[index]
    requires FirstTypeError(rec.serializedComponents, reg).None?
    requires ReadChildren(recs, reg, index, rec.childCount) == Success((kids, cursor))
    requires first == h + 1 + |rec.serializedComponents|
    requires hier == Hierarchy(links0 + ChildrenLinks(kids, h, first), sib)
    ensures ReadNode(recs, reg, index) == Success((RecordTree(rec, kids), cursor))
    ensures hier == Hierarchy(links0 + TreeLinks(RecordTree(rec, kids), h), sib)
  {
  }

  function PrependTrees(ts: seq<RecordTree>, r: Result<seq<RecordTree>, Error>): Result<seq<RecordTree>, Error>
  {
    match r
    case Failure(e) => Failure(e)
    case Success(rest) => Success(ts + rest)
  }

  lemma {:induction false} PrependNothing(r: Result<seq<RecordTree>, Error>, c: Result<(seq<RecordTree>, int), Error>)
    ensures PrependTrees([], r) == r && PrependChildren([], c) == c
  {
    if r.Success? {
      assert [] + r.value == r.value;
    }
    if c.Success? {
      assert [] + c.value.0 == c.value.0;
    }
  }

  function PrependChildren(ts: seq<RecordTree>, r: Result<(seq<RecordTree>, int), Error>): Result<(seq<RecordTree>, int), Error>
  {
    match r
    case Failure(e) => Failure(e)
    case Success((rest, last)) => Success((ts + rest, last))
  }

  /** One iteration of the loop picking out the restored roots. */
  lemma {:induction false} RootHandlesStep(gos: seq<DeserializedGameObject>, ks: seq<int>, roots: seq<int>, i: nat)
    requires i < |gos| && RootHandles(gos, ks) == roots + RootHandles(gos[i..], ks)
    ensures RootHandles(gos, ks)
      == (if gos[i].record.indexOfFirstChild - 1 in ks then roots + [gos[i].handle] else roots)
       + RootHandles(gos[i + 1..], ks)
  {
    assert gos[i..][0] == gos[i] && gos[i..][1..] == gos[i + 1..];
    var rest := RootHandles(gos[i + 1..], ks);
    if gos[i].record.indexOfFirstChild - 1 in ks {
      ConcatAssoc(roots, [gos[i].handle], rest);
    } else {
      assert [] + rest == rest;
    }
  }

  /** A failure while reading the roots is the failure of Deserialize. */
  lemma {:induction false} SelectionReadFails(sel: SerializedSelection, destroyOriginals: bool, host0: Host,
                                              loaded: set<string>, reg: Registry)
    requires ReadRoots(sel.serializedGameObjects, reg, loaded, sel.indexOfRootGOs).Failure?
    ensures DeserializeSelection(sel, destroyOriginals, host0, loaded, reg)
      == Failure(ReadRoots(sel.serializedGameObjects, reg, loaded, sel.indexOfRootGOs).error)
  {
  }

  /** Once the roots are read, Deserialize's outcome is that of the two reference passes. */
  lemma {:induction false} RestorationShape(sel: SerializedSelection, destroyOriginals: bool, host0: Host,
                                          loaded: set<string>, reg: Registry, host: Host, trees: seq<RecordTree>,
                                          objs: seq<LiveObject>, gos: seq<DeserializedGameObject>,
                                          comps: seq<DeserializedComponent>, h: Hierarchy)
    requires ReadRoots(sel.serializedGameObjects, reg, loaded, sel.indexOfRootGOs) == Success(trees)
    requires host == if destroyOriginals then DestroyAll(host0, sel.idOfRootGOs) else host0
    requires Grown(objs, gos, comps, [], [], [], SerialObjects(FlattenSeq(trees)), host)
    requires h == Hierarchy(ForestLinks(trees, 0), map[])
    ensures EntriesFit(comps, objs)
    ensures var spec := DeserializeSelection(sel, destroyOriginals, host0, loaded, reg);
      var pp := ParentPass(gos, host, h);
      && (pp.Failure? ==> spec == Failure(pp.error))
      && (pp.Success? && !pp.value.1 ==>
            spec == Success(Restoration(host, objs, pp.value.0, RootHandles(gos, sel.indexOfRootGOs))))
      && (pp.Success? && pp.value.1 ==>
            var ip := InternalPass(comps, objs);
            && (ip.Failure? ==> spec == Failure(ip.error))
            && (ip.Success? ==> spec == Success(Restoration(host, ip.value, pp.value.0, RootHandles(gos, sel.indexOfRootGOs)))))
  {
    var sos := SerialObjects(FlattenSeq(trees));
    assert objs == CreateAll(sos, host) && gos == GameObjectEntries(sos, 0) && comps == ComponentEntries(sos, 0);
    EntriesFitCreated(sos, host);
  }

  /** One root of Deserialize's loop read successfully. */
  lemma {:induction false} RootStep(recs: seq<SerializedGameObject>, reg: Registry, loaded: set<string>, ks: seq<int>, i: nat,
                 trees: seq<RecordTree>, t: RecordTree, host: Host,
                 objs0: seq<LiveObject>, gos0: seq<DeserializedGameObject>, comps0: seq<DeserializedComponent>,
                 objs1: seq<LiveObject>, gos1: seq<DeserializedGameObject>, comps1: seq<DeserializedComponent>)
    requires i < |ks| && 0 <= ks[i] < |recs| && recs[ks[i]].scenePath in loaded
    requires ReadNode(recs, reg, ks[i]).Success? && ReadNode(recs, reg, ks[i]).value.0 == t
    requires ReadRoots(recs, reg, loaded, ks) == PrependTrees(trees, ReadRoots(recs, reg, loaded, ks[i..]))
    requires Grown(objs0, gos0, comps0, [], [], [], SerialObjects(FlattenSeq(trees)), host)
    requires Grown(objs1, gos1, comps1, objs0, gos0, comps0, SerialObjects(Flatten(t)), host)
    ensures ReadRoots(recs, reg, loaded, ks) == PrependTrees(trees + [t], ReadRoots(recs, reg, loaded, ks[i + 1..]))
    ensures Grown(objs1, gos1, comps1, [], [], [], SerialObjects(FlattenSeq(trees + [t])), host)
    ensures |objs0| == SizeSeq(trees)
  {
    assert ks[i..][1..] == ks[i + 1..];
    var rest := ReadRoots(recs, reg, loaded, ks[i + 1..]);
    if rest.Success? {
      ConcatAssoc(trees, [t], rest.value);
    }
    GrownTwice([], [], [], objs0, gos0, comps0, objs1, gos1, comps1,
               SerialObjects(FlattenSeq(trees)), SerialObjects(Flatten(t)), host);
    FlattenSeqAppend(trees, [t]);
    assert FlattenSeq([t]) == Flatten(t) by { assert [t][1..] == []; }
    SerialObjectsAppend(FlattenSeq(trees), Flatten(t));
  }

  lemma {:induction false} MapUnionAssoc<K, V>(a: map<K, V>, b: map<K, V>, c: map<K, V>)
    ensures a + b + c == a + (b + c)
  {
  }

  /** The SetParent calls of the roots read so far, then those of one more root. */
  lemma {:induction false} ForestLinksSnoc(ts: seq<RecordTree>, t: RecordTree, h: int)
    ensures ForestLinks(ts + [t], h) == ForestLinks(ts, h) + TreeLinks(t, h + SizeSeq(ts))
  {
    if ts == [] {
      assert [] + [t] == [t] && [t][1..] == [];
    } else {
      assert (ts + [t])[0] == ts[0] && (ts + [t])[1..] == ts[1..] + [t];
      ForestLinksSnoc(ts[1..], t, h + Size(ts[0]));
      SizeSeqCons(ts);
      MapUnionAssoc(TreeLinks(ts[0], h), ForestLinks(ts[1..], h + Size(ts[0])), TreeLinks(t, h + SizeSeq(ts)));
    }
  }

  /** The SetParent calls for the children read so far, then one more child. */
  lemma {:induction false} ChildrenLinksSnoc(ts: seq<RecordTree>, t: RecordTree, parent: int, h: int)
    ensures ChildrenLinks(ts + [t], parent, h)
      == ChildrenLinks(ts, parent, h) + TreeLinks(t, h + SizeSeq(ts))[h + SizeSeq(ts) := CreatedParent(parent)]
  {
    if ts == [] {
      assert [] + [t] == [t] && [t][1..] == [];
    } else {
      assert (ts + [t])[0] == ts[0] && (ts + [t])[1..] == ts[1..] + [t];
      ChildrenLinksSnoc(ts[1..], t, parent, h + Size(ts[0]));
      SizeSeqCons(ts);
      var k := h + SizeSeq(ts);
      MapUnionAssoc(TreeLinks(ts[0], h)[h := CreatedParent(parent)], ChildrenLinks(ts[1..], parent, h + Size(ts[0])),
                    TreeLinks(t, k)[k := CreatedParent(parent)]);
    }
  }

  /** Before the first child: only the game object and its components exist. */
  lemma {:induction false} KidsStart(rec: SerializedGameObject)
    ensures SerialObjects([rec] + FlattenSeq([])) == RecordObjects(rec)
  {
    assert [rec] + FlattenSeq([]) == [rec];
    assert [rec][1..] == [];
  }

  /** One child of ReadNodeFromSerializedNodes's loop read successfully. */
  lemma {:induction false} KidsStep(rec: SerializedGameObject, kids: seq<RecordTree>, t: RecordTree, go: int, first: int, host: Host,
                 objs0: seq<LiveObject>, gos0: seq<DeserializedGameObject>, comps0: seq<DeserializedComponent>,
                 objs1: seq<LiveObject>, gos1: seq<DeserializedGameObject>, comps1: seq<DeserializedComponent>,
                 objs2: seq<LiveObject>, gos2: seq<DeserializedGameObject>, comps2: seq<DeserializedComponent>)
    requires go == |objs0| && first == go + 1 + |rec.serializedComponents|
    requires Grown(objs1, gos1, comps1, objs0, gos0, comps0, SerialObjects([rec] + FlattenSeq(kids)), host)
    requires Grown(objs2, gos2, comps2, objs1, gos1, comps1, SerialObjects(Flatten(t)), host)
    ensures Grown(objs2, gos2, comps2, objs0, gos0, comps0, SerialObjects([rec] + FlattenSeq(kids + [t])), host)
    ensures ChildrenLinks(kids + [t], go, first)
      == ChildrenLinks(kids, go, first) + TreeLinks(t, |objs1|)[|objs1| := CreatedParent(go)]
  {
    var a := SerialObjects([rec] + FlattenSeq(kids));
    GrownTwice(objs0, gos0, comps0, objs1, gos1, comps1, objs2, gos2, comps2, a, SerialObjects(Flatten(t)), host);
    SerialObjectsAppend([rec], FlattenSeq(kids));
    assert SerialObjects([rec]) == RecordObjects(rec) by { assert [rec][1..] == []; }
    assert |objs1| == first + SizeSeq(kids);
    FlattenSeqAppend(kids, [t]);
    assert FlattenSeq([t]) == Flatten(t) by { assert [t][1..] == []; }
    ConcatAssoc([rec], FlattenSeq(kids), Flatten(t));
    SerialObjectsAppend([rec] + FlattenSeq(kids), Flatten(t));
    ChildrenLinksSnoc(kids, t, go, first);
  }

  /** The parent set on a child after its own subtree's links. */
  lemma {:induction false} LinksStep<K, V>(a: map<K, V>, b: map<K, V>, c: map<K, V>, k: K, v: V)
    ensures (a + b + c)[k := v] == a + (b + c[k := v])
  {
  }

  lemma {:induction false} PrependChildrenSnoc(recs: seq<SerializedGameObject>, reg: Registry, cursor: int, remaining: int,
                            kids: seq<RecordTree>)
    requires 0 <= cursor < |recs| && remaining != 0 && ReadNode(recs, reg, cursor + 1).Success?
    ensures var (t, last) := ReadNode(recs, reg, cursor + 1).value;
      PrependChildren(kids, ReadChildren(recs, reg, cursor, remaining))
        == PrependChildren(kids + [t], ReadChildren(recs, reg, last, remaining - 1))
  {
    var (t, last) := ReadNode(recs, reg, cursor + 1).value;
    var rest := ReadChildren(recs, reg, last, remaining - 1);
    if rest.Success? {
      ConcatAssoc(kids, [t], rest.value.0);
    }
  }

  /** The saved components of a record, as objects to create. */
  function ComponentObjects(cs: seq<SerializedComponent>): (sos: seq<SerialObject>)
    ensures |sos| == |cs| && forall j :: 0 <= j < |cs| ==> sos[j] == SerialComponent(cs[j])
  {
    seq(|cs|, j requires 0 <= j < |cs| => SerialComponent(cs[j]))
  }

  lemma {:induction false} NoGameObjectEntries(cs: seq<SerializedComponent>, base: int)
    ensures GameObjectEntries(ComponentObjects(cs), base) == []
  {
    if cs != [] {
      assert ComponentObjects(cs)[1..] == ComponentObjects(cs[1..]);
      NoGameObjectEntries(cs[1..], base + 1);
    }
  }

  /** One component of RestoreComponents's loop restored. */
  lemma {:induction false} ComponentsStep(cs: seq<SerializedComponent>, j: nat, host: Host,
                       objs0: seq<LiveObject>, comps0: seq<DeserializedComponent>,
                       objs1: seq<LiveObject>, comps1: seq<DeserializedComponent>,
                       objs2: seq<LiveObject>, comps2: seq<DeserializedComponent>)
    requires j < |cs|
    requires objs1 == objs0 + CreateAll(ComponentObjects(cs[..j]), host)
    requires comps1 == comps0 + ComponentEntries(ComponentObjects(cs[..j]), |objs0|)
    requires objs2 == objs1 + [InitialObject(SerialComponent(cs[j]), host)]
    requires comps2 == comps1 + [DeserializedComponent(cs[j], |objs1|)]
    ensures objs2 == objs0 + CreateAll(ComponentObjects(cs[..j + 1]), host)
    ensures comps2 == comps0 + ComponentEntries(ComponentObjects(cs[..j + 1]), |objs0|)
  {
    var a := ComponentObjects(cs[..j]);
    var b := [SerialComponent(cs[j])];
    assert ComponentObjects(cs[..j + 1]) == a + b;
    CreateAllAppend(a, b, host);
    ComponentEntriesAppend(a, b, |objs0|);
    assert ComponentEntries(b, |objs0| + |a|) == [DeserializedComponent(cs[j], |objs1|)] by { assert b[1..] == []; }
    ConcatAssoc(objs0, CreateAll(a, host), CreateAll(b, host));
    ConcatAssoc(comps0, ComponentEntries(a, |objs0|), ComponentEntries(b, |objs0| + |a|));
  }

  /** RestoreGameObject's effect: the game object, then its components. */
  lemma {:induction false} GameObjectCreated(rec: SerializedGameObject, host: Host,
                          objs0: seq<LiveObject>, gos0: seq<DeserializedGameObject>, comps0: seq<DeserializedComponent>,
                          objs: seq<LiveObject>, gos: seq<DeserializedGameObject>, comps: seq<DeserializedComponent>)
    requires objs == objs0 + [LiveGameObject(rec.serializedData, rec.scenePath, FirstPassSlots(rec.savedInstanceIDs, host))]
                    + CreateAll(ComponentObjects(rec.serializedComponents), host)
    requires gos == gos0 + [DeserializedGameObject(rec, |objs0|)]
    requires comps == comps0 + ComponentEntries(ComponentObjects(rec.serializedComponents), |objs0| + 1)
    ensures Grown(objs, gos, comps, objs0, gos0, comps0, RecordObjects(rec), host)
  {
    ObjectsCreated(rec, host, objs0, objs);
    GameObjectEntryCreated(rec, |objs0|, gos0, gos);
    ComponentEntriesCreated(rec, |objs0|, comps0, comps);
  }

  lemma {:induction false} ObjectsCreated(rec: SerializedGameObject, host: Host, objs0: seq<LiveObject>, objs: seq<LiveObject>)
    requires objs == objs0 + [LiveGameObject(rec.serializedData, rec.scenePath, FirstPassSlots(rec.savedInstanceIDs, host))]
                    + CreateAll(ComponentObjects(rec.serializedComponents), host)
    ensures objs == objs0 + CreateAll(RecordObjects(rec), host)
  {
    var cos := ComponentObjects(rec.serializedComponents);
    var g := [SerialGameObject(rec)];
    assert RecordObjects(rec) == g + cos;
    CreateAllAppend(g, cos, host);
    assert g[1..] == [];
    ConcatAssoc(objs0, CreateAll(g, host), CreateAll(cos, host));
  }

  lemma {:induction false} GameObjectEntryCreated(rec: SerializedGameObject, base: int,
                                                  gos0: seq<DeserializedGameObject>, gos: seq<DeserializedGameObject>)
    requires gos == gos0 + [DeserializedGameObject(rec, base)]
    ensures gos == gos0 + GameObjectEntries(RecordObjects(rec), base)
  {
    var cos := ComponentObjects(rec.serializedComponents);
    var g := [SerialGameObject(rec)];
    assert RecordObjects(rec) == g + cos;
    GameObjectEntriesAppend(g, cos, base);
    NoGameObjectEntries(rec.serializedComponents, base + 1);
    assert g[1..] == [];
  }

  lemma {:induction false} ComponentEntriesCreated(rec: SerializedGameObject, base: int,
                                                   comps0: seq<DeserializedComponent>, comps: seq<DeserializedComponent>)
    requires comps == comps0 + ComponentEntries(ComponentObjects(rec.serializedComponents), base + 1)
    ensures comps == comps0 + ComponentEntries(RecordObjects(rec), base)
  {
    var cos := ComponentObjects(rec.serializedComponents);
    var g := [SerialGameObject(rec)];
    assert RecordObjects(rec) == g + cos;
    ComponentEntriesAppend(g, cos, base);
    assert g[1..] == [];
  }

  /** A component of the second loop whose internal reference is out of range makes the pass fail. */
  lemma {:induction false} InternalStepFails(comps: seq<DeserializedComponent>, objs: seq<LiveObject>, j: nat)
    requires EntriesFit(comps, objs) && comps != []
    requires var ids := comps[0].component.savedInstanceIDs;
      j < |ids| && IsInternal(ids[j]) && !(0 <= ids[j].id < |objs|)
    ensures InternalPass(comps, objs) == Failure(IndexOutOfRange)
  {
  }

  /** A component of the second loop restored: the rest of the pass goes on from the new objects. */
  lemma {:induction false} InternalStep(comps: seq<DeserializedComponent>, objs: seq<LiveObject>, slots: seq<SlotValue>)
    requires EntriesFit(comps, objs) && comps != []
    requires var ids := comps[0].component.savedInstanceIDs;
      && |slots| == |ids|
      && (forall k :: 0 <= k < |ids| ==> !(IsInternal(ids[k]) && !(0 <= ids[k].id < |objs|)))
      && forall k :: 0 <= k < |ids| ==>
           slots[k] == (if IsInternal(ids[k]) then ToCreated(ids[k].id) else objs[comps[0].handle].slots[k])
    ensures var o := objs[comps[0].handle];
      var objs' := objs[comps[0].handle := LiveComponent(o.assemblyName, o.typeName, o.added, o.data, slots)];
      && EntriesFit(comps[1..], objs')
      && InternalPass(comps, objs) == InternalPass(comps[1..], objs')
  {
    var e := comps[0];
    var o := objs[e.handle];
    var ids := e.component.savedInstanceIDs;
    var r := InternalSlots(ids, o.slots, |objs|);
    assert r.Success?;
    assert r.value == slots;
  }
}
