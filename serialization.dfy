/**
  What the serializer computes, as functions of the scene: the reduction of
  the selected objects to roots, the pre-order list of all game objects to
  copy, the index space of all objects (each game object followed by its
  components), the classification of every object-reference property, and
  the records written for each root's subtree.
*/
module Serialization {
  import opened Wrappers
  import opened SceneGraph
  import opened SerializedData

  // ---------------------------------------------------------------------------
  // GetRootGameObjects

  /** The condition the root filter keeps `g` by: some input other than `g` is
      not an ancestor-or-self of `g`. */
  predicate HasUnrelatedOther(inputs: seq<Loc>, g: Loc)
  {
    exists k :: 0 <= k < |inputs| && inputs[k] != g && !IsChildOf(g, inputs[k])
  }

  /** The filter's documented intent: some input other than `g` lies at or above `g`. */
  predicate HasSelectedAncestor(inputs: seq<Loc>, g: Loc)
  {
    exists k :: 0 <= k < |inputs| && inputs[k] != g && IsChildOf(g, inputs[k])
  }

  /** The selected objects reduced to roots, as the filter is written: a single
      input is kept; otherwise an input is kept when some other input is not
      an ancestor-or-self of it. */
  function GetRootGameObjects(inputs: seq<Loc>): (roots: seq<Loc>)
    ensures |inputs| == 1 ==> roots == inputs
    ensures |inputs| != 1 ==> forall g :: g in roots <==> g in inputs && HasUnrelatedOther(inputs, g)
    ensures forall g :: g in roots ==> g in inputs
    ensures |roots| <= |inputs|
  {
    if |inputs| == 1 then [inputs[0]] else KeepRoots(inputs, inputs)
  }

  /** The Where clause over `rest`, in order. */
  function KeepRoots(inputs: seq<Loc>, rest: seq<Loc>): (kept: seq<Loc>)
    ensures forall g :: g in kept <==> g in rest && HasUnrelatedOther(inputs, g)
    ensures |kept| <= |rest|
  {
    if rest == [] then []
    else (if HasUnrelatedOther(inputs, rest[0]) then [rest[0]] else []) + KeepRoots(inputs, rest[1..])
  }

  /** The filter keeps the inputs it keeps in their order: filtering `a + b`
      filters `a`, then `b`. */
  lemma {:induction false} KeepRootsAppend(inputs: seq<Loc>, a: seq<Loc>, b: seq<Loc>)
    ensures KeepRoots(inputs, a + b) == KeepRoots(inputs, a) + KeepRoots(inputs, b)
  {
    if a != [] {
      var head := if HasUnrelatedOther(inputs, a[0]) then [a[0]] else [];
      assert (a + b)[0] == a[0] && (a + b)[1..] == a[1..] + b;
      assert KeepRoots(inputs, a + b) == head + KeepRoots(inputs, a[1..] + b);
      assert KeepRoots(inputs, a) == head + KeepRoots(inputs, a[1..]);
      KeepRootsAppend(inputs, a[1..], b);
      ConcatAssoc(head, KeepRoots(inputs, a[1..]), KeepRoots(inputs, b));
    } else {
      assert a + b == b;
    }
  }

  /** With two distinct inputs the filter does what its comment says: an input is
      kept exactly when the other input is not at or above it. */
  lemma {:induction false} TwoInputsKeepTopmost(inputs: seq<Loc>)
    requires |inputs| == 2 && inputs[0] != inputs[1]
    ensures forall g :: g in inputs ==>
      (g in GetRootGameObjects(inputs) <==> !HasSelectedAncestor(inputs, g))
  {
    forall g | g in inputs
      ensures g in GetRootGameObjects(inputs) <==> !HasSelectedAncestor(inputs, g)
    {
      var other := if g == inputs[0] then 1 else 0;
      assert inputs[other] != g;
      if HasSelectedAncestor(inputs, g) {
        var k :| 0 <= k < |inputs| && inputs[k] != g && IsChildOf(g, inputs[k]);
        assert k == other;
      } else {
        assert !IsChildOf(g, inputs[other]);
      }
    }
  }

  /** With at least one other distinct input, an input that has no selected
      ancestor is always kept. */
  lemma {:induction false} TopmostInputIsKept(inputs: seq<Loc>, g: Loc, k: nat)
    requires g in inputs && k < |inputs| && inputs[k] != g
    requires !HasSelectedAncestor(inputs, g)
    ensures g in GetRootGameObjects(inputs)
  {
    assert !IsChildOf(g, inputs[k]);
  }

  /** The filter does not do what its comment says once three objects are
      selected: for a parent, its child and an unrelated object, all three are
      kept, although the child has a selected ancestor. */
  lemma {:induction false} NestedChildIsKeptAmongThree()
    ensures var inputs := [Loc(0, [0]), Loc(0, [0, 0]), Loc(0, [1])];
      && GetRootGameObjects(inputs) == inputs
      && HasSelectedAncestor(inputs, inputs[1])
  {
    var inputs := [Loc(0, [0]), Loc(0, [0, 0]), Loc(0, [1])];
    assert inputs[1].path[..1] == [0];
    assert IsChildOf(inputs[1], inputs[0]);
    assert !IsChildOf(inputs[0], inputs[1]);
    assert !IsChildOf(inputs[1], inputs[2]);
    assert !IsChildOf(inputs[2], inputs[0]);
    assert HasUnrelatedOther(inputs, inputs[0]);
    assert HasUnrelatedOther(inputs, inputs[1]);
    assert HasUnrelatedOther(inputs, inputs[2]);
    assert inputs[1..][1..] == [inputs[2]];
    assert KeepRoots(inputs, inputs[1..][1..][1..]) == [];
  }

  // ---------------------------------------------------------------------------
  // The game objects to copy and the index space of all objects

  /** allGameObjectsToCopy: each root's subtree in pre-order, root after root. */
  function Trees(w: World, roots: seq<Loc>): seq<GameObject>
    requires forall r :: r in roots ==> ValidLoc(w, r)
  {
    if roots == [] then [] else PreOrder(Node(w, roots[0])) + Trees(w, roots[1..])
  }

  lemma {:induction false} TreesAppend(w: World, a: seq<Loc>, b: seq<Loc>)
    requires forall r :: r in a + b ==> ValidLoc(w, r)
    ensures Trees(w, a + b) == Trees(w, a) + Trees(w, b)
  {
    if a == [] {
      assert a + b == b;
    } else {
      assert (a + b)[1..] == a[1..] + b;
      TreesAppend(w, a[1..], b);
    }
  }

  /** An entry of the list of all objects: a game object, a component, or a
      component the engine reports as null. */
  datatype HierarchyObject =
    | HierarchyGameObject(gameObject: GameObject)
    | HierarchyComponent(component: Component)
    | NullComponent

  /** The identity that reference comparison uses. */
  function Identity(o: HierarchyObject): Target
  {
    match o
    case HierarchyGameObject(g) => Obj(g.id)
    case HierarchyComponent(c) => Obj(c.id)
    case NullComponent => Null
  }

  /** The entries one game object contributes: itself, then its components. */
  function NodeObjects(g: GameObject): (os: seq<HierarchyObject>)
    ensures |os| == 1 + |Components(g)| && os[0] == HierarchyGameObject(g)
    ensures forall j :: 0 <= j < |Components(g)| ==>
      os[1 + j] == (if Components(g)[j].Some? then HierarchyComponent(Components(g)[j].value) else NullComponent)
  {
    var cs := Components(g);
    [HierarchyGameObject(g)]
      + seq(|cs|, j requires 0 <= j < |cs| =>
          if cs[j].Some? then HierarchyComponent(cs[j].value) else NullComponent)
  }

  function HierarchyObjects(nodes: seq<GameObject>): seq<HierarchyObject>
  {
    if nodes == [] then [] else NodeObjects(nodes[0]) + HierarchyObjects(nodes[1..])
  }

  lemma {:induction false} HierarchyObjectsAppend(a: seq<GameObject>, b: seq<GameObject>)
    ensures HierarchyObjects(a + b) == HierarchyObjects(a) + HierarchyObjects(b)
  {
    if a == [] {
      assert a + b == b;
    } else {
      assert (a + b)[1..] == a[1..] + b;
      HierarchyObjectsAppend(a[1..], b);
    }
  }

  function Identities(os: seq<HierarchyObject>): (ts: seq<Target>)
    ensures |ts| == |os|
  {
    seq(|os|, i requires 0 <= i < |os| => Identity(os[i]))
  }

  /** allComponentsInGameObjectsToCopyHierarchy: the identities of all objects. */
  function AllObjects(nodes: seq<GameObject>): seq<Target>
  {
    Identities(HierarchyObjects(nodes))
  }

  lemma {:induction false} AllObjectsAppend(a: seq<GameObject>, b: seq<GameObject>)
    ensures AllObjects(a + b) == AllObjects(a) + AllObjects(b)
  {
    HierarchyObjectsAppend(a, b);
  }

  /** The index space interleaves game objects with their components: the
      entry of game object p is followed by the entries of its components. */
  lemma {:induction false} AllObjectsLayout(nodes: seq<GameObject>, p: nat)
    requires p < |nodes|
    ensures var base := |AllObjects(nodes[..p])|;
      && base + 1 + |Components(nodes[p])| <= |AllObjects(nodes)|
      && AllObjects(nodes)[base] == Obj(nodes[p].id)
      && forall j :: 0 <= j < |Components(nodes[p])| ==>
           AllObjects(nodes)[base + 1 + j] ==
             (if Components(nodes[p])[j].Some? then Obj(Components(nodes[p])[j].value.id) else Null)
  {
    assert nodes == nodes[..p] + ([nodes[p]] + nodes[p + 1..]);
    HierarchyObjectsAppend(nodes[..p], [nodes[p]] + nodes[p + 1..]);
    HierarchyObjectsAppend([nodes[p]], nodes[p + 1..]);
    assert HierarchyObjects([nodes[p]]) == NodeObjects(nodes[p]) by {
      assert [nodes[p]][1..] == [];
    }
  }

  // ---------------------------------------------------------------------------
  // Reference classification

  /** List.IndexOf: the first position of `t`. */
  function FirstIndexOf(all: seq<Target>, t: Target): (k: nat)
    requires t in all
    ensures k < |all| && all[k] == t && t !in all[..k]
  {
    if all[0] == t then 0 else 1 + FirstIndexOf(all[1..], t)
  }

  /** The saved form of one object-reference property. */
  function Classify(t: Target, all: seq<Target>): (r: InstanceReference)
    ensures r.isNull <==> t == Null
    ensures r.isNull ==> r == NullReference
    ensures IsInternal(r) <==> t != Null && t in all
    ensures IsInternal(r) ==> 0 <= r.id < |all| && all[r.id] == t && t !in all[..r.id]
    ensures IsExternal(r) <==> t != Null && t !in all
    ensures IsExternal(r) ==> r.id == t.id
  {
    if t == Null then NullReference
    else if t in all then Reference(FirstIndexOf(all, t), true)
    else Reference(t.id, false)
  }

  /** The saved references of an object: one entry per reference property, in order. */
  function ClassifyAll(slots: seq<Target>, all: seq<Target>): (ids: seq<InstanceReference>)
    ensures |ids| == |slots|
  {
    seq(|slots|, j requires 0 <= j < |slots| => Classify(slots[j], all))
  }

  /** Reading a saved reference back against the same list of objects. */
  function ResolveReference(r: InstanceReference, all: seq<Target>): Target
  {
    if r.isNull then Null
    else if r.isInternal then (if 0 <= r.id < |all| then all[r.id] else Null)
    else Obj(r.id)
  }

  /** Classification loses nothing: each kind of entry leads back to its target. */
  lemma {:induction false} ClassifyRoundTrip(t: Target, all: seq<Target>)
    ensures ResolveReference(Classify(t, all), all) == t
  {
  }

  // ---------------------------------------------------------------------------
  // Records

  function SerializeComponent(c: Component, all: seq<Target>): SerializedComponent
  {
    SerializedComponent(c.assemblyName, c.typeName, c.data, ClassifyAll(c.slots, all))
  }

  /** The loop of SerializeGameObject over GetComponents: null components are skipped. */
  function SerializeComponents(cs: seq<Option<Component>>, all: seq<Target>): (scs: seq<SerializedComponent>)
    ensures |scs| <= |cs|
    ensures (forall j :: 0 <= j < |cs| ==> cs[j].Some?) ==>
      |scs| == |cs| && forall j :: 0 <= j < |cs| ==> scs[j] == SerializeComponent(cs[j].value, all)
  {
    if cs == [] then []
    else
      var head := if cs[0].Some? then [SerializeComponent(cs[0].value, all)] else [];
      head + SerializeComponents(cs[1..], all)
  }

  /** The number of components that are not null. */
  function PresentCount(cs: seq<Option<Component>>): nat
  {
    if cs == [] then 0 else (if cs[0].Some? then 1 else 0) + PresentCount(cs[1..])
  }

  /** One serialized component per component that is not null. */
  lemma {:induction false} SerializeComponentsCount(cs: seq<Option<Component>>, all: seq<Target>)
    ensures |SerializeComponents(cs, all)| == PresentCount(cs)
  {
    if cs != [] {
      SerializeComponentsCount(cs[1..], all);
    }
  }

  /** The loop writes the components in order: serializing `a + b` serializes
      `a`, then `b`. */
  lemma {:induction false} SerializeComponentsAppend(a: seq<Option<Component>>, b: seq<Option<Component>>,
                                                     all: seq<Target>)
    ensures SerializeComponents(a + b, all) == SerializeComponents(a, all) + SerializeComponents(b, all)
  {
    if a != [] {
      assert (a + b)[0] == a[0] && (a + b)[1..] == a[1..] + b;
      SerializeComponentsAppend(a[1..], b, all);
      var head := if a[0].Some? then [SerializeComponent(a[0].value, all)] else [];
      assert SerializeComponents(a + b, all) == head + SerializeComponents(a[1..] + b, all);
      assert SerializeComponents(a, all) == head + SerializeComponents(a[1..], all);
      assert head + (SerializeComponents(a[1..], all) + SerializeComponents(b, all))
          == (head + SerializeComponents(a[1..], all)) + SerializeComponents(b, all);
    } else {
      assert a + b == b;
    }
  }

  /** The record of one game object.  `parent` is the instance id of its
      parent's transform, `siblingIndex` its sibling index and `pos` the
      number of records already written. */
  function RecordOf(g: GameObject, parent: Option<InstanceId>, siblingIndex: int, scenePath: string,
                    all: seq<Target>, pos: int): SerializedGameObject
  {
    SerializedGameObject(
      g.data,
      ClassifyAll(g.slots, all),
      scenePath,
      parent.Some?,
      if parent.Some? then parent.value else 0,
      siblingIndex,
      |g.children|,
      pos + 1,
      SerializeComponents(Components(g), all))
  }

  /** The records SerializeGameObject writes for the subtree of `g`, as a tree. */
  function EncodeTree(g: GameObject, parent: Option<InstanceId>, siblingIndex: int, scenePath: string,
                      all: seq<Target>, pos: int): RecordTree
    decreases g
  {
    RecordTree(
      RecordOf(g, parent, siblingIndex, scenePath, all, pos),
      EncodeChildren(g.children, g.transform.id, 0, scenePath, all, pos + 1))
  }

  /** The trees of children `cs`, the first of which has sibling index `siblingIndex`
      and is written at position `pos`. */
  function EncodeChildren(cs: seq<GameObject>, parent: InstanceId, siblingIndex: int, scenePath: string,
                          all: seq<Target>, pos: int): seq<RecordTree>
    decreases cs
  {
    if cs == [] then []
    else
      var first := EncodeTree(cs[0], Some(parent), siblingIndex, scenePath, all, pos);
      [first] + EncodeChildren(cs[1..], parent, siblingIndex + 1, scenePath, all, pos + |PreOrder(cs[0])|)
  }

  /** `rec` is the record of `g` up to its position and its place in the hierarchy. */
  predicate Describes(rec: SerializedGameObject, g: GameObject, all: seq<Target>)
  {
    && rec.serializedData == g.data
    && rec.savedInstanceIDs == ClassifyAll(g.slots, all)
    && rec.childCount == |g.children|
    && rec.serializedComponents == SerializeComponents(Components(g), all)
  }

  /** Record p describes node p, and its indexOfFirstChild is the position right after its own. */
  predicate DescribesAll(recs: seq<SerializedGameObject>, nodes: seq<GameObject>, all: seq<Target>, pos: int)
  {
    && |recs| == |nodes|
    && forall p :: 0 <= p < |recs| ==>
         Describes(recs[p], nodes[p], all) && recs[p].indexOfFirstChild == pos + p + 1
  }

  lemma {:induction false} DescribesAllAppend(r1: seq<SerializedGameObject>, n1: seq<GameObject>,
                           r2: seq<SerializedGameObject>, n2: seq<GameObject>, all: seq<Target>, pos: int)
    requires DescribesAll(r1, n1, all, pos) && DescribesAll(r2, n2, all, pos + |r1|)
    ensures DescribesAll(r1 + r2, n1 + n2, all, pos)
  {
    forall p | 0 <= p < |r1 + r2|
      ensures Describes((r1 + r2)[p], (n1 + n2)[p], all) && (r1 + r2)[p].indexOfFirstChild == pos + p + 1
    {
      if p >= |r1| {
        assert (r1 + r2)[p] == r2[p - |r1|];
        assert (n1 + n2)[p] == n2[p - |r1|];
      }
    }
  }

  /** The records of a subtree are its nodes in pre-order, each followed (at
      indexOfFirstChild) by the record of its first child; they all carry the
      root's scene path, and every record's childCount matches the tree. */
  lemma {:induction false} EncodeTreeFacts(g: GameObject, parent: Option<InstanceId>, siblingIndex: int,
                                           scenePath: string, all: seq<Target>, pos: int)
    ensures DescribesAll(Flatten(EncodeTree(g, parent, siblingIndex, scenePath, all, pos)), PreOrder(g), all, pos)
    ensures WellShaped(EncodeTree(g, parent, siblingIndex, scenePath, all, pos))
    ensures InScene(Flatten(EncodeTree(g, parent, siblingIndex, scenePath, all, pos)), scenePath)
    decreases g
  {
    var t := EncodeTree(g, parent, siblingIndex, scenePath, all, pos);
    EncodeChildrenFacts(g.children, g.transform.id, 0, scenePath, all, pos + 1);
    DescribesAllAppend([t.record], [g], FlattenSeq(t.children), PreOrderSeq(g.children), all, pos);
    InSceneAppend([t.record], FlattenSeq(t.children), scenePath);
  }

  lemma {:induction false} EncodeChildrenFacts(cs: seq<GameObject>, parent: InstanceId, siblingIndex: int,
                                               scenePath: string, all: seq<Target>, pos: int)
    ensures var ts := EncodeChildren(cs, parent, siblingIndex, scenePath, all, pos);
      && |ts| == |cs|
      && DescribesAll(FlattenSeq(ts), PreOrderSeq(cs), all, pos)
      && (forall i :: 0 <= i < |ts| ==> WellShaped(ts[i]))
      && InScene(FlattenSeq(ts), scenePath)
    decreases cs
  {
    if cs != [] {
      var ts := EncodeChildren(cs, parent, siblingIndex, scenePath, all, pos);
      var t0 := EncodeTree(cs[0], Some(parent), siblingIndex, scenePath, all, pos);
      var rest := EncodeChildren(cs[1..], parent, siblingIndex + 1, scenePath, all, pos + |PreOrder(cs[0])|);
      assert ts[0] == t0 && ts[1..] == rest;
      EncodeTreeFacts(cs[0], Some(parent), siblingIndex, scenePath, all, pos);
      EncodeChildrenFacts(cs[1..], parent, siblingIndex + 1, scenePath, all, pos + |PreOrder(cs[0])|);
      DescribesAllAppend(Flatten(t0), PreOrder(cs[0]), FlattenSeq(rest), PreOrderSeq(cs[1..]), all, pos);
      assert FlattenSeq(ts) == Flatten(t0) + FlattenSeq(rest);
      InSceneAppend(Flatten(t0), FlattenSeq(rest), scenePath);
    }
  }

  /** Every record lies in scene `sp`. */
  predicate InScene(recs: seq<SerializedGameObject>, sp: string)
  {
    forall p :: 0 <= p < |recs| ==> recs[p].scenePath == sp
  }

  lemma {:induction false} InSceneAppend(a: seq<SerializedGameObject>, b: seq<SerializedGameObject>, sp: string)
    requires InScene(a, sp) && InScene(b, sp)
    ensures InScene(a + b, sp)
  {
    forall p | 0 <= p < |a + b| ensures (a + b)[p].scenePath == sp {
      if p >= |a| {
        assert (a + b)[p] == b[p - |a|];
      }
    }
  }

  /** Writing children a then b: b's trees follow a's, numbered and placed after them. */
  lemma {:induction false} EncodeChildrenAppend(a: seq<GameObject>, b: seq<GameObject>, parent: InstanceId,
                                                siblingIndex: int, scenePath: string, all: seq<Target>, pos: int)
    ensures EncodeChildren(a + b, parent, siblingIndex, scenePath, all, pos)
      == EncodeChildren(a, parent, siblingIndex, scenePath, all, pos)
       + EncodeChildren(b, parent, siblingIndex + |a|, scenePath, all, pos + |PreOrderSeq(a)|)
    decreases a
  {
    if a == [] {
      assert a + b == b;
    } else {
      var first := EncodeTree(a[0], Some(parent), siblingIndex, scenePath, all, pos);
      var next := pos + |PreOrder(a[0])|;
      assert (a + b)[0] == a[0] && (a + b)[1..] == a[1..] + b;
      assert EncodeChildren(a + b, parent, siblingIndex, scenePath, all, pos)
          == [first] + EncodeChildren(a[1..] + b, parent, siblingIndex + 1, scenePath, all, next);
      assert EncodeChildren(a, parent, siblingIndex, scenePath, all, pos)
          == [first] + EncodeChildren(a[1..], parent, siblingIndex + 1, scenePath, all, next);
      assert |PreOrderSeq(a)| == |PreOrder(a[0])| + |PreOrderSeq(a[1..])|;
      EncodeChildrenAppend(a[1..], b, parent, siblingIndex + 1, scenePath, all, next);
      ConcatAssoc([first], EncodeChildren(a[1..], parent, siblingIndex + 1, scenePath, all, next),
                  EncodeChildren(b, parent, siblingIndex + |a|, scenePath, all, pos + |PreOrderSeq(a)|));
    }
  }

  /** One record per node of the children's subtrees. */
  lemma {:induction false} EncodeChildrenSize(cs: seq<GameObject>, parent: InstanceId, siblingIndex: int, scenePath: string,
                           all: seq<Target>, pos: int)
    ensures |FlattenSeq(EncodeChildren(cs, parent, siblingIndex, scenePath, all, pos))| == |PreOrderSeq(cs)|
  {
    EncodeChildrenFacts(cs, parent, siblingIndex, scenePath, all, pos);
  }

  // ---------------------------------------------------------------------------
  // The selection

  predicate AnyStatic(nodes: seq<GameObject>)
  {
    exists p :: 0 <= p < |nodes| && nodes[p].isStatic
  }

  lemma {:induction false} AnyStaticAppend(a: seq<GameObject>, b: seq<GameObject>)
    ensures AnyStatic(a + b) <==> AnyStatic(a) || AnyStatic(b)
  {
    if AnyStatic(a) {
      var p :| 0 <= p < |a| && a[p].isStatic;
      assert (a + b)[p] == a[p];
    }
    if AnyStatic(b) {
      var p :| 0 <= p < |b| && b[p].isStatic;
      assert (a + b)[|a| + p] == b[p];
    }
    if AnyStatic(a + b) {
      var p :| 0 <= p < |a + b| && (a + b)[p].isStatic;
      if p < |a| { assert a[p].isStatic; } else { assert b[p - |a|].isStatic; }
    }
  }

  /** The tree written for root `r` when `pos` records have already been written. */
  function RootTree(w: World, r: Loc, all: seq<Target>, pos: int): RecordTree
    requires ValidLoc(w, r)
  {
    EncodeTree(Node(w, r), ParentTransformId(w, r), SiblingIndex(r), ScenePath(w, r), all, pos)
  }

  /** One iteration of the loop over the roots: note the root's position and
      id, write its subtree, and raise foundStatic if a static object was met. */
  function SerializeRoot(w: World, r: Loc, all: seq<Target>, sel: SerializedSelection): SerializedSelection
    requires ValidLoc(w, r)
  {
    var pos := |sel.serializedGameObjects|;
    SerializedSelection(
      sel.indexOfRootGOs + [pos],
      sel.idOfRootGOs + [Node(w, r).id],
      sel.serializedGameObjects + Flatten(RootTree(w, r, all, pos)),
      sel.foundStatic || AnyStatic(PreOrder(Node(w, r))))
  }

  function SerializeRoots(w: World, roots: seq<Loc>, all: seq<Target>, sel: SerializedSelection): SerializedSelection
    requires forall r :: r in roots ==> ValidLoc(w, r)
  {
    if roots == [] then sel else SerializeRoots(w, roots[1..], all, SerializeRoot(w, roots[0], all, sel))
  }

  /** Serializer.Serialize: the whole selection record for the selected objects. */
  function SerializeSelection(w: World, inputs: seq<Loc>): SerializedSelection
    requires forall g :: g in inputs ==> ValidLoc(w, g)
  {
    var roots := GetRootGameObjects(inputs);
    SerializeRoots(w, roots, AllObjects(Trees(w, roots)), EmptySelection)
  }

  // ---------------------------------------------------------------------------
  // The shape of the selection

  /** The trees of all roots, each written at its running position. */
  function RootTrees(w: World, roots: seq<Loc>, all: seq<Target>, pos: int): (ts: seq<RecordTree>)
    requires forall r :: r in roots ==> ValidLoc(w, r)
    ensures |ts| == |roots|
  {
    if roots == [] then []
    else [RootTree(w, roots[0], all, pos)] + RootTrees(w, roots[1..], all, pos + |PreOrder(Node(w, roots[0]))|)
  }

  /** The positions recorded in indexOfRootGOs. */
  function RootPositions(w: World, roots: seq<Loc>, pos: int): (ps: seq<int>)
    requires forall r :: r in roots ==> ValidLoc(w, r)
    ensures |ps| == |roots|
  {
    if roots == [] then [] else [pos] + RootPositions(w, roots[1..], pos + |PreOrder(Node(w, roots[0]))|)
  }

  /** The ids recorded in idOfRootGOs. */
  function RootIds(w: World, roots: seq<Loc>): (ids: seq<int>)
    requires forall r :: r in roots ==> ValidLoc(w, r)
    ensures |ids| == |roots|
  {
    if roots == [] then [] else [Node(w, roots[0]).id] + RootIds(w, roots[1..])
  }

  lemma {:induction false} RootIdsAt(w: World, roots: seq<Loc>, k: nat)
    requires forall r :: r in roots ==> ValidLoc(w, r)
    requires k < |roots|
    ensures RootIds(w, roots)[k] == Node(w, roots[k]).id
  {
    if k > 0 {
      RootIdsAt(w, roots[1..], k - 1);
    }
  }

  lemma {:induction false} RootTreesFacts(w: World, roots: seq<Loc>, all: seq<Target>, pos: int)
    requires forall r :: r in roots ==> ValidLoc(w, r)
    ensures DescribesAll(FlattenSeq(RootTrees(w, roots, all, pos)), Trees(w, roots), all, pos)
    ensures forall i :: 0 <= i < |roots| ==> WellShaped(RootTrees(w, roots, all, pos)[i])
  {
    if roots != [] {
      var ts := RootTrees(w, roots, all, pos);
      var r := roots[0];
      var g := Node(w, r);
      assert ts[1..] == RootTrees(w, roots[1..], all, pos + |PreOrder(g)|);
      EncodeTreeFacts(g, ParentTransformId(w, r), SiblingIndex(r), ScenePath(w, r), all, pos);
      RootTreesFacts(w, roots[1..], all, pos + |PreOrder(g)|);
      DescribesAllAppend(Flatten(ts[0]), PreOrder(g), FlattenSeq(ts[1..]), Trees(w, roots[1..]), all, pos);
    }
  }

  lemma {:induction false} RootTreeSize(w: World, r: Loc, all: seq<Target>, pos: int)
    requires ValidLoc(w, r)
    ensures |Flatten(RootTree(w, r, all, pos))| == |PreOrder(Node(w, r))|
  {
    EncodeTreeFacts(Node(w, r), ParentTransformId(w, r), SiblingIndex(r), ScenePath(w, r), all, pos);
  }

  lemma {:induction false} SerializeRootsPositions(w: World, roots: seq<Loc>, all: seq<Target>, sel: SerializedSelection)
    requires forall r :: r in roots ==> ValidLoc(w, r)
    ensures SerializeRoots(w, roots, all, sel).indexOfRootGOs
      == sel.indexOfRootGOs + RootPositions(w, roots, |sel.serializedGameObjects|)
  {
    var pos := |sel.serializedGameObjects|;
    if roots == [] {
      assert sel.indexOfRootGOs + [] == sel.indexOfRootGOs;
    } else {
      var r := roots[0];
      var next := SerializeRoot(w, r, all, sel);
      RootTreeSize(w, r, all, pos);
      assert |next.serializedGameObjects| == pos + |PreOrder(Node(w, r))|;
      assert next.indexOfRootGOs == sel.indexOfRootGOs + [pos];
      SerializeRootsPositions(w, roots[1..], all, next);
      var rest := RootPositions(w, roots[1..], pos + |PreOrder(Node(w, r))|);
      assert SerializeRoots(w, roots, all, sel) == SerializeRoots(w, roots[1..], all, next);
      assert RootPositions(w, roots, pos) == [pos] + rest;
      ConcatAssoc(sel.indexOfRootGOs, [pos], rest);
    }
  }

  lemma {:induction false} SerializeRootsIds(w: World, roots: seq<Loc>, all: seq<Target>, sel: SerializedSelection)
    requires forall r :: r in roots ==> ValidLoc(w, r)
    ensures SerializeRoots(w, roots, all, sel).idOfRootGOs == sel.idOfRootGOs + RootIds(w, roots)
  {
    if roots != [] {
      var next := SerializeRoot(w, roots[0], all, sel);
      var id := Node(w, roots[0]).id;
      assert next.idOfRootGOs == sel.idOfRootGOs + [id];
      SerializeRootsIds(w, roots[1..], all, next);
      assert RootIds(w, roots) == [id] + RootIds(w, roots[1..]);
      assert (sel.idOfRootGOs + [id]) + RootIds(w, roots[1..]) == sel.idOfRootGOs + RootIds(w, roots);
    }
  }

  lemma {:induction false} SerializeRootsRecords(w: World, roots: seq<Loc>, all: seq<Target>, sel: SerializedSelection)
    requires forall r :: r in roots ==> ValidLoc(w, r)
    ensures SerializeRoots(w, roots, all, sel).serializedGameObjects
      == sel.serializedGameObjects + FlattenSeq(RootTrees(w, roots, all, |sel.serializedGameObjects|))
  {
    var pos := |sel.serializedGameObjects|;
    if roots == [] {
      assert sel.serializedGameObjects + [] == sel.serializedGameObjects;
    } else {
      var r := roots[0];
      var next := SerializeRoot(w, r, all, sel);
      var f := Flatten(RootTree(w, r, all, pos));
      RootTreeSize(w, r, all, pos);
      assert next.serializedGameObjects == sel.serializedGameObjects + f;
      SerializeRootsRecords(w, roots[1..], all, next);
      var ts := RootTrees(w, roots, all, pos);
      var rest := RootTrees(w, roots[1..], all, pos + |PreOrder(Node(w, r))|);
      assert ts[0] == RootTree(w, r, all, pos) && ts[1..] == rest;
      assert FlattenSeq(ts) == f + FlattenSeq(rest);
      assert SerializeRoots(w, roots, all, sel) == SerializeRoots(w, roots[1..], all, next);
      ConcatAssoc(sel.serializedGameObjects, f, FlattenSeq(rest));
    }
  }

  lemma {:induction false} SerializeRootsStatic(w: World, roots: seq<Loc>, all: seq<Target>, sel: SerializedSelection)
    requires forall r :: r in roots ==> ValidLoc(w, r)
    ensures SerializeRoots(w, roots, all, sel).foundStatic <==> sel.foundStatic || AnyStatic(Trees(w, roots))
  {
    if roots != [] {
      SerializeRootsStatic(w, roots[1..], all, SerializeRoot(w, roots[0], all, sel));
      AnyStaticAppend(PreOrder(Node(w, roots[0])), Trees(w, roots[1..]));
    }
  }

  /** RootPositions holds the running offsets: root k's records start after
      those of the trees of roots 0..k-1. */
  lemma {:induction false} RootPositionsAt(w: World, roots: seq<Loc>, pos: int, k: nat)
    requires forall r :: r in roots ==> ValidLoc(w, r)
    requires k < |roots|
    ensures RootPositions(w, roots, pos)[k] == pos + |Trees(w, roots[..k])|
  {
    if k > 0 {
      assert roots[1..][..k - 1] == roots[..k][1..];
      RootPositionsAt(w, roots[1..], pos + |PreOrder(Node(w, roots[0]))|, k - 1);
    }
  }

  /** Root k's tree is written from the position recorded for root k. */
  lemma {:induction false} RootTreesAtPosition(w: World, roots: seq<Loc>, all: seq<Target>, pos: int, k: nat)
    requires forall r :: r in roots ==> ValidLoc(w, r)
    requires k < |roots|
    ensures RootTrees(w, roots, all, pos)[k] == RootTree(w, roots[k], all, RootPositions(w, roots, pos)[k])
  {
    if k > 0 {
      var next := pos + |PreOrder(Node(w, roots[0]))|;
      assert roots[1..][k - 1] == roots[k];
      assert RootTrees(w, roots, all, pos)[k] == RootTrees(w, roots[1..], all, next)[k - 1];
      assert RootPositions(w, roots, pos)[k] == RootPositions(w, roots[1..], next)[k - 1];
      RootTreesAtPosition(w, roots[1..], all, next, k - 1);
    }
  }

  /** Root k's tree is written from its own record position on. */
  lemma {:induction false} RootTreesAt(w: World, roots: seq<Loc>, all: seq<Target>, pos: int, k: nat)
    requires forall r :: r in roots ==> ValidLoc(w, r)
    requires k < |roots|
    ensures RootTrees(w, roots, all, pos)[k] == RootTree(w, roots[k], all, pos + |Trees(w, roots[..k])|)
  {
    RootTreesAtPosition(w, roots, all, pos, k);
    RootPositionsAt(w, roots, pos, k);
  }

  /** Root k's record carries the path of root k's scene. */
  lemma {:induction false} RootTreesScenes(w: World, roots: seq<Loc>, all: seq<Target>, pos: int)
    requires forall r :: r in roots ==> ValidLoc(w, r)
    ensures forall k :: 0 <= k < |roots| ==> RootTrees(w, roots, all, pos)[k].record.scenePath == ScenePath(w, roots[k])
  {
    if roots != [] {
      RootTreesScenes(w, roots[1..], all, pos + |PreOrder(Node(w, roots[0]))|);
      forall k | 0 < k < |roots| ensures roots[k] == roots[1..][k - 1] { }
    }
  }

  /** The prefix of RootTrees is the RootTrees of the prefix. */
  lemma {:induction false} RootTreesPrefix(w: World, roots: seq<Loc>, all: seq<Target>, pos: int, k: nat)
    requires forall r :: r in roots ==> ValidLoc(w, r)
    requires k <= |roots|
    ensures RootTrees(w, roots, all, pos)[..k] == RootTrees(w, roots[..k], all, pos)
  {
    if k > 0 {
      assert roots[1..][..k - 1] == roots[..k][1..];
      RootTreesPrefix(w, roots[1..], all, pos + |PreOrder(Node(w, roots[0]))|, k - 1);
    }
  }

  /** The contents of a selection: one position and one id per root, the records
      describing every object to copy in pre-order with indexOfFirstChild equal
      to the next position, root k's own record at indexOfRootGOs[k] and
      foundStatic raised exactly when some serialized object is static. */
  lemma {:induction false} SelectionShape(w: World, inputs: seq<Loc>)
    requires forall g :: g in inputs ==> ValidLoc(w, g)
    ensures var roots := GetRootGameObjects(inputs);
      var nodes := Trees(w, roots);
      var all := AllObjects(nodes);
      var sel := SerializeSelection(w, inputs);
      && sel.serializedGameObjects == FlattenSeq(RootTrees(w, roots, all, 0))
      && DescribesAll(sel.serializedGameObjects, nodes, all, 0)
      && |sel.indexOfRootGOs| == |roots| && |sel.idOfRootGOs| == |roots|
      && (forall k :: 0 <= k < |roots| ==>
            && sel.indexOfRootGOs[k] == |Trees(w, roots[..k])|
            && sel.idOfRootGOs[k] == Node(w, roots[k]).id)
      && (sel.foundStatic <==> AnyStatic(nodes))
  {
    var roots := GetRootGameObjects(inputs);
    var nodes := Trees(w, roots);
    var all := AllObjects(nodes);
    SerializeRootsPositions(w, roots, all, EmptySelection);
    SerializeRootsIds(w, roots, all, EmptySelection);
    SerializeRootsRecords(w, roots, all, EmptySelection);
    SerializeRootsStatic(w, roots, all, EmptySelection);
    RootTreesFacts(w, roots, all, 0);
    forall k | 0 <= k < |roots|
      ensures SerializeSelection(w, inputs).indexOfRootGOs[k] == |Trees(w, roots[..k])|
      ensures SerializeSelection(w, inputs).idOfRootGOs[k] == Node(w, roots[k]).id
    {
      RootPositionsAt(w, roots, 0, k);
      RootIdsAt(w, roots, k);
    }
  }
}
