/**
  The engine's object model as the snapshot code sees it: scenes holding
  forests of game objects, each with its transform, its other components
  and its children.  Objects are identified by their instance id, and an
  object-reference property holds either null or the id of its target.

  A transform is addressed by its location: the scene it lives in and the
  child indices leading from a scene root down to it.  Its parent is the
  location one index shorter, and its sibling index is the last index.
*/
module SceneGraph {
  import opened Wrappers

  type InstanceId = int

  /** The value of one object-reference property. */
  datatype Target = Null | Obj(id: InstanceId)

  /** A component.  Its serialized state other than object references is the
      opaque blob `data`; `slots` lists its object-reference properties in the
      fixed order in which the property iterator visits them. */
  datatype Component = Component(
    id: InstanceId,
    assemblyName: string,
    typeName: string,
    enabled: bool,
    data: string,
    slots: seq<Target>)

  /** A game object.  `transform` is the component every game object has and
      that the component list starts with; `components` lists the others in
      attachment order, where None is a component the engine reports as null
      (a missing script). */
  datatype GameObject = GameObject(
    id: InstanceId,
    data: string,
    isStatic: bool,
    slots: seq<Target>,
    transform: Component,
    components: seq<Option<Component>>,
    children: seq<GameObject>)

  datatype Scene = Scene(path: string, roots: seq<GameObject>)

  type World = seq<Scene>

  /** The location of a transform: a scene index and a non-empty path whose first
      entry is the index of a scene root. */
  datatype Loc = Loc(scene: nat, path: seq<nat>)

  /** What GetComponents<Component>() returns: the transform, then the rest. */
  function Components(g: GameObject): (cs: seq<Option<Component>>)
    ensures |cs| == 1 + |g.components| && cs[0] == Some(g.transform)
  {
    [Some(g.transform)] + g.components
  }

  // ---------------------------------------------------------------------------
  // Pre-order traversal of a subtree

  /** The subtree of `g` in pre-order: `g`, then each child's subtree in child order. */
  function PreOrder(g: GameObject): seq<GameObject>
  {
    [g] + PreOrderSeq(g.children)
  }

  function PreOrderSeq(cs: seq<GameObject>): seq<GameObject>
  {
    if cs == [] then [] else PreOrder(cs[0]) + PreOrderSeq(cs[1..])
  }

  lemma {:induction false} PreOrderSeqAppend(a: seq<GameObject>, b: seq<GameObject>)
    ensures PreOrderSeq(a + b) == PreOrderSeq(a) + PreOrderSeq(b)
  {
    if a == [] {
      assert a + b == b;
    } else {
      assert (a + b)[1..] == a[1..] + b;
      PreOrderSeqAppend(a[1..], b);
    }
  }

  // ---------------------------------------------------------------------------
  // Locations

  /** `p` leads from `g` down to one of its descendants (the empty path leads to `g`). */
  predicate ValidPath(g: GameObject, p: seq<nat>)
  {
    |p| == 0 || (p[0] < |g.children| && ValidPath(g.children[p[0]], p[1..]))
  }

  function NodeAt(g: GameObject, p: seq<nat>): GameObject
    requires ValidPath(g, p)
  {
    if |p| == 0 then g else NodeAt(g.children[p[0]], p[1..])
  }

  lemma {:induction false} NodeAtSnoc(g: GameObject, p: seq<nat>, i: nat)
    requires ValidPath(g, p) && i < |NodeAt(g, p).children|
    ensures ValidPath(g, p + [i]) && NodeAt(g, p + [i]) == NodeAt(g, p).children[i]
  {
    if |p| > 0 {
      assert (p + [i])[1..] == p[1..] + [i];
      NodeAtSnoc(g.children[p[0]], p[1..], i);
    }
  }

  lemma {:induction false} NodeAtPrefix(g: GameObject, p: seq<nat>, k: nat)
    requires ValidPath(g, p) && k <= |p|
    ensures ValidPath(g, p[..k])
  {
    if k > 0 {
      assert p[..k][1..] == p[1..][..k - 1];
      NodeAtPrefix(g.children[p[0]], p[1..], k - 1);
    }
  }

  predicate ValidLoc(w: World, l: Loc)
  {
    && l.scene < |w|
    && |l.path| >= 1
    && l.path[0] < |w[l.scene].roots|
    && ValidPath(w[l.scene].roots[l.path[0]], l.path[1..])
  }

  /** The game object whose transform sits at `l`. */
  function Node(w: World, l: Loc): GameObject
    requires ValidLoc(w, l)
  {
    NodeAt(w[l.scene].roots[l.path[0]], l.path[1..])
  }

  /** gameObject.scene.path for the object at `l`. */
  function ScenePath(w: World, l: Loc): string
    requires ValidLoc(w, l)
  {
    w[l.scene].path
  }

  function Child(l: Loc, i: nat): Loc
  {
    Loc(l.scene, l.path + [i])
  }

  /** transform.parent: the location one index shorter, or none for a scene root. */
  function Parent(l: Loc): Option<Loc>
  {
    if |l.path| <= 1 then None else Some(Loc(l.scene, l.path[..|l.path| - 1]))
  }

  /** transform.GetSiblingIndex(). */
  function SiblingIndex(l: Loc): nat
    requires |l.path| >= 1
  {
    l.path[|l.path| - 1]
  }

  /** transform.IsChildOf(x): `g` is `x` itself or lies anywhere below `x`. */
  predicate IsChildOf(g: Loc, x: Loc)
  {
    g.scene == x.scene && |x.path| <= |g.path| && g.path[..|x.path|] == x.path
  }

  lemma {:induction false} ChildNode(w: World, l: Loc, i: nat)
    requires ValidLoc(w, l) && i < |Node(w, l).children|
    ensures ValidLoc(w, Child(l, i)) && Node(w, Child(l, i)) == Node(w, l).children[i]
  {
    assert Child(l, i).path[1..] == l.path[1..] + [i];
    NodeAtSnoc(w[l.scene].roots[l.path[0]], l.path[1..], i);
  }

  lemma {:induction false} ParentNode(w: World, l: Loc)
    requires ValidLoc(w, l) && Parent(l).Some?
    ensures ValidLoc(w, Parent(l).value)
    ensures Child(Parent(l).value, SiblingIndex(l)) == l
    ensures SiblingIndex(l) < |Node(w, Parent(l).value).children|
    ensures Node(w, l) == Node(w, Parent(l).value).children[SiblingIndex(l)]
  {
    var n := |l.path|;
    var p := Parent(l).value;
    var root := w[l.scene].roots[l.path[0]];
    assert l.path[1..][..n - 2] == p.path[1..];
    NodeAtPrefix(root, l.path[1..], n - 2);
    assert p.path + [SiblingIndex(l)] == l.path;
    assert ValidLoc(w, p);
    NodeAtLast(root, l.path[1..]);
  }

  lemma {:induction false} NodeAtLast(g: GameObject, p: seq<nat>)
    requires ValidPath(g, p) && |p| >= 1
    ensures ValidPath(g, p[..|p| - 1])
    ensures p[|p| - 1] < |NodeAt(g, p[..|p| - 1]).children|
    ensures NodeAt(g, p) == NodeAt(g, p[..|p| - 1]).children[p[|p| - 1]]
  {
    if |p| > 1 {
      assert p[..|p| - 1][1..] == p[1..][..|p[1..]| - 1];
      NodeAtLast(g.children[p[0]], p[1..]);
    }
  }

  /** The instance id of transform.parent, as the serializer records it in parentID. */
  function ParentTransformId(w: World, l: Loc): Option<InstanceId>
    requires ValidLoc(w, l)
  {
    match Parent(l)
    case None => None
    case Some(p) =>
      ParentNode(w, l);
      Some(Node(w, p).transform.id)
  }
}
