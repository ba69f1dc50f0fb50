/**
  The marker component: a game object carrying an enabled marker asks for its
  subtree's play-mode changes to be kept.  A marker is valid when it is
  enabled, no strict ancestor carries an enabled marker of its own, and no
  object of its subtree is static.

  The component is addressed by the location of its game object's transform;
  `enabled` is the component's own flag.
*/
module SavePlayModeObject {
  import opened Wrappers
  import opened SceneGraph

  /** The full name of the marker component's type. */
  const MarkerTypeName: string := "PlayModeSaver.SavePlayModeObject"

  /** GetComponent<SavePlayModeObject>(): the first marker among the components. */
  function FirstMarker(cs: seq<Option<Component>>): (m: Option<Component>)
    ensures m.Some? ==> m.value.typeName == MarkerTypeName && Some(m.value) in cs
    ensures m.None? <==> forall j :: 0 <= j < |cs| && cs[j].Some? ==> cs[j].value.typeName != MarkerTypeName
    ensures m.Some? ==> exists j :: 0 <= j < |cs| && cs[j] == m &&
                          (forall i :: 0 <= i < j && cs[i].Some? ==> cs[i].value.typeName != MarkerTypeName)
  {
    if cs == [] then None
    else if cs[0].Some? && cs[0].value.typeName == MarkerTypeName then cs[0]
    else FirstMarker(cs[1..])
  }

  /** The game object has a marker, and the first one is enabled. */
  predicate HasEnabledMarker(g: GameObject)
  {
    FirstMarker(Components(g)).Some? && FirstMarker(Components(g)).value.enabled
  }

  // ---------------------------------------------------------------------------
  // GetAllAncestors

  /** The strict ancestors of `l`, nearest first. */
  function Ancestors(l: Loc): seq<Loc>
    decreases |l.path|
  {
    match Parent(l)
    case None => []
    case Some(p) => [p] + Ancestors(p)
  }

  /** `a` lies strictly above `l` in the same tree. */
  predicate StrictlyAbove(a: Loc, l: Loc)
  {
    a.scene == l.scene && 1 <= |a.path| < |l.path| && l.path[..|a.path|] == a.path
  }

  /** The ancestor list holds every strict ancestor and nothing else; there is
      one per level above `l`. */
  lemma {:induction false} AncestorsMeaning(l: Loc)
    requires |l.path| >= 1
    ensures |Ancestors(l)| == |l.path| - 1
    ensures forall a :: a in Ancestors(l) <==> StrictlyAbove(a, l)
    decreases |l.path|
  {
    if |l.path| > 1 {
      var p := Parent(l).value;
      AncestorsMeaning(p);
      forall a ensures a in Ancestors(l) <==> StrictlyAbove(a, l) {
        if StrictlyAbove(a, l) && a != p {
          assert a.path != p.path;
          assert p.path[..|a.path|] == l.path[..|a.path|];
          assert StrictlyAbove(a, p);
        }
        if a in Ancestors(p) {
          assert StrictlyAbove(a, p);
          assert l.path[..|a.path|] == p.path[..|a.path|];
        }
      }
    }
  }

  /** Nearest first, ending at the tree root; empty exactly for a root. */
  lemma {:induction false} AncestorsOrder(l: Loc)
    requires |l.path| >= 1
    ensures Ancestors(l) == [] <==> |l.path| == 1
    ensures |l.path| > 1 ==> Ancestors(l)[0] == Parent(l).value
    ensures |l.path| > 1 ==> |Ancestors(l)[|Ancestors(l)| - 1].path| == 1
    ensures forall i :: 0 <= i < |Ancestors(l)| ==> |Ancestors(l)[i].path| == |l.path| - 1 - i
    decreases |l.path|
  {
    if |l.path| > 1 {
      var p := Parent(l).value;
      AncestorsOrder(p);
      AncestorsMeaning(p);
    }
  }

  /** The ancestors of a valid location are valid locations. */
  lemma {:induction false} AncestorsValid(w: World, l: Loc)
    requires ValidLoc(w, l)
    ensures forall i :: 0 <= i < |Ancestors(l)| ==> ValidLoc(w, Ancestors(l)[i])
    decreases |l.path|
  {
    if Parent(l).Some? {
      ParentNode(w, l);
      AncestorsValid(w, Parent(l).value);
    }
  }

  /** GetAllAncestors: follows transform.parent until it is null, collecting each. */
  method GetAllAncestors(l: Loc) returns (parents: seq<Loc>)
    ensures parents == Ancestors(l)
  {
    var t := l;
    parents := [];
    while Parent(t).Some?
      invariant parents + Ancestors(t) == Ancestors(l)
      decreases |t.path|
    {
      var p := Parent(t).value;
      assert Ancestors(t) == [p] + Ancestors(p);
      t := p;
      parents := parents + [t];
    }
  }

  // ---------------------------------------------------------------------------
  // GetAllDescendents

  /** The locations of the subtree of `g`, placed at `l`, in pre-order. */
  function Subtree(l: Loc, g: GameObject): seq<Loc>
    decreases g, 1
  {
    [l] + SubtreeSeq(l, g.children, 0)
  }

  /** The subtrees of children `cs` of `parent`, the first being child `i`. */
  function SubtreeSeq(parent: Loc, cs: seq<GameObject>, i: nat): seq<Loc>
    decreases cs, 0
  {
    if cs == [] then [] else Subtree(Child(parent, i), cs[0]) + SubtreeSeq(parent, cs[1..], i + 1)
  }

  lemma {:induction false} SubtreeSeqAppend(parent: Loc, a: seq<GameObject>, b: seq<GameObject>, i: nat)
    ensures SubtreeSeq(parent, a + b, i) == SubtreeSeq(parent, a, i) + SubtreeSeq(parent, b, i + |a|)
  {
    if a == [] {
      assert a + b == b;
    } else {
      assert (a + b)[1..] == a[1..] + b;
      SubtreeSeqAppend(parent, a[1..], b, i + 1);
    }
  }

  /** The collected locations are the subtree's nodes in pre-order: position k
      holds the k-th node of PreOrder, so there is one entry per node. */
  lemma {:induction false} SubtreeNodes(w: World, l: Loc)
    requires ValidLoc(w, l)
    ensures |Subtree(l, Node(w, l))| == |PreOrder(Node(w, l))|
    ensures forall k :: 0 <= k < |Subtree(l, Node(w, l))| ==>
      ValidLoc(w, Subtree(l, Node(w, l))[k]) && Node(w, Subtree(l, Node(w, l))[k]) == PreOrder(Node(w, l))[k]
    decreases Node(w, l), 1
  {
    var g := Node(w, l);
    SubtreeSeqNodes(w, l, g.children, 0);
    var s := SubtreeSeq(l, g.children, 0);
    assert Subtree(l, g) == [l] + s;
    assert PreOrder(g) == [g] + PreOrderSeq(g.children);
  }

  lemma {:induction false} SubtreeSeqNodes(w: World, parent: Loc, cs: seq<GameObject>, i: nat)
    requires ValidLoc(w, parent) && i + |cs| <= |Node(w, parent).children|
    requires cs == Node(w, parent).children[i..i + |cs|]
    ensures |SubtreeSeq(parent, cs, i)| == |PreOrderSeq(cs)|
    ensures forall k :: 0 <= k < |SubtreeSeq(parent, cs, i)| ==>
      ValidLoc(w, SubtreeSeq(parent, cs, i)[k]) && Node(w, SubtreeSeq(parent, cs, i)[k]) == PreOrderSeq(cs)[k]
    decreases cs, 0
  {
    if cs != [] {
      var c := Child(parent, i);
      ChildNode(w, parent, i);
      assert cs[0] == Node(w, parent).children[i];
      SubtreeNodes(w, c);
      assert cs[1..] == Node(w, parent).children[i + 1..i + 1 + |cs[1..]|];
      SubtreeSeqNodes(w, parent, cs[1..], i + 1);
      var a := Subtree(c, cs[0]);
      var b := SubtreeSeq(parent, cs[1..], i + 1);
      var pa := PreOrder(cs[0]);
      var pb := PreOrderSeq(cs[1..]);
      assert SubtreeSeq(parent, cs, i) == a + b;
      assert PreOrderSeq(cs) == pa + pb;
      forall k | 0 <= k < |a + b|
        ensures ValidLoc(w, (a + b)[k]) && Node(w, (a + b)[k]) == (pa + pb)[k]
      {
        if k >= |a| {
          assert (a + b)[k] == b[k - |a|] && (pa + pb)[k] == pb[k - |a|];
        } else {
          assert (a + b)[k] == a[k] && (pa + pb)[k] == pa[k];
        }
      }
    }
  }

  /** GetAllDescendents: appends `current`, then each child's subtree in turn. */
  method GetAllDescendents(w: World, current: Loc, transforms: seq<Loc>) returns (result: seq<Loc>)
    requires ValidLoc(w, current)
    ensures result == transforms + Subtree(current, Node(w, current))
    decreases Node(w, current)
  {
    var g := Node(w, current);
    result := transforms + [current];
    for i := 0 to |g.children|
      invariant result == transforms + [current] + SubtreeSeq(current, g.children[..i], 0)
    {
      ChildNode(w, current, i);
      result := GetAllDescendents(w, Child(current, i), result);
      assert g.children[..i + 1] == g.children[..i] + [g.children[i]];
      SubtreeSeqAppend(current, g.children[..i], [g.children[i]], 0);
      assert SubtreeSeq(current, [g.children[i]], i) == Subtree(Child(current, i), g.children[i]) by {
        assert [g.children[i]][1..] == [];
      }
    }
    assert g.children[..|g.children|] == g.children;
  }

  // ---------------------------------------------------------------------------
  // The predicates

  /** AnyAncestorHasThisComponent: some strict ancestor has an enabled marker. */
  predicate AnyAncestorHasThisComponent(w: World, l: Loc)
    requires ValidLoc(w, l)
  {
    AncestorsValid(w, l);
    exists i :: 0 <= i < |Ancestors(l)| && HasEnabledMarker(Node(w, Ancestors(l)[i]))
  }

  /** AnyDescendentIsStatic: some node of the subtree, the node itself included, is static. */
  predicate AnyDescendentIsStatic(w: World, l: Loc)
    requires ValidLoc(w, l)
  {
    SubtreeNodes(w, l);
    exists k :: 0 <= k < |Subtree(l, Node(w, l))| && Node(w, Subtree(l, Node(w, l))[k]).isStatic
  }

  predicate IsValid(w: World, l: Loc, enabled: bool)
    requires ValidLoc(w, l)
  {
    enabled && !AnyAncestorHasThisComponent(w, l) && !AnyDescendentIsStatic(w, l)
  }

  /** The marker on the game object itself does not count as an ancestor's. */
  lemma {:induction false} AncestorCheckMeaning(w: World, l: Loc)
    requires ValidLoc(w, l)
    ensures AnyAncestorHasThisComponent(w, l) <==>
      exists a :: StrictlyAbove(a, l) && ValidLoc(w, a) && HasEnabledMarker(Node(w, a))
  {
    if AnyAncestorHasThisComponent(w, l) {
      AncestorFound(w, l);
    }
    if exists a :: StrictlyAbove(a, l) && ValidLoc(w, a) && HasEnabledMarker(Node(w, a)) {
      var a :| StrictlyAbove(a, l) && ValidLoc(w, a) && HasEnabledMarker(Node(w, a));
      AncestorListed(w, l, a);
    }
  }

  /** IsValid in terms of the scene graph: enabled, no enabled marker strictly above, no static node in the subtree. */
  lemma {:induction false} IsValidMeaning(w: World, l: Loc, enabled: bool)
    requires ValidLoc(w, l)
    ensures IsValid(w, l, enabled) <==>
      enabled
      && !(exists a :: StrictlyAbove(a, l) && ValidLoc(w, a) && HasEnabledMarker(Node(w, a)))
      && !(exists k :: 0 <= k < |PreOrder(Node(w, l))| && PreOrder(Node(w, l))[k].isStatic)
  {
    AncestorCheckMeaning(w, l);
    StaticCheckMeaning(w, l);
  }

  /** A marked ancestor found in the list is a marked node strictly above. */
  lemma {:induction false} AncestorFound(w: World, l: Loc)
    requires ValidLoc(w, l) && AnyAncestorHasThisComponent(w, l)
    ensures exists a :: StrictlyAbove(a, l) && ValidLoc(w, a) && HasEnabledMarker(Node(w, a))
  {
    AncestorsMeaning(l);
    AncestorsValid(w, l);
    var i :| 0 <= i < |Ancestors(l)| && HasEnabledMarker(Node(w, Ancestors(l)[i]));
    assert Ancestors(l)[i] in Ancestors(l);
  }

  /** A marked node strictly above is found in the list of ancestors. */
  lemma {:induction false} AncestorListed(w: World, l: Loc, a: Loc)
    requires ValidLoc(w, l) && StrictlyAbove(a, l) && ValidLoc(w, a) && HasEnabledMarker(Node(w, a))
    ensures AnyAncestorHasThisComponent(w, l)
  {
    AncestorsMeaning(l);
    AncestorsValid(w, l);
    var i :| 0 <= i < |Ancestors(l)| && Ancestors(l)[i] == a;
  }

  /** The static check looks at exactly the nodes of the subtree. */
  lemma {:induction false} StaticCheckMeaning(w: World, l: Loc)
    requires ValidLoc(w, l)
    ensures AnyDescendentIsStatic(w, l) <==> exists k :: 0 <= k < |PreOrder(Node(w, l))| && PreOrder(Node(w, l))[k].isStatic
  {
    SubtreeNodes(w, l);
  }

  /** A static game object cannot carry a valid marker: it is its own descendant. */
  lemma {:induction false} SelfStaticIsStaticDescendant(w: World, l: Loc)
    requires ValidLoc(w, l) && Node(w, l).isStatic
    ensures AnyDescendentIsStatic(w, l)
  {
    SubtreeNodes(w, l);
    assert Subtree(l, Node(w, l))[0] == l;
  }

  /** Of two nested enabled markers the inner one is never valid. */
  lemma {:induction false} NestedMarkerInvalid(w: World, outer: Loc, l: Loc, enabled: bool)
    requires ValidLoc(w, l) && ValidLoc(w, outer) && StrictlyAbove(outer, l) && HasEnabledMarker(Node(w, outer))
    ensures !IsValid(w, l, enabled)
  {
    AncestorCheckMeaning(w, l);
  }

  /** An enabled marker on a scene root with no static object below is valid. */
  lemma {:induction false} RootMarkerValid(w: World, l: Loc)
    requires ValidLoc(w, l) && |l.path| == 1
    requires forall k :: 0 <= k < |PreOrder(Node(w, l))| ==> !PreOrder(Node(w, l))[k].isStatic
    ensures IsValid(w, l, true)
  {
    AncestorsOrder(l);
    StaticCheckMeaning(w, l);
  }
}
