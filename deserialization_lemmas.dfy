/**
  Properties of the deserializer: which objects destroying the originals
  removes, that positional reading and pre-order writing are inverse to each
  other, how the parent pass leaves the hierarchy, and the closed form of the
  internal-reference pass.
*/
module DeserializationLemmas {
  import opened Wrappers
  import opened SerializedData
  import opened Deserialization

  // ---------------------------------------------------------------------------
  // DestroyOriginals

  lemma {:induction false} DestroyObjectConsistent(host: Host, id: int)
    requires HostConsistent(host)
    ensures HostConsistent(DestroyObject(host, id))
  {
  }

  lemma {:induction false} OwnersTransitive(host: Host, a: int, k: int)
    requires HostConsistent(host) && k in host && a in host && a in host[k].owners
    ensures host[a].owners <= host[k].owners
  {
  }

  /** Destroying the saved roots removes exactly the objects one of them owns,
      whatever the order, and leaves every other object as it was. */
  lemma {:induction false} DestroyAllRemovesOwned(host: Host, ids: seq<int>)
    requires HostConsistent(host)
    ensures forall k :: k in DestroyAll(host, ids) <==> k in host && !DestroyedBy(host, ids, k)
    ensures forall k :: k in DestroyAll(host, ids) ==> DestroyAll(host, ids)[k] == host[k]
  {
    if ids != [] {
      var id := ids[0];
      var h1 := DestroyObject(host, id);
      DestroyObjectConsistent(host, id);
      DestroyAllRemovesOwned(h1, ids[1..]);
      forall k | k in host
        ensures (k in h1 && !DestroyedBy(h1, ids[1..], k)) <==> !DestroyedBy(host, ids, k)
      {
        if k in h1 && DestroyedBy(h1, ids[1..], k) {
          var i :| 0 <= i < |ids[1..]| && ids[1..][i] in h1 && h1[ids[1..][i]].kind == GameObjectKind
                   && ids[1..][i] in h1[k].owners;
          assert ids[i + 1] == ids[1..][i];
          assert DestroyedBy(host, ids, k);
        }
        if k !in h1 {
          assert id in host && host[id].kind == GameObjectKind && id in host[k].owners;
          assert DestroyedBy(host, ids, k);
        }
        if k in h1 && DestroyedBy(host, ids, k) {
          var i :| 0 <= i < |ids| && ids[i] in host && host[ids[i]].kind == GameObjectKind && ids[i] in host[k].owners;
          if i == 0 {
            assert false;
          } else {
            if ids[i] !in h1 {
              assert id in host && host[id].kind == GameObjectKind;
              assert id in host[ids[i]].owners;
              OwnersTransitive(host, ids[i], k);
              assert false;
            }
            assert ids[1..][i - 1] == ids[i];
            assert DestroyedBy(h1, ids[1..], k);
          }
        }
      }
    }
  }

  // ---------------------------------------------------------------------------
  // Reading is the inverse of writing

  predicate AllTypesKnown(recs: seq<SerializedGameObject>, reg: Registry)
  {
    forall p, j :: 0 <= p < |recs| && 0 <= j < |recs[p].serializedComponents| ==>
      TypeKnown(recs[p].serializedComponents[j], reg)
  }

  lemma {:induction false} AllTypesKnownSplit(a: seq<SerializedGameObject>, b: seq<SerializedGameObject>, reg: Registry)
    ensures AllTypesKnown(a + b, reg) <==> AllTypesKnown(a, reg) && AllTypesKnown(b, reg)
  {
    if AllTypesKnown(a + b, reg) {
      forall p, j | 0 <= p < |b| && 0 <= j < |b[p].serializedComponents|
        ensures TypeKnown(b[p].serializedComponents[j], reg)
      {
        assert (a + b)[|a| + p] == b[p];
      }
      forall p, j | 0 <= p < |a| && 0 <= j < |a[p].serializedComponents|
        ensures TypeKnown(a[p].serializedComponents[j], reg)
      {
        assert (a + b)[p] == a[p];
      }
    }
    if AllTypesKnown(a, reg) && AllTypesKnown(b, reg) {
      forall p, j | 0 <= p < |a + b| && 0 <= j < |(a + b)[p].serializedComponents|
        ensures TypeKnown((a + b)[p].serializedComponents[j], reg)
      {
        if p >= |a| { assert (a + b)[p] == b[p - |a|]; } else { assert (a + b)[p] == a[p]; }
      }
    }
  }

  /** A window of a sequence that equals x + y splits into windows x and y. */
  lemma {:induction false} WindowSplit<T>(s: seq<T>, lo: int, x: seq<T>, y: seq<T>)
    requires 0 <= lo && lo + |x| + |y| <= |s| && s[lo..lo + |x| + |y|] == x + y
    ensures s[lo..lo + |x|] == x && s[lo + |x|..lo + |x| + |y|] == y
  {
    assert s[lo..lo + |x|] == s[lo..lo + |x| + |y|][..|x|];
    assert s[lo + |x|..lo + |x| + |y|] == s[lo..lo + |x| + |y|][|x|..];
  }

  /** Reading a well-shaped tree back from where its pre-order records lie
      gives the tree and the position `last` of its last record. */
  lemma {:induction false} ReadFlattened(recs: seq<SerializedGameObject>, reg: Registry, t: RecordTree, index: int,
                                         last: int)
    requires WellShaped(t) && AllTypesKnown(Flatten(t), reg)
    requires 0 <= index && index + |Flatten(t)| <= |recs| && recs[index..index + |Flatten(t)|] == Flatten(t)
    requires last == index + |Flatten(t)| - 1
    ensures ReadNode(recs, reg, index) == Success((t, last))
    decreases t, 1
  {
    var f := Flatten(t);
    var fs := FlattenSeq(t.children);
    assert f == [t.record] + fs;
    WindowSplit(recs, index, [t.record], fs);
    assert recs[index] == t.record;
    AllTypesKnownSplit([t.record], fs, reg);
    assert AllTypesKnown([t.record], reg);
    forall j | 0 <= j < |t.record.serializedComponents| ensures TypeKnown(t.record.serializedComponents[j], reg) {
      assert [t.record][0] == t.record;
    }
    ReadChildrenFlattened(recs, reg, t.children, index, last);
    NodeAssemble(recs, reg, index, t, last);
  }

  /** A record whose types resolve and whose children read back reads back as
      the node. */
  lemma {:induction false} NodeAssemble(recs: seq<SerializedGameObject>, reg: Registry, index: int, t: RecordTree, last: int)
    requires 0 <= index < |recs| && recs[index] == t.record && t.record.childCount == |t.children|
    requires forall j :: 0 <= j < |t.record.serializedComponents| ==> TypeKnown(t.record.serializedComponents[j], reg)
    requires ReadChildren(recs, reg, index, |t.children|) == Success((t.children, last))
    ensures ReadNode(recs, reg, index) == Success((t, last))
  {
    assert FirstTypeError(t.record.serializedComponents, reg).None?;
  }

  /** Reading the children `ts` from after `cursor` gives them and the position
      `last` of the last record of the last child. */
  lemma {:induction false} ReadChildrenFlattened(recs: seq<SerializedGameObject>, reg: Registry,
                                                 ts: seq<RecordTree>, cursor: int, last: int)
    requires (forall i :: 0 <= i < |ts| ==> WellShaped(ts[i])) && AllTypesKnown(FlattenSeq(ts), reg)
    requires 0 <= cursor && cursor + 1 + |FlattenSeq(ts)| <= |recs|
    requires recs[cursor + 1..cursor + 1 + |FlattenSeq(ts)|] == FlattenSeq(ts)
    requires last == cursor + |FlattenSeq(ts)|
    ensures ReadChildren(recs, reg, cursor, |ts|) == Success((ts, last))
    decreases ts, 0
  {
    if ts == [] {
      assert FlattenSeq(ts) == [];
    } else {
      var t, rest := ts[0], ts[1..];
      var mid := cursor + |Flatten(t)|;
      ChildrenSplit(recs, reg, ts, cursor, t, rest, mid);
      ReadFlattened(recs, reg, t, cursor + 1, mid);
      ReadChildrenFlattened(recs, reg, rest, mid, last);
      ChildrenAssemble(recs, reg, cursor, ts, t, rest, mid, last);
    }
  }

  /** Children laid out in a window: the first child's records lie right after
      `cursor`, the other children's records right after the first's, which ends
      at `mid`. */
  lemma {:induction false} ChildrenSplit(recs: seq<SerializedGameObject>, reg: Registry, ts: seq<RecordTree>, cursor: int,
                                         t: RecordTree, rest: seq<RecordTree>, mid: int)
    requires ts != [] && t == ts[0] && rest == ts[1..]
    requires (forall i :: 0 <= i < |ts| ==> WellShaped(ts[i])) && AllTypesKnown(FlattenSeq(ts), reg)
    requires 0 <= cursor && cursor + 1 + |FlattenSeq(ts)| <= |recs|
    requires recs[cursor + 1..cursor + 1 + |FlattenSeq(ts)|] == FlattenSeq(ts)
    requires mid == cursor + |Flatten(t)|
    ensures WellShaped(t) && AllTypesKnown(Flatten(t), reg)
    ensures 0 <= cursor + 1 && cursor + 1 + |Flatten(t)| <= |recs|
    ensures recs[cursor + 1..cursor + 1 + |Flatten(t)|] == Flatten(t)
    ensures mid == cursor + 1 + |Flatten(t)| - 1
    ensures (forall i :: 0 <= i < |rest| ==> WellShaped(rest[i])) && AllTypesKnown(FlattenSeq(rest), reg)
    ensures 0 <= mid && mid + 1 + |FlattenSeq(rest)| <= |recs|
    ensures recs[mid + 1..mid + 1 + |FlattenSeq(rest)|] == FlattenSeq(rest)
    ensures cursor + |FlattenSeq(ts)| == mid + |FlattenSeq(rest)|
  {
    var f0 := Flatten(t);
    var fr := FlattenSeq(rest);
    assert FlattenSeq(ts) == f0 + fr;
    WindowSplit(recs, cursor + 1, f0, fr);
    AllTypesKnownSplit(f0, fr, reg);
    RestWellShaped(ts);
  }

  /** Reading the children `ts` is reading the first, `t`, which ends at `mid`,
      then the others, `rest`, from there. */
  lemma {:induction false} ChildrenAssemble(recs: seq<SerializedGameObject>, reg: Registry, cursor: int, ts: seq<RecordTree>,
                                            t: RecordTree, rest: seq<RecordTree>, mid: int, last: int)
    requires 0 <= cursor < |recs| && ts != [] && t == ts[0] && rest == ts[1..]
    requires ReadNode(recs, reg, cursor + 1) == Success((t, mid))
    requires ReadChildren(recs, reg, mid, |rest|) == Success((rest, last))
    ensures ReadChildren(recs, reg, cursor, |ts|) == Success((ts, last))
  {
    assert [t] + rest == ts;
  }

  lemma {:induction false} RestWellShaped(ts: seq<RecordTree>)
    requires ts != [] && forall i :: 0 <= i < |ts| ==> WellShaped(ts[i])
    ensures forall i :: 0 <= i < |ts[1..]| ==> WellShaped(ts[1..][i])
  {
    forall i | 0 <= i < |ts[1..]| ensures WellShaped(ts[1..][i]) { assert ts[1..][i] == ts[i + 1]; }
  }

  /** Conversely, whatever a successful read returns is well shaped, its types
      resolve, and its pre-order records are exactly the records consumed. */
  lemma {:induction false} ReadNodeConsumes(recs: seq<SerializedGameObject>, reg: Registry, index: int)
    requires ReadNode(recs, reg, index).Success?
    ensures var (t, last) := ReadNode(recs, reg, index).value;
      && WellShaped(t) && AllTypesKnown(Flatten(t), reg)
      && recs[index..last + 1] == Flatten(t)
    decreases |recs| - index, 1
  {
    var rec := recs[index];
    ReadChildrenConsumes(recs, reg, index, rec.childCount);
    var (ts, last) := ReadChildren(recs, reg, index, rec.childCount).value;
    var t := RecordTree(rec, ts);
    assert recs[index..last + 1] == [rec] + recs[index + 1..last + 1];
    AllTypesKnownSplit([rec], FlattenSeq(ts), reg);
  }

  lemma {:induction false} ReadChildrenConsumes(recs: seq<SerializedGameObject>, reg: Registry,
                                                cursor: int, remaining: int)
    requires 0 <= cursor < |recs| && ReadChildren(recs, reg, cursor, remaining).Success?
    ensures var (ts, last) := ReadChildren(recs, reg, cursor, remaining).value;
      && |ts| == remaining
      && (forall i :: 0 <= i < |ts| ==> WellShaped(ts[i]))
      && AllTypesKnown(FlattenSeq(ts), reg)
      && recs[cursor + 1..last + 1] == FlattenSeq(ts)
    decreases |recs| - cursor, 0
  {
    if remaining != 0 {
      ChildrenUnfold(recs, reg, cursor, remaining);
      var (t, last) := ReadNode(recs, reg, cursor + 1).value;
      ReadNodeConsumes(recs, reg, cursor + 1);
      ReadChildrenConsumes(recs, reg, last, remaining - 1);
      var (ts, last') := ReadChildren(recs, reg, last, remaining - 1).value;
      ChildrenJoin(recs, reg, cursor, last, last', t, ts);
    }
  }

  /** A successful read of a nonzero number of children reads one node and then
      the rest. */
  lemma {:induction false} ChildrenUnfold(recs: seq<SerializedGameObject>, reg: Registry, cursor: int, remaining: int)
    requires 0 <= cursor < |recs| && remaining != 0 && ReadChildren(recs, reg, cursor, remaining).Success?
    ensures ReadNode(recs, reg, cursor + 1).Success?
    ensures var (t, last) := ReadNode(recs, reg, cursor + 1).value;
      && ReadChildren(recs, reg, last, remaining - 1).Success?
      && var (ts, last') := ReadChildren(recs, reg, last, remaining - 1).value;
      ReadChildren(recs, reg, cursor, remaining).value == ([t] + ts, last')
  {
  }

  /** The children read one after another consume adjacent windows. */
  lemma {:induction false} ChildrenJoin(recs: seq<SerializedGameObject>, reg: Registry, cursor: int, last: int,
                                        last': int, t: RecordTree, ts: seq<RecordTree>)
    requires 0 <= cursor < last + 1 <= last' + 1 <= |recs|
    requires WellShaped(t) && AllTypesKnown(Flatten(t), reg) && recs[cursor + 1..last + 1] == Flatten(t)
    requires (forall i :: 0 <= i < |ts| ==> WellShaped(ts[i])) && AllTypesKnown(FlattenSeq(ts), reg)
    requires recs[last + 1..last' + 1] == FlattenSeq(ts)
    ensures var all := [t] + ts;
      && (forall i :: 0 <= i < |all| ==> WellShaped(all[i]))
      && AllTypesKnown(FlattenSeq(all), reg)
      && recs[cursor + 1..last' + 1] == FlattenSeq(all)
  {
    var all := [t] + ts;
    assert all[1..] == ts;
    assert FlattenSeq(all) == Flatten(t) + FlattenSeq(ts);
    assert recs[cursor + 1..last' + 1] == recs[cursor + 1..last + 1] + recs[last + 1..last' + 1];
    AllTypesKnownSplit(Flatten(t), FlattenSeq(ts), reg);
    forall i | 0 <= i < |all| ensures WellShaped(all[i]) {
      if i > 0 { assert all[i] == ts[i - 1]; }
    }
  }

  /** A record list whose childCount fields are negative never reads back: the
      loop over the children can only stop by running off the end. */
  lemma {:induction false} NegativeChildCountFails(recs: seq<SerializedGameObject>, reg: Registry, index: int)
    requires 0 <= index < |recs| && recs[index].childCount < 0
    ensures ReadNode(recs, reg, index).Failure?
  {
    if ReadNode(recs, reg, index).Success? {
      ReadNodeConsumes(recs, reg, index);
    }
  }

  // ---------------------------------------------------------------------------
  // The entry lists

  /** Game-object entry i names the game object at its handle's position, and
      the handles increase strictly. */
  lemma {:induction false} GameObjectEntriesFacts(sos: seq<SerialObject>, base: int)
    ensures forall i :: 0 <= i < |GameObjectEntries(sos, base)| ==>
      var e := GameObjectEntries(sos, base)[i];
      base <= e.handle < base + |sos| && sos[e.handle - base] == SerialGameObject(e.record)
    ensures forall i, j :: 0 <= i < j < |GameObjectEntries(sos, base)| ==>
      GameObjectEntries(sos, base)[i].handle < GameObjectEntries(sos, base)[j].handle
  {
    if sos != [] {
      GameObjectEntriesFacts(sos[1..], base + 1);
      var head: seq<DeserializedGameObject> :=
        if sos[0].SerialGameObject? then [DeserializedGameObject(sos[0].record, base)] else [];
      var rest := GameObjectEntries(sos[1..], base + 1);
      var all := head + rest;
      assert GameObjectEntries(sos, base) == all;
      forall i | 0 <= i < |all|
        ensures base <= all[i].handle < base + |sos|
        ensures sos[all[i].handle - base] == SerialGameObject(all[i].record)
      {
        if i >= |head| {
          var e := rest[i - |head|];
          assert all[i] == e;
          assert sos[1..][e.handle - (base + 1)] == sos[e.handle - base];
        }
      }
      forall i, j | 0 <= i < j < |all| ensures all[i].handle < all[j].handle {
        assert all[j] == rest[j - |head|];
        if i >= |head| { assert all[i] == rest[i - |head|]; }
      }
    }
  }

  /** Every game object a record list describes comes from one of its records. */
  lemma {:induction false} SerialObjectsRecords(recs: seq<SerializedGameObject>)
    ensures forall i :: 0 <= i < |SerialObjects(recs)| && SerialObjects(recs)[i].SerialGameObject? ==>
      SerialObjects(recs)[i].record in recs
  {
    if recs != [] {
      SerialObjectsRecords(recs[1..]);
      var a := RecordObjects(recs[0]);
      var b := SerialObjects(recs[1..]);
      var ab: seq<SerialObject> := a + b;
      assert SerialObjects(recs) == ab;
      forall i | 0 <= i < |ab| && ab[i].SerialGameObject? ensures ab[i].record in recs {
        if i >= |a| {
          assert ab[i] == b[i - |a|];
          assert b[i - |a|].record in recs[1..];
        }
      }
    }
  }

  // ---------------------------------------------------------------------------
  // The parent pass

  predicate DistinctHandles(gos: seq<DeserializedGameObject>)
  {
    forall i, j :: 0 <= i < j < |gos| ==> gos[i].handle != gos[j].handle
  }

  /** One iteration of the parent pass for an entry that does not end it. */
  function ParentStep(e: DeserializedGameObject, st: Hierarchy): Hierarchy
  {
    if e.handle !in st.parentOf && e.record.hasParent
    then Hierarchy(st.parentOf[e.handle := ExistingParent(e.record.parentID)],
                   st.siblingIndexOf[e.handle := e.record.siblingIndex])
    else Hierarchy(st.parentOf, st.siblingIndexOf[e.handle := e.record.siblingIndex])
  }

  /** Every entry the parent pass will look a parent up for (one not yet
      attached, whose record has a parent) names a live transform. */
  predicate ParentsAlive(gos: seq<DeserializedGameObject>, host: Host, st: Hierarchy)
  {
    forall i :: 0 <= i < |gos| && gos[i].handle !in st.parentOf && gos[i].record.hasParent ==>
      gos[i].record.parentID in host && host[gos[i].record.parentID].kind == TransformKind
  }

  lemma {:induction false} ParentPassUnfold(gos: seq<DeserializedGameObject>, host: Host, st: Hierarchy)
    requires gos != [] && ParentsAlive(gos, host, st)
    ensures ParentPass(gos, host, st) == ParentPass(gos[1..], host, ParentStep(gos[0], st))
    ensures ParentsAlive(gos[1..], host, ParentStep(gos[0], st))
  {
    var st1 := ParentStep(gos[0], st);
    forall i | 0 <= i < |gos[1..]| && gos[1..][i].handle !in st1.parentOf && gos[1..][i].record.hasParent
      ensures gos[1..][i].record.parentID in host && host[gos[1..][i].record.parentID].kind == TransformKind
    {
      assert gos[1..][i] == gos[i + 1];
    }
  }

  lemma {:induction false} RestDistinct(gos: seq<DeserializedGameObject>)
    requires gos != [] && DistinctHandles(gos)
    ensures DistinctHandles(gos[1..])
    ensures forall i :: 0 <= i < |gos[1..]| ==> gos[1..][i].handle != gos[0].handle
  {
    var rest := gos[1..];
    forall i, j | 0 <= i < j < |rest| ensures rest[i].handle != rest[j].handle {
      assert rest[i] == gos[i + 1] && rest[j] == gos[j + 1];
    }
    forall i | 0 <= i < |rest| ensures rest[i].handle != gos[0].handle {
      assert rest[i] == gos[i + 1];
    }
  }

  /** Every link of `m` is also a link of `parentOf`. */
  predicate LinksKept(m: map<int, ParentLink>, parentOf: map<int, ParentLink>)
  {
    forall q :: q in m ==> q in parentOf && parentOf[q] == m[q]
  }

  /** `k` is the handle of none of the entries. */
  predicate NotAHandle(gos: seq<DeserializedGameObject>, k: int)
  {
    forall i :: 0 <= i < |gos| ==> gos[i].handle != k
  }

  /** When every parent to look up names a live transform, the parent pass runs
      to the end, keeps every parent link it started with, and leaves parents
      and sibling indices of other handles alone. */
  lemma {:induction false} ParentPassCompletes(gos: seq<DeserializedGameObject>, host: Host, st: Hierarchy)
    requires ParentsAlive(gos, host, st)
    ensures ParentPass(gos, host, st).Success? && ParentPass(gos, host, st).value.1
    ensures LinksKept(st.parentOf, ParentPass(gos, host, st).value.0.parentOf)
    ensures forall k :: NotAHandle(gos, k) ==>
      var st' := ParentPass(gos, host, st).value.0;
      && (k in st'.parentOf <==> k in st.parentOf) && (k in st.parentOf ==> st'.parentOf[k] == st.parentOf[k])
      && (k in st'.siblingIndexOf <==> k in st.siblingIndexOf)
      && (k in st.siblingIndexOf ==> st'.siblingIndexOf[k] == st.siblingIndexOf[k])
  {
    if gos != [] {
      ParentPassUnfold(gos, host, st);
      ParentPassCompletes(gos[1..], host, ParentStep(gos[0], st));
      forall k | NotAHandle(gos, k) ensures NotAHandle(gos[1..], k) {
        forall i | 0 <= i < |gos[1..]| ensures gos[1..][i].handle != k { assert gos[1..][i] == gos[i + 1]; }
      }
    }
  }

  /** ... and for the entries themselves: game objects already parented keep
      their parent, the others with a saved parent are attached to it, and
      every game object gets its saved sibling index. */
  lemma {:induction false} ParentPassResult(gos: seq<DeserializedGameObject>, host: Host, st: Hierarchy)
    requires DistinctHandles(gos) && ParentsAlive(gos, host, st)
    ensures ParentPass(gos, host, st).Success?
    ensures forall i :: 0 <= i < |gos| ==>
      var st' := ParentPass(gos, host, st).value.0;
      var h := gos[i].handle;
      && (h in st.parentOf ==> h in st'.parentOf && st'.parentOf[h] == st.parentOf[h])
      && (h !in st.parentOf ==> (h in st'.parentOf <==> gos[i].record.hasParent))
      && (h !in st.parentOf && gos[i].record.hasParent ==> st'.parentOf[h] == ExistingParent(gos[i].record.parentID))
      && h in st'.siblingIndexOf && st'.siblingIndexOf[h] == gos[i].record.siblingIndex
  {
    ParentPassCompletes(gos, host, st);
    if gos != [] {
      var e := gos[0];
      var st1 := ParentStep(e, st);
      ParentPassUnfold(gos, host, st);
      RestDistinct(gos);
      ParentPassResult(gos[1..], host, st1);
      ParentPassCompletes(gos[1..], host, st1);
      assert NotAHandle(gos[1..], e.handle);
      forall i | 0 < i < |gos| ensures gos[i] == gos[1..][i - 1] { }
    }
  }

  /** `k` has the same parent link and sibling index, or none, in `st'` as in `st`. */
  predicate Untouched(st: Hierarchy, st': Hierarchy, k: int)
  {
    && (k in st'.parentOf <==> k in st.parentOf) && (k in st.parentOf ==> st'.parentOf[k] == st.parentOf[k])
    && (k in st'.siblingIndexOf <==> k in st.siblingIndexOf)
    && (k in st.siblingIndexOf ==> st'.siblingIndexOf[k] == st.siblingIndexOf[k])
  }

  /** A saved parent id that names nothing, met on a game object without a
      parent, stops the pass before it completes (or an earlier cast fails):
      that game object and every later one get neither a parent nor a sibling
      index from the pass. */
  lemma {:induction false} ParentPassStops(gos: seq<DeserializedGameObject>, host: Host, st: Hierarchy, i: nat)
    requires DistinctHandles(gos)
    requires i < |gos| && gos[i].handle !in st.parentOf && gos[i].record.hasParent && gos[i].record.parentID !in host
    ensures var r := ParentPass(gos, host, st);
      r.Success? ==> && !r.value.1
                     && forall j :: i <= j < |gos| ==> Untouched(st, r.value.0, gos[j].handle)
  {
    var e := gos[0];
    var rec := e.record;
    if i > 0 && !(e.handle !in st.parentOf && rec.hasParent && rec.parentID !in host)
       && !(e.handle !in st.parentOf && rec.hasParent && host[rec.parentID].kind != TransformKind) {
      var st1 := ParentStep(e, st);
      assert ParentPass(gos, host, st) == ParentPass(gos[1..], host, st1);
      RestDistinct(gos);
      assert gos[1..][i - 1] == gos[i];
      ParentPassStops(gos[1..], host, st1, i - 1);
      var r := ParentPass(gos, host, st);
      if r.Success? {
        forall j | i <= j < |gos| ensures Untouched(st, r.value.0, gos[j].handle) {
          assert gos[1..][j - 1] == gos[j];
          assert Untouched(st1, r.value.0, gos[j].handle);
        }
      }
    }
  }

  // ---------------------------------------------------------------------------
  // Where the restored objects of a tree lie, and the links read for them

  lemma {:induction false} SizeSeqCons(ts: seq<RecordTree>)
    requires ts != []
    ensures SerialObjects(FlattenSeq(ts)) == SerialObjects(Flatten(ts[0])) + SerialObjects(FlattenSeq(ts[1..]))
    ensures SizeSeq(ts) == Size(ts[0]) + SizeSeq(ts[1..])
  {
    SerialObjectsAppend(Flatten(ts[0]), FlattenSeq(ts[1..]));
  }

  /** A tree's objects: its game object, its components, then its children's. */
  lemma {:induction false} TreeObjects(t: RecordTree)
    ensures SerialObjects(Flatten(t)) == RecordObjects(t.record) + SerialObjects(FlattenSeq(t.children))
    ensures Size(t) == 1 + |t.record.serializedComponents| + SizeSeq(t.children)
  {
    SerialObjectsAppend([t.record], FlattenSeq(t.children));
    assert SerialObjects([t.record]) == RecordObjects(t.record) + SerialObjects([]);
  }

  /** The objects of the first k + 1 trees: those of the first, then those of
      the next k. */
  lemma {:induction false} PrefixSize(ts: seq<RecordTree>, k: nat)
    requires 0 < k <= |ts|
    ensures SizeSeq(ts[..k]) == Size(ts[0]) + SizeSeq(ts[1..][..k - 1])
  {
    assert ts[..k][0] == ts[0] && ts[..k][1..] == ts[1..][..k - 1];
    SizeSeqCons(ts[..k]);
  }

  /** Tree k's objects lie in the forest's objects after those of trees 0..k-1. */
  lemma {:induction false} ForestWindow(ts: seq<RecordTree>, k: nat)
    requires k < |ts|
    ensures var lo := SizeSeq(ts[..k]);
      && lo + Size(ts[k]) <= SizeSeq(ts)
      && SerialObjects(FlattenSeq(ts))[lo..lo + Size(ts[k])] == SerialObjects(Flatten(ts[k]))
  {
    var a, b := ts[..k], ts[k..];
    assert ts == a + b && b[0] == ts[k];
    FlattenSeqAppend(a, b);
    SerialObjectsAppend(FlattenSeq(a), FlattenSeq(b));
    SizeSeqCons(b);
    var s := SerialObjects(FlattenSeq(ts));
    assert s == SerialObjects(FlattenSeq(a)) + (SerialObjects(Flatten(ts[k])) + SerialObjects(FlattenSeq(b[1..])));
    WindowSplit(s, |SerialObjects(FlattenSeq(a))|, SerialObjects(Flatten(ts[k])), SerialObjects(FlattenSeq(b[1..])));
  }

  /** The copy of root k is the game object of root k's record. */
  lemma {:induction false} RootObject(ts: seq<RecordTree>, k: nat)
    requires k < |ts|
    ensures SizeSeq(ts[..k]) < |SerialObjects(FlattenSeq(ts))|
    ensures SerialObjects(FlattenSeq(ts))[SizeSeq(ts[..k])] == SerialGameObject(ts[k].record)
  {
    ForestWindow(ts, k);
    TreeObjects(ts[k]);
    var lo := SizeSeq(ts[..k]);
    assert SerialObjects(FlattenSeq(ts))[lo] == SerialObjects(FlattenSeq(ts))[lo..lo + Size(ts[k])][0];
  }

  /** The objects linked to a parent while reading `t` are exactly the game
      objects of its subtree other than its own. */
  lemma {:induction false} TreeLinksKeys(t: RecordTree, h: int)
    ensures forall q :: q in TreeLinks(t, h) <==>
      h < q < h + Size(t) && SerialObjects(Flatten(t))[q - h].SerialGameObject?
  {
    forall q ensures q in TreeLinks(t, h) <==> h < q < h + Size(t) && SerialObjects(Flatten(t))[q - h].SerialGameObject? {
      TreeLinksKey(t, h, q);
    }
  }

  /** ... and while reading children `ts` from handle `h`, all their game objects. */
  lemma {:induction false} ChildrenLinksKeys(ts: seq<RecordTree>, parent: int, h: int)
    ensures forall q :: q in ChildrenLinks(ts, parent, h) <==>
      h <= q < h + SizeSeq(ts) && SerialObjects(FlattenSeq(ts))[q - h].SerialGameObject?
  {
    forall q ensures q in ChildrenLinks(ts, parent, h) <==>
      h <= q < h + SizeSeq(ts) && SerialObjects(FlattenSeq(ts))[q - h].SerialGameObject?
    {
      ChildrenLinksKey(ts, parent, h, q);
    }
  }

  /** TreeLinksKeys for one handle `q`. */
  lemma {:induction false} TreeLinksKey(t: RecordTree, h: int, q: int)
    ensures q in TreeLinks(t, h) <==> h < q < h + Size(t) && SerialObjects(Flatten(t))[q - h].SerialGameObject?
    decreases t, 1
  {
    var c := |t.record.serializedComponents|;
    var hc := h + 1 + c;
    var s := SerialObjects(Flatten(t));
    TreeObjects(t);
    ChildrenLinksKey(t.children, h, hc, q);
    if h < q < hc {
      assert s[q - h] == RecordObjects(t.record)[q - h];
    } else if hc <= q < h + Size(t) {
      assert s[q - h] == SerialObjects(FlattenSeq(t.children))[q - hc];
    }
  }

  /** ChildrenLinksKeys for one handle `q`. */
  lemma {:induction false} ChildrenLinksKey(ts: seq<RecordTree>, parent: int, h: int, q: int)
    ensures q in ChildrenLinks(ts, parent, h) <==>
      h <= q < h + SizeSeq(ts) && SerialObjects(FlattenSeq(ts))[q - h].SerialGameObject?
    decreases ts, 0
  {
    if ts != [] {
      var t0, rest := ts[0], ts[1..];
      var h1 := h + Size(t0);
      var s := SerialObjects(FlattenSeq(ts));
      SizeSeqCons(ts);
      TreeLinksKey(t0, h, q);
      ChildrenLinksKey(rest, parent, h1, q);
      assert q in ChildrenLinks(ts, parent, h) <==>
        q == h || q in TreeLinks(t0, h) || q in ChildrenLinks(rest, parent, h1);
      if h <= q < h1 {
        TreeObjects(t0);
        assert s[q - h] == SerialObjects(Flatten(t0))[q - h];
      } else if h1 <= q < h + SizeSeq(ts) {
        assert s[q - h] == SerialObjects(FlattenSeq(rest))[q - h1];
      }
    }
  }

  /** The first child's copy is linked to the parent's, and the links of its
      subtree and of the later children are kept alongside. */
  lemma {:induction false} ChildrenLinksSplit(ts: seq<RecordTree>, parent: int, h: int, parentOf: map<int, ParentLink>)
    requires ts != [] && LinksKept(ChildrenLinks(ts, parent, h), parentOf)
    ensures h in parentOf && parentOf[h] == CreatedParent(parent)
    ensures LinksKept(TreeLinks(ts[0], h), parentOf)
    ensures LinksKept(ChildrenLinks(ts[1..], parent, h + Size(ts[0])), parentOf)
  {
    TreeObjects(ts[0]);
    TreeLinksKeys(ts[0], h);
    ChildrenLinksKeys(ts[1..], parent, h + Size(ts[0]));
    var a := TreeLinks(ts[0], h);
    var b := ChildrenLinks(ts[1..], parent, h + Size(ts[0]));
    var m := ChildrenLinks(ts, parent, h);
    assert m == a[h := CreatedParent(parent)] + b;
    assert h !in b && m[h] == CreatedParent(parent);
    forall q | q in a ensures q in parentOf && parentOf[q] == a[q] {
      assert q !in b && q != h;
      assert m[q] == a[q];
    }
  }

  /** The links of a forest lie past its first object and within its objects. */
  lemma {:induction false} ForestLinksRange(ts: seq<RecordTree>, h: int)
    ensures forall q :: q in ForestLinks(ts, h) ==> h < q < h + SizeSeq(ts)
  {
    if ts != [] {
      TreeLinksKeys(ts[0], h);
      TreeObjects(ts[0]);
      ForestLinksRange(ts[1..], h + Size(ts[0]));
      SizeSeqCons(ts);
    }
  }

  /** The copy of root k is not linked, and the links of its tree are kept. */
  lemma {:induction false} ForestTreeLinks(ts: seq<RecordTree>, h: int, k: nat)
    requires k < |ts|
    ensures h + SizeSeq(ts[..k]) !in ForestLinks(ts, h)
    ensures LinksKept(TreeLinks(ts[k], h + SizeSeq(ts[..k])), ForestLinks(ts, h))
  {
    var h1 := h + Size(ts[0]);
    TreeLinksKeys(ts[0], h);
    TreeObjects(ts[0]);
    ForestLinksRange(ts[1..], h1);
    if k == 0 {
      assert ts[..0] == [];
    } else {
      ForestTreeLinks(ts[1..], h1, k - 1);
      PrefixSize(ts, k);
      assert ts[k] == ts[1..][k - 1];
    }
  }

  /** Every game object of a forest that is not linked is the copy of a root. */
  lemma {:induction false} ForestLinksComplete(ts: seq<RecordTree>, h: int, q: int) returns (k: nat)
    requires h <= q < h + SizeSeq(ts) && SerialObjects(FlattenSeq(ts))[q - h].SerialGameObject?
    requires q !in ForestLinks(ts, h)
    ensures k < |ts| && q == h + SizeSeq(ts[..k])
  {
    var t0, rest := ts[0], ts[1..];
    var h1 := h + Size(t0);
    var s := SerialObjects(FlattenSeq(ts));
    SizeSeqCons(ts);
    TreeLinksKeys(t0, h);
    if q >= h1 {
      assert s[q - h] == SerialObjects(FlattenSeq(rest))[q - h1];
      ForestLinksRange(rest, h1);
      var k' := ForestLinksComplete(rest, h1, q);
      k := k' + 1;
      PrefixSize(ts, k);
    } else {
      assert s[q - h] == SerialObjects(Flatten(t0))[q - h];
      k := 0;
      assert ts[..0] == [];
    }
  }

  /** The entry of the game object at position q. */
  lemma {:induction false} GameObjectEntryOf(sos: seq<SerialObject>, base: int, q: nat) returns (i: nat)
    requires q < |sos| && sos[q].SerialGameObject?
    ensures i < |GameObjectEntries(sos, base)|
    ensures GameObjectEntries(sos, base)[i] == DeserializedGameObject(sos[q].record, base + q)
  {
    var head: seq<DeserializedGameObject> :=
      if sos[0].SerialGameObject? then [DeserializedGameObject(sos[0].record, base)] else [];
    var rest := GameObjectEntries(sos[1..], base + 1);
    assert GameObjectEntries(sos, base) == head + rest;
    if q == 0 {
      i := 0;
    } else {
      assert sos[1..][q - 1] == sos[q];
      var j := GameObjectEntryOf(sos[1..], base + 1, q - 1);
      i := |head| + j;
    }
  }

  /** The parent pass over the game objects among the objects created, handles
      counted from 0: when every parent it looks up names a live transform, it
      completes, keeps the links it started with, records each game object's
      saved sibling index, and attaches each game object not yet linked exactly
      when its record has a parent, to that parent. */
  lemma {:induction false} ParentPassOnObjects(sos: seq<SerialObject>, host: Host, st: Hierarchy)
    requires forall q :: 0 <= q < |sos| && sos[q].SerialGameObject? && q !in st.parentOf && sos[q].record.hasParent ==>
      sos[q].record.parentID in host && host[sos[q].record.parentID].kind == TransformKind
    ensures var r := ParentPass(GameObjectEntries(sos, 0), host, st);
      && r.Success? && r.value.1
      && LinksKept(st.parentOf, r.value.0.parentOf)
      && forall q :: 0 <= q < |sos| && sos[q].SerialGameObject? ==>
           var rec := sos[q].record;
           var st' := r.value.0;
           && q in st'.siblingIndexOf && st'.siblingIndexOf[q] == rec.siblingIndex
           && (q !in st.parentOf ==> (q in st'.parentOf <==> rec.hasParent))
           && (q !in st.parentOf && rec.hasParent ==> st'.parentOf[q] == ExistingParent(rec.parentID))
  {
    var gos := GameObjectEntries(sos, 0);
    GameObjectEntriesFacts(sos, 0);
    assert ParentsAlive(gos, host, st) by {
      forall i | 0 <= i < |gos| && gos[i].handle !in st.parentOf && gos[i].record.hasParent
        ensures gos[i].record.parentID in host && host[gos[i].record.parentID].kind == TransformKind
      {
        assert sos[gos[i].handle] == SerialGameObject(gos[i].record);
      }
    }
    assert DistinctHandles(gos);
    ParentPassCompletes(gos, host, st);
    ParentPassResult(gos, host, st);
    var st' := ParentPass(gos, host, st).value.0;
    forall q | 0 <= q < |sos| && sos[q].SerialGameObject?
      ensures q in st'.siblingIndexOf && st'.siblingIndexOf[q] == sos[q].record.siblingIndex
      ensures q !in st.parentOf ==> (q in st'.parentOf <==> sos[q].record.hasParent)
      ensures q !in st.parentOf && sos[q].record.hasParent ==> st'.parentOf[q] == ExistingParent(sos[q].record.parentID)
    {
      var i := GameObjectEntryOf(sos, 0, q);
    }
  }

  /** A record's own objects hold one game object, at their start. */
  lemma {:induction false} RecordEntries(rec: SerializedGameObject, base: int)
    ensures GameObjectEntries(RecordObjects(rec), base) == [DeserializedGameObject(rec, base)]
  {
    var sos := RecordObjects(rec);
    ComponentsOnly(sos[1..], base + 1);
  }

  lemma {:induction false} ComponentsOnly(sos: seq<SerialObject>, base: int)
    requires forall i :: 0 <= i < |sos| ==> sos[i].SerialComponent?
    ensures GameObjectEntries(sos, base) == []
  {
    if sos != [] {
      ComponentsOnly(sos[1..], base + 1);
    }
  }

  /** Entry p is record p's game object, whose handle is the number of objects
      the records before it describe. */
  lemma {:induction false} GameObjectEntriesOfRecords(recs: seq<SerializedGameObject>, base: int)
    ensures var gos := GameObjectEntries(SerialObjects(recs), base);
      && |gos| == |recs|
      && forall p :: 0 <= p < |recs| ==> gos[p] == DeserializedGameObject(recs[p], base + |SerialObjects(recs[..p])|)
  {
    if recs != [] {
      var a := RecordObjects(recs[0]);
      GameObjectEntriesAppend(a, SerialObjects(recs[1..]), base);
      RecordEntries(recs[0], base);
      GameObjectEntriesOfRecords(recs[1..], base + |a|);
      forall p | 0 < p < |recs|
        ensures |SerialObjects(recs[..p])| == |a| + |SerialObjects(recs[1..][..p - 1])|
      {
        assert recs[..p] == [recs[0]] + recs[1..][..p - 1];
        SerialObjectsAppend([recs[0]], recs[1..][..p - 1]);
        assert SerialObjects([recs[0]]) == a + SerialObjects([]);
      }
      assert recs[..0] == [];
    }
  }

  /** RootHandles picks, in order, the entries whose record position is listed:
      with entry p at record position off + p, and the listed positions
      strictly increasing, those from ks[m] on falling in the entries' range and
      those before below it, the roots are the handles of the entries at
      positions ks[m], ks[m + 1], .... */
  lemma {:induction false} RootHandlesPick(gos: seq<DeserializedGameObject>, ks: seq<int>, m: nat, off: int)
    requires forall p :: 0 <= p < |gos| ==> gos[p].record.indexOfFirstChild - 1 == off + p
    requires forall a, b :: 0 <= a < b < |ks| ==> ks[a] < ks[b]
    requires m <= |ks| && (forall a :: 0 <= a < m ==> ks[a] < off)
    requires forall a :: m <= a < |ks| ==> off <= ks[a] < off + |gos|
    ensures |RootHandles(gos, ks)| == |ks| - m
    ensures forall a :: m <= a < |ks| ==> RootHandles(gos, ks)[a - m] == gos[ks[a] - off].handle
  {
    assert m < |ks| ==> off <= ks[m] < off + |gos|;
    if gos != [] {
      var rest := gos[1..];
      var next := if off in ks then m + 1 else m;
      RootHandlesShift(gos, ks, m, off);
      RootHandlesPick(rest, ks, next, off + 1);
      var hs := RootHandles(gos, ks);
      if off in ks {
        assert hs == [gos[0].handle] + RootHandles(rest, ks);
      } else {
        assert hs == RootHandles(rest, ks);
      }
      forall a | next <= a < |ks| ensures hs[a - m] == gos[ks[a] - off].handle {
        assert rest[ks[a] - off - 1] == gos[ks[a] - off];
      }
    }
  }

  /** Moving past the first entry: the root positions before the next entry,
      and the first of them, if it is the first entry's. */
  lemma {:induction false} RootHandlesShift(gos: seq<DeserializedGameObject>, ks: seq<int>, m: nat, off: int)
    requires gos != []
    requires forall p :: 0 <= p < |gos| ==> gos[p].record.indexOfFirstChild - 1 == off + p
    requires forall a, b :: 0 <= a < b < |ks| ==> ks[a] < ks[b]
    requires m <= |ks| && (forall a :: 0 <= a < m ==> ks[a] < off)
    requires forall a :: m <= a < |ks| ==> off <= ks[a] < off + |gos|
    ensures gos[0].record.indexOfFirstChild - 1 == off
    ensures forall p :: 0 <= p < |gos[1..]| ==> gos[1..][p].record.indexOfFirstChild - 1 == off + 1 + p
    ensures off in ks ==> m < |ks| && ks[m] == off
    ensures var next := if off in ks then m + 1 else m;
      && next <= |ks| && (forall a :: 0 <= a < next ==> ks[a] < off + 1)
      && forall a :: next <= a < |ks| ==> off + 1 <= ks[a] < off + |gos|
  {
    var rest := gos[1..];
    forall p | 0 <= p < |rest| ensures rest[p].record.indexOfFirstChild - 1 == off + 1 + p {
      assert rest[p] == gos[p + 1];
    }
    if off in ks {
      var a :| 0 <= a < |ks| && ks[a] == off;
      assert m <= a;
      assert ks[m] <= ks[a];
      forall b | m + 1 <= b < |ks| ensures off + 1 <= ks[b] < off + |gos| {
        assert ks[m] < ks[b];
      }
    } else {
      forall b | m <= b < |ks| ensures off + 1 <= ks[b] < off + |gos| {
        assert ks[b] in ks;
      }
    }
  }


  // ---------------------------------------------------------------------------
  // The internal-reference pass

  /** A restored component after the second pass: internal references bound,
      the rest as the first pass left them. */
  function Fixed(o: LiveObject, ids: seq<InstanceReference>): LiveObject
    requires o.LiveComponent? && |o.slots| == |ids|
  {
    LiveComponent(o.assemblyName, o.typeName, o.added, o.data,
                  seq(|ids|, j requires 0 <= j < |ids| => if IsInternal(ids[j]) then ToCreated(ids[j].id) else o.slots[j]))
  }

  /** The components of `sos`, created at handles from `base` on, fit `objs`. */
  predicate CreatedFrom(sos: seq<SerialObject>, base: int, objs: seq<LiveObject>)
  {
    && 0 <= base && base + |sos| <= |objs|
    && forall i :: 0 <= i < |sos| && sos[i].SerialComponent? ==>
         objs[base + i].LiveComponent? && |objs[base + i].slots| == |sos[i].component.savedInstanceIDs|
  }

  /** Every internal reference of a component of `sos` is an index below `n`. */
  predicate InternalInRange(sos: seq<SerialObject>, n: int)
  {
    forall i, j :: 0 <= i < |sos| && sos[i].SerialComponent? && 0 <= j < |sos[i].component.savedInstanceIDs| ==>
      (IsInternal(sos[i].component.savedInstanceIDs[j]) ==> 0 <= sos[i].component.savedInstanceIDs[j].id < n)
  }

  /** The objects after the pass: the components of `sos` fixed, all else unchanged. */
  function FixRange(objs: seq<LiveObject>, sos: seq<SerialObject>, base: int): (r: seq<LiveObject>)
    requires CreatedFrom(sos, base, objs)
    ensures |r| == |objs|
  {
    seq(|objs|, i requires 0 <= i < |objs| =>
      if base <= i < base + |sos| && sos[i - base].SerialComponent?
      then Fixed(objs[i], sos[i - base].component.savedInstanceIDs) else objs[i])
  }

  lemma {:induction false} CreatedFromRest(sos: seq<SerialObject>, base: int, objs: seq<LiveObject>)
    requires sos != [] && CreatedFrom(sos, base, objs)
    ensures CreatedFrom(sos[1..], base + 1, objs)
  {
    forall i | 0 <= i < |sos[1..]| && sos[1..][i].SerialComponent? ensures objs[base + 1 + i].LiveComponent? {
      assert sos[1..][i] == sos[i + 1];
    }
  }

  lemma {:induction false} FixRangeShiftComponent(objs: seq<LiveObject>, sos: seq<SerialObject>, base: int)
    requires sos != [] && sos[0].SerialComponent? && CreatedFrom(sos, base, objs)
    ensures CreatedFrom(sos[1..], base + 1, objs[base := Fixed(objs[base], sos[0].component.savedInstanceIDs)])
    ensures FixRange(objs[base := Fixed(objs[base], sos[0].component.savedInstanceIDs)], sos[1..], base + 1)
      == FixRange(objs, sos, base)
  {
    var objs' := objs[base := Fixed(objs[base], sos[0].component.savedInstanceIDs)];
    forall i | 0 <= i < |sos[1..]| && sos[1..][i].SerialComponent? ensures objs'[base + 1 + i].LiveComponent? {
      assert sos[1..][i] == sos[i + 1];
    }
    forall i | 0 <= i < |objs| ensures FixRange(objs', sos[1..], base + 1)[i] == FixRange(objs, sos, base)[i] {
      if base + 1 <= i < base + |sos| { assert sos[1..][i - (base + 1)] == sos[i - base]; }
    }
  }

  lemma {:induction false} FixRangeShiftGameObject(objs: seq<LiveObject>, sos: seq<SerialObject>, base: int)
    requires sos != [] && sos[0].SerialGameObject? && CreatedFrom(sos, base, objs)
    ensures CreatedFrom(sos[1..], base + 1, objs)
    ensures FixRange(objs, sos[1..], base + 1) == FixRange(objs, sos, base)
  {
    CreatedFromRest(sos, base, objs);
    forall i | 0 <= i < |objs| ensures FixRange(objs, sos[1..], base + 1)[i] == FixRange(objs, sos, base)[i] {
      if base + 1 <= i < base + |sos| { assert sos[1..][i - (base + 1)] == sos[i - base]; }
    }
  }

  lemma {:induction false} InternalPassClosed(sos: seq<SerialObject>, base: int, objs: seq<LiveObject>)
    requires CreatedFrom(sos, base, objs) && InternalInRange(sos, |objs|)
    ensures EntriesFit(ComponentEntries(sos, base), objs)
    ensures InternalPass(ComponentEntries(sos, base), objs) == Success(FixRange(objs, sos, base))
  {
    CreatedEntriesFit(sos, base, objs);
    if sos == [] {
      assert FixRange(objs, sos, base) == objs;
    } else {
      var rest := sos[1..];
      CreatedFromRest(sos, base, objs);
      InternalInRangeRest(sos, |objs|);
      if sos[0].SerialComponent? {
        var c := sos[0].component;
        var o := objs[base];
        var comps := ComponentEntries(sos, base);
        var tail := ComponentEntries(rest, base + 1);
        FirstEntry(sos, base, comps, tail);
        var slots := Fixed(o, c.savedInstanceIDs).slots;
        FirstSlotsFixed(sos, base, objs, slots);
        var objs' := objs[base := Fixed(o, c.savedInstanceIDs)];
        FixRangeShiftComponent(objs, sos, base);
        InternalPassClosed(rest, base + 1, objs');
        InternalPassUnfold(comps, objs, slots, objs', tail);
      } else {
        assert ComponentEntries(sos, base) == ComponentEntries(rest, base + 1);
        InternalPassClosed(rest, base + 1, objs);
        FixRangeShiftGameObject(objs, sos, base);
      }
    }
  }

  lemma {:induction false} InternalInRangeRest(sos: seq<SerialObject>, n: int)
    requires sos != [] && InternalInRange(sos, n)
    ensures InternalInRange(sos[1..], n)
  {
    var rest := sos[1..];
    forall i, j | 0 <= i < |rest| && rest[i].SerialComponent? && 0 <= j < |rest[i].component.savedInstanceIDs|
      ensures IsInternal(rest[i].component.savedInstanceIDs[j]) ==> 0 <= rest[i].component.savedInstanceIDs[j].id < n
    {
      assert rest[i] == sos[i + 1];
    }
  }

  /** A component heading `sos` heads its entry list. */
  lemma {:induction false} FirstEntry(sos: seq<SerialObject>, base: int, comps: seq<DeserializedComponent>,
                                      tail: seq<DeserializedComponent>)
    requires sos != [] && sos[0].SerialComponent?
    requires comps == ComponentEntries(sos, base) && tail == ComponentEntries(sos[1..], base + 1)
    ensures comps == [DeserializedComponent(sos[0].component, base)] + tail && comps[1..] == tail
  {
    assert ([DeserializedComponent(sos[0].component, base)] + tail)[1..] == tail;
  }

  /** With every internal reference in range, the first component's slots
      become its fixed slots. */
  lemma {:induction false} FirstSlotsFixed(sos: seq<SerialObject>, base: int, objs: seq<LiveObject>,
                                           slots: seq<SlotValue>)
    requires sos != [] && sos[0].SerialComponent? && CreatedFrom(sos, base, objs) && InternalInRange(sos, |objs|)
    requires slots == Fixed(objs[base], sos[0].component.savedInstanceIDs).slots
    ensures InternalSlots(sos[0].component.savedInstanceIDs, objs[base].slots, |objs|) == Success(slots)
  {
    var ids := sos[0].component.savedInstanceIDs;
    var r := InternalSlots(ids, objs[base].slots, |objs|);
    assert r.Success? by {
      forall j | 0 <= j < |ids| && IsInternal(ids[j]) ensures 0 <= ids[j].id < |objs| {
      }
    }
    assert r.value == slots;
  }

  /** The two passes write different kinds of property: the first only
      external references, the second only internal ones, and no saved
      reference is both. */
  lemma {:induction false} PassesWriteDisjointSlots(ids: seq<InstanceReference>, host: Host, n: int)
    ensures var first := FirstPassSlots(ids, host);
      var second := InternalSlots(ids, first, n);
      forall j :: 0 <= j < |ids| ==>
        && (first[j] != FromSnapshot ==> IsExternal(ids[j]))
        && (second.Success? && second.value[j] != first[j] ==> IsInternal(ids[j]))
        && !(IsExternal(ids[j]) && IsInternal(ids[j]))
  {
    var first := FirstPassSlots(ids, host);
    forall j | 0 <= j < |ids| ensures first[j] != FromSnapshot ==> IsExternal(ids[j]) {
      assert first[j] == FirstPassSlot(ids[j], host);
    }
  }

  /** The component entries of objects created from `sos` fit them. */
  lemma {:induction false} CreatedEntriesFit(sos: seq<SerialObject>, base: int, objs: seq<LiveObject>)
    requires CreatedFrom(sos, base, objs)
    ensures EntriesFit(ComponentEntries(sos, base), objs)
  {
    ComponentEntriesFacts(sos, base);
  }

  /** Every component of `sos` has an entry for the internal-reference pass. */
  lemma {:induction false} EntryOfComponent(sos: seq<SerialObject>, base: int, i: int) returns (k: int)
    requires 0 <= i < |sos| && sos[i].SerialComponent?
    ensures 0 <= k < |ComponentEntries(sos, base)| && ComponentEntries(sos, base)[k].component == sos[i].component
  {
    var head := if sos[0].SerialComponent? then [DeserializedComponent(sos[0].component, base)] else [];
    var tail := ComponentEntries(sos[1..], base + 1);
    assert ComponentEntries(sos, base) == head + tail;
    if i == 0 {
      k := 0;
    } else {
      assert sos[1..][i - 1] == sos[i];
      var k' := EntryOfComponent(sos[1..], base + 1, i - 1);
      k := |head| + k';
      assert (head + tail)[k] == tail[k'];
    }
  }

  /** An internal reference that names no restored object makes the pass fail. */
  lemma {:induction false} InternalPassRejects(sos: seq<SerialObject>, base: int, objs: seq<LiveObject>)
    requires CreatedFrom(sos, base, objs) && !InternalInRange(sos, |objs|)
    ensures EntriesFit(ComponentEntries(sos, base), objs)
    ensures InternalPass(ComponentEntries(sos, base), objs).Failure?
  {
    CreatedEntriesFit(sos, base, objs);
    var i, j :| 0 <= i < |sos| && sos[i].SerialComponent? && 0 <= j < |sos[i].component.savedInstanceIDs|
      && IsInternal(sos[i].component.savedInstanceIDs[j]) && !(0 <= sos[i].component.savedInstanceIDs[j].id < |objs|);
    var k := EntryOfComponent(sos, base, i);
    EntryRejects(ComponentEntries(sos, base), objs, k, j);
  }

  /** The pass fails once it reaches an entry holding an internal reference
      that names no restored object. */
  lemma {:induction false} EntryRejects(comps: seq<DeserializedComponent>, objs: seq<LiveObject>, k: int, j: int)
    requires EntriesFit(comps, objs)
    requires 0 <= k < |comps| && 0 <= j < |comps[k].component.savedInstanceIDs|
    requires IsInternal(comps[k].component.savedInstanceIDs[j])
    requires !(0 <= comps[k].component.savedInstanceIDs[j].id < |objs|)
    ensures InternalPass(comps, objs).Failure?
    decreases k
  {
    var e := comps[0];
    var o := objs[e.handle];
    var r := InternalSlots(e.component.savedInstanceIDs, o.slots, |objs|);
    if k == 0 || r.Failure? {
      InternalPassFailsFirst(comps, objs);
    } else {
      var slots := r.value;
      var objs' := objs[e.handle := LiveComponent(o.assemblyName, o.typeName, o.added, o.data, slots)];
      var tail := comps[1..];
      FixedEntriesFit(comps, objs, slots, objs', tail);
      assert tail[k - 1] == comps[k];
      EntryRejects(tail, objs', k - 1, j);
      InternalPassUnfold(comps, objs, slots, objs', tail);
    }
  }

  /** Replacing the first entry's component by its fixed copy keeps the
      remaining entries fitting. */
  lemma {:induction false} FixedEntriesFit(comps: seq<DeserializedComponent>, objs: seq<LiveObject>,
                                           slots: seq<SlotValue>, objs': seq<LiveObject>,
                                           tail: seq<DeserializedComponent>)
    requires EntriesFit(comps, objs) && comps != [] && tail == comps[1..]
    requires var o := objs[comps[0].handle];
      objs' == objs[comps[0].handle := LiveComponent(o.assemblyName, o.typeName, o.added, o.data, slots)]
    requires |slots| == |comps[0].component.savedInstanceIDs|
    ensures EntriesFit(tail, objs') && |objs'| == |objs|
  {
    forall i | 0 <= i < |tail|
      ensures 0 <= tail[i].handle < |objs'|
      ensures objs'[tail[i].handle].LiveComponent?
      ensures |objs'[tail[i].handle].slots| == |tail[i].component.savedInstanceIDs|
    {
      assert tail[i] == comps[i + 1];
    }
  }

  /** The pass fails when the first component's references do not restore. */
  lemma {:induction false} InternalPassFailsFirst(comps: seq<DeserializedComponent>, objs: seq<LiveObject>)
    requires EntriesFit(comps, objs) && comps != []
    requires InternalSlots(comps[0].component.savedInstanceIDs, objs[comps[0].handle].slots, |objs|).Failure?
    ensures InternalPass(comps, objs).Failure?
  {
  }

  /** After a first component whose references restore, the pass goes on with
      the rest over the objects with that component fixed. */
  lemma {:induction false} InternalPassUnfold(comps: seq<DeserializedComponent>, objs: seq<LiveObject>,
                                              slots: seq<SlotValue>, objs': seq<LiveObject>,
                                              tail: seq<DeserializedComponent>)
    requires EntriesFit(comps, objs) && comps != [] && tail == comps[1..]
    requires InternalSlots(comps[0].component.savedInstanceIDs, objs[comps[0].handle].slots, |objs|) == Success(slots)
    requires var o := objs[comps[0].handle];
      objs' == objs[comps[0].handle := LiveComponent(o.assemblyName, o.typeName, o.added, o.data, slots)]
    requires EntriesFit(tail, objs')
    ensures InternalPass(comps, objs) == InternalPass(tail, objs')
  {
  }

  // ---------------------------------------------------------------------------
  // CanDeserialize

  /** CanDeserialize answers true exactly when no static object was serialized
      and some root before the first bad index lies in a loaded scene. */
  lemma {:induction false} AnyRootLoadedMeaning(recs: seq<SerializedGameObject>, loaded: set<string>, ks: seq<int>)
    requires forall k :: 0 <= k < |ks| ==> 0 <= ks[k] < |recs|
    ensures AnyRootLoaded(recs, loaded, ks) ==
      Success(exists k :: 0 <= k < |ks| && recs[ks[k]].scenePath in loaded)
  {
    if ks != [] {
      AnyRootLoadedMeaning(recs, loaded, ks[1..]);
      if recs[ks[0]].scenePath !in loaded {
        if exists k :: 0 <= k < |ks| && recs[ks[k]].scenePath in loaded {
          var k :| 0 <= k < |ks| && recs[ks[k]].scenePath in loaded;
          assert ks[1..][k - 1] == ks[k];
        }
        if exists k :: 0 <= k < |ks[1..]| && recs[ks[1..][k]].scenePath in loaded {
          var k :| 0 <= k < |ks[1..]| && recs[ks[1..][k]].scenePath in loaded;
          assert ks[k + 1] == ks[1..][k];
        }
      }
    }
  }

  lemma {:induction false} CanDeserializeMeaning(sel: SerializedSelection, loaded: set<string>)
    requires forall k :: 0 <= k < |sel.indexOfRootGOs| ==> 0 <= sel.indexOfRootGOs[k] < |sel.serializedGameObjects|
    ensures CanDeserialize(sel, loaded) == Success(!sel.foundStatic &&
      exists k :: 0 <= k < |sel.indexOfRootGOs| && sel.serializedGameObjects[sel.indexOfRootGOs[k]].scenePath in loaded)
  {
    AnyRootLoadedMeaning(sel.serializedGameObjects, loaded, sel.indexOfRootGOs);
  }

  /** The search over the roots stops at the first root that is out of range
      or loaded: an index out of range there is an error, a loaded scene there
      answers true, whatever the roots after it are. */
  lemma {:induction false} AnyRootLoadedStopsAt(recs: seq<SerializedGameObject>, loaded: set<string>, ks: seq<int>, j: int)
    requires 0 <= j < |ks|
    requires forall i :: 0 <= i < j ==> 0 <= ks[i] < |recs| && recs[ks[i]].scenePath !in loaded
    ensures !(0 <= ks[j] < |recs|) ==> AnyRootLoaded(recs, loaded, ks) == Failure(IndexOutOfRange)
    ensures 0 <= ks[j] < |recs| && recs[ks[j]].scenePath in loaded ==> AnyRootLoaded(recs, loaded, ks) == Success(true)
    decreases j
  {
    if j > 0 {
      assert 0 <= ks[0] < |recs| && recs[ks[0]].scenePath !in loaded;
      assert forall i :: 0 <= i < j - 1 ==> ks[1..][i] == ks[i + 1];
      AnyRootLoadedStopsAt(recs, loaded, ks[1..], j - 1);
      assert ks[1..][j - 1] == ks[j];
    }
  }

  /** An index out of range before any loaded root is an error. */
  lemma {:induction false} CanDeserializeRejectsBadIndex(sel: SerializedSelection, loaded: set<string>, j: int)
    requires !sel.foundStatic && 0 <= j < |sel.indexOfRootGOs|
    requires forall i :: 0 <= i < j ==>
      0 <= sel.indexOfRootGOs[i] < |sel.serializedGameObjects| &&
      sel.serializedGameObjects[sel.indexOfRootGOs[i]].scenePath !in loaded
    requires !(0 <= sel.indexOfRootGOs[j] < |sel.serializedGameObjects|)
    ensures CanDeserialize(sel, loaded) == Failure(IndexOutOfRange)
  {
    AnyRootLoadedStopsAt(sel.serializedGameObjects, loaded, sel.indexOfRootGOs, j);
  }

  /** Once a root in a loaded scene is found, the indices after it are not
      looked at: CanDeserialize answers true even when one of them is out of range. */
  lemma {:induction false} CanDeserializeIgnoresLaterIndices(sel: SerializedSelection, loaded: set<string>, j: int)
    requires !sel.foundStatic && 0 <= j < |sel.indexOfRootGOs|
    requires forall i :: 0 <= i < j ==>
      0 <= sel.indexOfRootGOs[i] < |sel.serializedGameObjects| &&
      sel.serializedGameObjects[sel.indexOfRootGOs[i]].scenePath !in loaded
    requires 0 <= sel.indexOfRootGOs[j] < |sel.serializedGameObjects|
    requires sel.serializedGameObjects[sel.indexOfRootGOs[j]].scenePath in loaded
    ensures CanDeserialize(sel, loaded) == Success(true)
  {
    AnyRootLoadedStopsAt(sel.serializedGameObjects, loaded, sel.indexOfRootGOs, j);
  }
}
