# Play Mode Saver, modelled in Dafny

Play Mode Saver is a Unity editor extension. It snapshots a selection of
game objects while the game runs and restores the snapshot into the edited
scenes after play mode ends. This project models two parts of it:

* the snapshot code, `PlayModeSaver` with its `Serializer` and
  `Deserializer` and the record types they exchange;
* the `SavePlayModeObject` marker component, which decides whether a game
  object may be snapshotted.

It proves the properties these parts exist for.

## How the engine is represented

* **Scenes and game objects** (module `SceneGraph`). A scene is a forest of
  `GameObject` values. Each game object has:
  * its transform;
  * its other components, where `None` is a component the engine reports
    as null;
  * its children.

  A transform is addressed by a `Loc`: a scene index plus the child indices
  leading down from a scene root. Its parent is the location one index
  shorter, and its sibling index is the last index. `IsChildOf` is the
  ancestor-or-self test on locations.
* **Components and game objects** carry two things:
  * an opaque JSON blob (`data`), which is what `EditorJsonUtility.ToJson`
    writes;
  * `slots`, their object-reference properties in the order the
    `SerializedProperty` iterator visits them. Each slot is `Null` or the
    instance id of its target.
* **The records** (module `SerializedData`). The records are `datatype`s
  with the original's fields. Two derived views of a record list are
  defined:
  * the *record tree* (`RecordTree`), which positional reading rebuilds;
  * the list of objects a record list describes in creation order
    (`SerialObjects`).
* **The editor's existing objects** (`Host`) are a map from instance id to
  the object's kind and to the game objects whose destruction takes it
  along. Three things are parameters:
  * the set of loaded scene paths;
  * the loadable assemblies with the types they define (`Registry`);
  * `Host` itself.
* **Restored objects** live in an arena. The n-th object created (game
  objects and components alike) has handle n, the index internal
  references use. The parent of a restored transform is either a restored
  game object or an existing transform. Sibling indices are kept in a
  separate map.
* **Exceptions** the original raises along its paths become `Failure`
  values:
  * a record index out of range;
  * an assembly or type that cannot be loaded;
  * a saved parent that is not a transform;
  * an internal index out of range.

## How each part is modelled

Each operation is specified by a function. The code's own steps are then
written as methods against it:

* `Serialization` and `Deserialization` are the reference definitions. For
  example, `EncodeTree` gives the records of a subtree in pre-order, and
  `DeserializeSelection` gives what a restore produces.
* The classes `PlayModeSaver.Serializer` and `PlayModeSaver.Deserializer`
  keep the original's fields. Their methods are proved to compute exactly
  these functions.
* `SavePlayModeObject` walks the hierarchy with the original's loop
  (`GetAllAncestors`) and recursion (`GetAllDescendents`), against the
  functions `Ancestors` and `Subtree`.

The end-to-end property is `RoundTrip.SerializeThenDeserialize`. It covers
restoring both with and without destroying the originals first, and it
assumes:

* the roots' scenes are loaded;
* every component type loads;
* no component is null;
* each root that has a parent has it as a live transform among the editor's
  objects that remain once the originals are destroyed (when they are).

Under those conditions, serializing a selection and restoring it succeeds
and leaves the remaining editor objects as they are. It creates one object
per object of the copied hierarchy, in the order of the index space that
internal references use. Each copy:

* has the original's data;
* has every reference outside the hierarchy looked up by instance id, and
  cleared when no such object remains;
* if it is a component, has every reference into the hierarchy redirected
  to the copy of its target.

The restored hierarchy (`RootRestored` and `Rebuilt`) is as follows:

* the copy of root k is the k-th root returned;
* it is linked to the root's own parent exactly when the root has one, and
  carries the root's sibling index;
* every copied child is linked under the copy of its parent and carries its
  own sibling index.

Five behaviours of the code are modelled as written:

* **Root selection.** The comment at `Runtime/Editor/PlayModeSaver.cs:79`
  says that the roots are the selected objects that no other selected
  object parents. The filter on lines 86-87 instead keeps an object when
  *some* other selected object is not its ancestor-or-self.
  * For two distinct inputs this is the same thing (`TwoInputsKeepTopmost`).
  * From three inputs on, a nested object is kept whenever some other
    selected object is not above it, so its subtree is written twice. For a
    parent, its child and an unrelated object, all three are kept
    (`NestedChildIsKeptAmongThree`).
* **References held by game objects.** The internal-reference loop
  (lines 386-406) visits only the restored components. A restored game
  object's own references into the hierarchy keep what its JSON blob gave
  them, and are not redirected to the copies (`GameObjectSlot`).
* **Roots of unloaded scenes.** These are skipped when restoring, and they
  take up no handles. Internal indices written for the records after them
  then name other objects than the ones they were written for, or lie past
  the restored objects, in which case the internal pass fails with
  `IndexOutOfRange`.
* **A missing saved parent.** When the saved parent id names no object,
  `RestoreInternalObjectReferences` returns at once (line 377). This
  leaves every later game object without its sibling index and every
  internal reference uncorrected. `ParentPassStops` and the
  `completed` flag of `Deserialization.ParentPass` capture this.
* **A negative child count.** `ReadChildren` follows the `i != childCount`
  loop of lines 295-299: with a negative count it keeps reading records
  forward until one is missing or a type fails to load, so the read always
  fails (`NegativeChildCountFails`).

## Model

| member | source | states |
|---|---|---|
| Serialization.GetRootGameObjects | Runtime/Editor/PlayModeSaver.cs:80-90 | a single input is the only root; otherwise an input is a root exactly when some other input is not its ancestor-or-self; the roots are inputs and never more than the inputs |
| Serialization.KeepRoots | Runtime/Editor/PlayModeSaver.cs:86-87 | the filter keeps exactly the inputs that have an unrelated other input |
| Serialization.KeepRootsAppend | Runtime/Editor/PlayModeSaver.cs:86-87 | the filter keeps the inputs it keeps in their order: filtering two runs of inputs is filtering the first, then the second |
| Serialization.TwoInputsKeepTopmost | Runtime/Editor/PlayModeSaver.cs:79-90 | with two distinct inputs, an input is kept exactly when the other is not its ancestor |
| Serialization.TopmostInputIsKept | Runtime/Editor/PlayModeSaver.cs:79-87 | an input with no selected ancestor is kept whenever another input exists |
| Serialization.NestedChildIsKeptAmongThree | Runtime/Editor/PlayModeSaver.cs:86-87 | for a parent, its child and an object unrelated to both, all three are kept, the child included, although its parent is selected |
| Serialization.TreesAppend | Runtime/Editor/PlayModeSaver.cs:65-71 | the trees of two root lists are the trees of each, one after the other |
| Serialization.NodeObjects | Runtime/Editor/PlayModeSaver.cs:97-99 | a game object contributes itself, then each of its components in order, null ones included |
| Serialization.AllObjectsLayout | Runtime/Editor/PlayModeSaver.cs:92-102 | in the list of all objects, game object p sits after the objects of the earlier game objects, followed by its components |
| Serialization.FirstIndexOf | Runtime/Editor/PlayModeSaver.cs:176 | the position of the first occurrence of the target |
| Serialization.Classify | Runtime/Editor/PlayModeSaver.cs:168-182 | null exactly for a null target; internal exactly for a target in the hierarchy, with its first index; external otherwise, with its instance id |
| Serialization.ClassifyAll | Runtime/Editor/PlayModeSaver.cs:161-187 | one saved reference per object-reference property |
| Serialization.ClassifyRoundTrip | Runtime/Editor/PlayModeSaver.cs:161-187 | resolving a saved reference against the list of all objects gives back the original target |
| Serialization.SerializeComponents | Runtime/Editor/PlayModeSaver.cs:131-136 | null components are skipped; with none null, the component records are the components' records in order |
| Serialization.SerializeComponentsCount | Runtime/Editor/PlayModeSaver.cs:131-136 | one component record per component that is not null, whether or not some are null |
| Serialization.SerializeComponentsAppend | Runtime/Editor/PlayModeSaver.cs:131-136 | the components are written in order: serializing two runs of components is serializing the first, then the second |
| Serialization.EncodeTreeFacts | Runtime/Editor/PlayModeSaver.cs:114-149 | a subtree's records describe its game objects in pre-order, each record's child count matches its children, and all lie in one scene |
| Serialization.EncodeChildrenFacts | Runtime/Editor/PlayModeSaver.cs:147-148 | the children's records describe the children's subtrees in pre-order, one well-shaped tree per child |
| Serialization.EncodeChildrenAppend | Runtime/Editor/PlayModeSaver.cs:147-148 | writing two runs of children is writing the first, then the second at the following sibling index and position |
| Serialization.RecordOf | Runtime/Editor/PlayModeSaver.cs:114-136 | reference definition, no contract: the record SerializeGameObject builds for one game object; its meaning is proved in EncodeTreeFacts and RoundTrip.RootRecordAt |
| Serialization.EncodeTree | Runtime/Editor/PlayModeSaver.cs:114-149 | reference definition, no contract: the records of a subtree as a tree, in pre-order; its meaning is proved in EncodeTreeFacts, EncodeChildrenSize and RoundTrip.EncodeTreeShaped |
| Serialization.EncodeChildren | Runtime/Editor/PlayModeSaver.cs:147-148 | reference definition, no contract: the children's trees at consecutive sibling indices and positions; its meaning is proved in EncodeChildrenFacts, EncodeChildrenAppend and RoundTrip.EncodeChildrenShaped |
| Serialization.EncodeChildrenSize | Runtime/Editor/PlayModeSaver.cs:147-148 | the children write one record per game object of their subtrees |
| Serialization.RootIdsAt | Runtime/Editor/PlayModeSaver.cs:109 | the k-th saved root id is the instance id of the k-th root |
| Serialization.RootTreesFacts | Runtime/Editor/PlayModeSaver.cs:104-112 | the records of all roots describe all copied game objects in pre-order |
| Serialization.SerializeRootsPositions | Runtime/Editor/PlayModeSaver.cs:106-108 | each root's position is appended to indexOfRootGOs |
| Serialization.SerializeRootsIds | Runtime/Editor/PlayModeSaver.cs:109 | each root's instance id is appended to idOfRootGOs |
| Serialization.SerializeRootsRecords | Runtime/Editor/PlayModeSaver.cs:104-112 | the roots' record trees are appended, flattened, to the record list |
| Serialization.SerializeRoots | Runtime/Editor/PlayModeSaver.cs:104-112 | reference definition, no contract: the foreach over the roots, one root after another; its meaning is proved in SerializeRootsPositions, SerializeRootsIds, SerializeRootsRecords and SerializeRootsStatic |
| Serialization.SerializeSelection | Runtime/Editor/PlayModeSaver.cs:62-77 | reference definition, no contract: the roots, the index space of their trees, then the records; its meaning is proved in SelectionShape and RoundTrip.SerializeThenDeserialize |
| Serialization.SerializeRootsStatic | Runtime/Editor/PlayModeSaver.cs:140-145 | foundStatic is set exactly when it was set already or some copied game object is static |
| Serialization.RootPositionsAt | Runtime/Editor/PlayModeSaver.cs:108 | root k is written right after the subtrees of the roots before it |
| Serialization.RootTreesAtPosition | Runtime/Editor/PlayModeSaver.cs:104-112 | root k's tree is the tree of root k, written from the position recorded for root k |
| Serialization.RootTreesAt | Runtime/Editor/PlayModeSaver.cs:104-112 | root k's tree is written right after the records of the subtrees of the roots before it |
| Serialization.RootTreesScenes | Runtime/Editor/PlayModeSaver.cs:121 | each root's record carries the path of the root's scene |
| Serialization.SelectionShape | Runtime/Editor/PlayModeSaver.cs:62-77 | the selection holds the flattened root trees, which describe every copied game object, and for each root its position and instance id |
| Deserialization.DestroyAll | Runtime/Editor/PlayModeSaver.cs:279-284 | reference definition, no contract: each saved root id destroyed in turn; its meaning is proved in DeserializationLemmas.DestroyAllRemovesOwned |
| Deserialization.HostAfterDestroy | Runtime/Editor/PlayModeSaver.cs:254-255 | reference definition, no contract: the objects left once the originals are destroyed, if asked; used by DeserializeSelection and RoundTrip.SerializeThenDeserialize |
| Deserialization.DeserializeSelection | Runtime/Editor/PlayModeSaver.cs:245-277 | reference definition, no contract: read the loaded roots, create their objects, run the parent and internal passes, return the restored roots; its meaning is proved in RoundTrip.SerializeThenDeserialize, PlayModeSaver.RestorationShape and PlayModeSaver.SelectionReadFails |
| Deserialization.ReadRoots | Runtime/Editor/PlayModeSaver.cs:257-262 | reference definition, no contract: the listed roots in order, bad indices raising and roots of unloaded scenes skipped; its meaning is proved in RoundTrip.ReadTrees, RoundTrip.ReadStage and PlayModeSaver.RootStep |
| Deserialization.FirstPassSlot | Runtime/Editor/PlayModeSaver.cs:353-360 | reference definition, no contract: an external reference becomes the object with its id, or nothing when none exists; other references keep the blob's value |
| Deserialization.FirstPassSlots | Runtime/Editor/PlayModeSaver.cs:344-365 | one value per saved reference; that this pass writes only external slots is proved in DeserializationLemmas.PassesWriteDisjointSlots |
| Deserialization.InitialObject | Runtime/Editor/PlayModeSaver.cs:305-342 | reference definition, no contract: the object one entry creates, a transform being reused rather than added; its meaning is proved in RoundTrip.CreatedObjectRestores |
| Deserialization.CreateAll | Runtime/Editor/PlayModeSaver.cs:305-342 | one created object per entry, in order |
| Deserialization.ParentPass | Runtime/Editor/PlayModeSaver.cs:370-383 | reference definition, no contract: the parent loop with its early return and cast error; its meaning is proved in DeserializationLemmas.ParentPassCompletes, ParentPassResult, ParentPassOnObjects and ParentPassStops |
| Deserialization.RootHandles | Runtime/Editor/PlayModeSaver.cs:266-269 | never more roots than restored game objects; the exact selection is proved in DeserializationLemmas.RootHandlesPick |
| Deserialization.CanDeserialize | Runtime/Editor/PlayModeSaver.cs:31-35 | reference definition, no contract: false after a static object, otherwise the search over the roots; its meaning is proved in DeserializationLemmas.CanDeserializeMeaning, CanDeserializeRejectsBadIndex and CanDeserializeIgnoresLaterIndices |
| Deserialization.AnyRootLoaded | Runtime/Editor/PlayModeSaver.cs:32-35 | reference definition, no contract: the lazy Select/Any over the listed roots; its meaning is proved in DeserializationLemmas.AnyRootLoadedMeaning and AnyRootLoadedStopsAt |
| Deserialization.DestroyObject | Runtime/Editor/PlayModeSaver.cs:279-284 | destroying only removes objects and leaves the rest unchanged |
| Deserialization.TypeError | Runtime/Editor/PlayModeSaver.cs:327-333 | no error exactly when the component's assembly loads and defines its type |
| Deserialization.FirstTypeError | Runtime/Editor/PlayModeSaver.cs:319-323 | no error exactly when every component type is known; otherwise the error of an unknown one |
| Deserialization.ReadNode | Runtime/Editor/PlayModeSaver.cs:286-303 | a successful read starts from the record at the index and ends at a later record inside the list |
| Deserialization.ReadChildren | Runtime/Editor/PlayModeSaver.cs:295-299 | a successful read of children ends at a record no earlier than where it began |
| Deserialization.InternalSlots | Runtime/Editor/PlayModeSaver.cs:391-403 | fails exactly when some internal index lies outside the restored objects; otherwise internal references name the restored object at their index and the rest are unchanged |
| Deserialization.InternalPass | Runtime/Editor/PlayModeSaver.cs:386-406 | the pass keeps the number of restored objects |
| Deserialization.EntriesFitCreated | Runtime/Editor/PlayModeSaver.cs:340-341 | every component entry names a restored component with one slot per saved reference |
| Deserialization.ComponentEntriesFacts | Runtime/Editor/PlayModeSaver.cs:340-341 | each component entry's handle is the creation position of its component |
| DeserializationLemmas.DestroyAllRemovesOwned | Runtime/Editor/PlayModeSaver.cs:279-284 | after DestroyOriginals exactly the objects that no destroyed saved root game object owns remain, unchanged |
| DeserializationLemmas.ReadFlattened | Runtime/Editor/PlayModeSaver.cs:286-303 | reading at the start of a well-shaped tree's pre-order records gives back the tree and its last record |
| DeserializationLemmas.ReadChildrenFlattened | Runtime/Editor/PlayModeSaver.cs:295-299 | reading children laid out in pre-order gives back those children |
| DeserializationLemmas.ReadNodeConsumes | Runtime/Editor/PlayModeSaver.cs:286-303 | a successful read consumed exactly the pre-order records of a well-shaped tree whose types are all known |
| DeserializationLemmas.ReadChildrenConsumes | Runtime/Editor/PlayModeSaver.cs:295-299 | a successful read of n children consumed exactly their pre-order records |
| DeserializationLemmas.NegativeChildCountFails | Runtime/Editor/PlayModeSaver.cs:295 | a record with a negative child count never reads successfully |
| DeserializationLemmas.GameObjectEntriesFacts | Runtime/Editor/PlayModeSaver.cs:310-311 | each game-object entry's handle is the creation position of its record, in increasing order |
| DeserializationLemmas.ParentPassCompletes | Runtime/Editor/PlayModeSaver.cs:370-383 | with the saved parent of every game object not yet linked alive as a transform, the parent loop runs to the end, keeps every link already made and touches no other object |
| DeserializationLemmas.ParentPassResult | Runtime/Editor/PlayModeSaver.cs:370-383 | each game object keeps a parent it already had, else gets its saved parent exactly when it has one, and is given its saved sibling index |
| DeserializationLemmas.ParentPassOnObjects | Runtime/Editor/PlayModeSaver.cs:370-383 | over the game objects restored from a record list: the loop completes, keeps earlier links, gives each game object its record's sibling index and, when it is not yet linked, its saved parent exactly when it has one |
| DeserializationLemmas.RootHandlesPick | Runtime/Editor/PlayModeSaver.cs:266-269 | the roots returned are the restored game objects whose record position is listed, one per listed position, in the order of the list |
| DeserializationLemmas.GameObjectEntriesOfRecords | Runtime/Editor/PlayModeSaver.cs:305-317 | one game-object entry per record, in order, each with its record and the creation position of its game object |
| DeserializationLemmas.TreeLinksKeys | Runtime/Editor/PlayModeSaver.cs:286-303 | reading a tree links exactly its game objects other than its root |
| DeserializationLemmas.ChildrenLinksKeys | Runtime/Editor/PlayModeSaver.cs:295-299 | reading children links exactly the game objects of their subtrees other than the children themselves, and the children to their parent |
| DeserializationLemmas.ChildrenLinksSplit | Runtime/Editor/PlayModeSaver.cs:295-299 | the first child read is linked to its parent, and the links of its subtree and of the later children are kept |
| DeserializationLemmas.ForestLinksRange | Runtime/Editor/PlayModeSaver.cs:257-262 | reading consecutive trees links only objects after the first root and inside the trees |
| DeserializationLemmas.ForestTreeLinks | Runtime/Editor/PlayModeSaver.cs:257-262 | the copy of each root is left unlinked by reading, and the links of its tree are those of the whole read |
| DeserializationLemmas.ForestLinksComplete | Runtime/Editor/PlayModeSaver.cs:257-262 | after reading consecutive trees, a restored game object with no link is the copy of a root |
| DeserializationLemmas.ForestWindow | Runtime/Editor/PlayModeSaver.cs:257-262 | the objects of tree k lie after those of trees 0..k-1 |
| DeserializationLemmas.RootObject | Runtime/Editor/PlayModeSaver.cs:257-262 | the first object of tree k is its root's game object |
| DeserializationLemmas.ParentPassStops | Runtime/Editor/PlayModeSaver.cs:370-383 | a parent-less game object whose saved parent is gone stops the pass before it completes; it and every later game object get no parent link and no sibling index from the pass |
| DeserializationLemmas.InternalPassClosed | Runtime/Editor/PlayModeSaver.cs:386-406 | with every internal index in range, the pass rewrites each component's internal references and nothing else |
| DeserializationLemmas.InternalPassRejects | Runtime/Editor/PlayModeSaver.cs:395-400 | an internal index outside the restored objects makes the pass fail |
| DeserializationLemmas.EntryRejects | Runtime/Editor/PlayModeSaver.cs:395-400 | a bad internal index in any component entry makes the pass fail |
| DeserializationLemmas.PassesWriteDisjointSlots | Runtime/Editor/PlayModeSaver.cs:344-407 | the two reference passes never write the same property: the first writes only external references, the second only internal ones |
| DeserializationLemmas.AnyRootLoadedMeaning | Runtime/Editor/PlayModeSaver.cs:32-35 | with valid indices, the search answers whether some root's scene is loaded |
| DeserializationLemmas.CanDeserializeMeaning | Runtime/Editor/PlayModeSaver.cs:31-35 | with valid indices, CanDeserialize is true exactly when no static object was saved and some root's scene is loaded |
| DeserializationLemmas.AnyRootLoadedStopsAt | Runtime/Editor/PlayModeSaver.cs:32-35 | the search stops at the first root that is out of range or loaded: an error in the first case, true in the second, whatever follows |
| DeserializationLemmas.CanDeserializeRejectsBadIndex | Runtime/Editor/PlayModeSaver.cs:33 | an index out of range that follows only valid roots of unloaded scenes raises an index error when no static object was saved |
| DeserializationLemmas.CanDeserializeIgnoresLaterIndices | Runtime/Editor/PlayModeSaver.cs:32-35 | once a root of a loaded scene is reached, the answer is true even if a later index is out of range |
| RoundTrip.RecordsCorrespond | Runtime/Editor/PlayModeSaver.cs:114-159 | the objects a record list describes correspond one to one to the objects of the copied hierarchy |
| RoundTrip.CopiedReferenceTarget | Runtime/Editor/PlayModeSaver.cs:396-400 | a reference redirected into the copy names the copy of the object the original referenced |
| RoundTrip.CreatedObjectRestores | Runtime/Editor/PlayModeSaver.cs:305-342 | each created object, after the internal pass for a component, is the restored copy of its original |
| RoundTrip.ReadStage | Runtime/Editor/PlayModeSaver.cs:257-262 | reading a fresh selection's roots gives back the very trees it was written from |
| RoundTrip.ReadTrees | Runtime/Editor/PlayModeSaver.cs:257-262 | records laid out as consecutive trees read back as those trees |
| RoundTrip.ParentStage | Runtime/Editor/PlayModeSaver.cs:370-383 | with every root's saved parent a live transform, the parent loop completes, records every sibling index, links each root's copy to its saved parent exactly when it has one and keeps the links made inside each tree |
| RoundTrip.ObjectsStage | Runtime/Editor/PlayModeSaver.cs:305-406 | the created objects, after the internal pass, restore each object of the hierarchy in order |
| RoundTrip.RestoreStage | Runtime/Editor/PlayModeSaver.cs:245-277 | a selection whose roots read back, with or without destroying the originals, restores every object of the hierarchy against the editor objects that remain, rebuilds the links and returns the copies at the root positions |
| RoundTrip.SerializeThenDeserialize | Runtime/Editor/PlayModeSaver.cs:24-48 | with or without destroying the originals, serializing then restoring succeeds, leaves the remaining editor objects, restores every object of the copied hierarchy against them and restores each root with its tree below it (`SelectionRestored`) |
| RoundTrip.RestoreSelection | Runtime/Editor/PlayModeSaver.cs:245-277 | a selection written from the roots' trees and read back as them is restored as `SelectionRestored` says |
| RoundTrip.RootsReturned | Runtime/Editor/PlayModeSaver.cs:266-269 | the roots returned are the copies of the roots, in the roots' order |
| RoundTrip.ForestRootsReturned | Runtime/Editor/PlayModeSaver.cs:266-269 | reading back consecutive trees returns as root k the copy of tree k's root |
| RoundTrip.RootsRestored | Runtime/Editor/PlayModeSaver.cs:245-277 | every root is restored as `RootRestored` says |
| RoundTrip.RootRestoredAt | Runtime/Editor/PlayModeSaver.cs:245-277 | root k's copy is the k-th root returned, holds root k's game object, is linked to the root's own parent exactly when it has one, carries its sibling index and has its subtree rebuilt below it |
| RoundTrip.RootTreesLive | Runtime/Editor/PlayModeSaver.cs:373-377 | the parents the roots' records name are live transforms when the roots' own parents are |
| RoundTrip.RootRecordAt | Runtime/Editor/PlayModeSaver.cs:116-129 | root k's record carries root k's parent, whether it has one, and its sibling index |
| RoundTrip.RootTreeAt | Runtime/Editor/PlayModeSaver.cs:114-149 | root k's tree has the shape of root k's subtree |
| RoundTrip.EncodeTreeShaped | Runtime/Editor/PlayModeSaver.cs:114-149 | with no null component, a subtree is written as a tree of its shape: one component record per component and child i written with sibling index i |
| RoundTrip.EncodeChildrenShaped | Runtime/Editor/PlayModeSaver.cs:147-148 | the children are written in order, each with its sibling index and in the shape of its subtree |
| RoundTrip.ShapedSize | Runtime/Editor/PlayModeSaver.cs:305-323 | a tree of a subtree's shape restores as many objects as the subtree has |
| RoundTrip.TreeRebuilt | Runtime/Editor/PlayModeSaver.cs:286-303 | the links made reading a tree and the sibling indices recorded rebuild the copied subtree: every child under the copy of its parent, at its own sibling index |
| RoundTrip.ChildrenRebuiltFrom | Runtime/Editor/PlayModeSaver.cs:295-299 | each child read is linked to its parent's copy with its sibling index and has its own subtree rebuilt |
| RoundTrip.CopyHandleAt | Runtime/Editor/PlayModeSaver.cs:305-323 | the trees of roots 0..k-1 restore as many objects as their subtrees have |
| RoundTrip.CopyHandleObject | Runtime/Editor/PlayModeSaver.cs:92-102 | the copy position of root k holds root k's game object in the hierarchy's list of objects |
| SavePlayModeObject.FirstMarker | Runtime/SavePlayModeObject.cs:16 | the marker found is the first marker component among the object's components; none exactly when the object has none |
| SavePlayModeObject.AncestorsMeaning | Runtime/SavePlayModeObject.cs:25-35 | the ancestors are exactly the locations strictly above, one per level |
| SavePlayModeObject.AncestorsOrder | Runtime/SavePlayModeObject.cs:28-32 | the ancestors run from the parent up to the scene root |
| SavePlayModeObject.AncestorsValid | Runtime/SavePlayModeObject.cs:25-35 | every ancestor is a transform of the scene |
| SavePlayModeObject.GetAllAncestors | Runtime/SavePlayModeObject.cs:25-35 | the loop collects the ancestors from the parent upwards |
| SavePlayModeObject.SubtreeNodes | Runtime/SavePlayModeObject.cs:37-46 | the subtree's transforms are exactly the subtree's game objects in pre-order |
| SavePlayModeObject.GetAllDescendents | Runtime/SavePlayModeObject.cs:37-46 | the recursion appends the transform and its subtree in pre-order to the given list |
| SavePlayModeObject.AncestorCheckMeaning | Runtime/SavePlayModeObject.cs:11-17 | the ancestor check holds exactly when some transform strictly above carries an enabled marker |
| SavePlayModeObject.AncestorFound | Runtime/SavePlayModeObject.cs:11-17 | a marked ancestor in the list is a marked node strictly above |
| SavePlayModeObject.AncestorListed | Runtime/SavePlayModeObject.cs:11-17 | a marked node strictly above makes the ancestor check hold |
| SavePlayModeObject.StaticCheckMeaning | Runtime/SavePlayModeObject.cs:19-23 | the static check holds exactly when some game object of the subtree, itself included, is static |
| SavePlayModeObject.SelfStaticIsStaticDescendant | Runtime/SavePlayModeObject.cs:19-23 | a static game object fails its own static check |
| SavePlayModeObject.IsValidMeaning | Runtime/SavePlayModeObject.cs:9 | valid exactly when enabled, with no enabled marker above and no static object in the subtree |
| SavePlayModeObject.NestedMarkerInvalid | Runtime/SavePlayModeObject.cs:9-17 | a marker below an enabled marker is never valid |
| SavePlayModeObject.RootMarkerValid | Runtime/SavePlayModeObject.cs:9 | an enabled marker on a scene root with no static object below is valid |
| PlayModeSaver.Serialize | Runtime/Editor/PlayModeSaver.cs:24-28 | returns the selection record of the game objects |
| PlayModeSaver.Serializer.constructor | Runtime/Editor/PlayModeSaver.cs:59-60 | stores the inputs, everything else empty |
| PlayModeSaver.Serializer.Serialize | Runtime/Editor/PlayModeSaver.cs:62-77 | sets the roots, the copied game objects and the list of all objects, and returns the selection record |
| PlayModeSaver.Serializer.CollectTrees | Runtime/Editor/PlayModeSaver.cs:65-71 | the copied game objects are the roots' subtrees in pre-order |
| PlayModeSaver.Serializer.GetAllObjects | Runtime/Editor/PlayModeSaver.cs:92-102 | each copied game object followed by its components |
| PlayModeSaver.Serializer.NodeTargets | Runtime/Editor/PlayModeSaver.cs:97-99 | one game object and its components, as instance targets |
| PlayModeSaver.Serializer.SerializeEach | Runtime/Editor/PlayModeSaver.cs:104-112 | appends for each root its position, its instance id and its subtree's records |
| PlayModeSaver.Serializer.SerializeGameObject | Runtime/Editor/PlayModeSaver.cs:114-149 | appends the subtree's records in pre-order and sets foundStatic for a static object in it |
| PlayModeSaver.Serializer.SerializeChildren | Runtime/Editor/PlayModeSaver.cs:147-148 | appends the records of each child's subtree in turn |
| PlayModeSaver.Serializer.BuildRecord | Runtime/Editor/PlayModeSaver.cs:116-129 | builds the game object's record with parent, sibling index, scene, child count and first-child position |
| PlayModeSaver.Serializer.SerializeComponentsOf | Runtime/Editor/PlayModeSaver.cs:131-136 | the records of the non-null components in order |
| PlayModeSaver.Serializer.SerializeComponent | Runtime/Editor/PlayModeSaver.cs:151-159 | the component's type, data and saved references |
| PlayModeSaver.Serializer.GetInstanceReferenceIDs | Runtime/Editor/PlayModeSaver.cs:161-187 | classifies each object-reference property in turn |
| PlayModeSaver.Serializer.GetTree | Runtime/Editor/PlayModeSaver.cs:189-194 | appends the subtree in pre-order |
| PlayModeSaver.Deserialize | Runtime/Editor/PlayModeSaver.cs:43-48 | fails exactly when `DeserializeSelection` fails, with its error, and otherwise returns its restored roots |
| PlayModeSaver.Deserializer.constructor | Runtime/Editor/PlayModeSaver.cs:231-235 | stores the selection and the flag with empty lists |
| PlayModeSaver.Deserializer.Reset | Runtime/Editor/PlayModeSaver.cs:237-243 | empties the lists of restored objects |
| PlayModeSaver.Deserializer.Deserialize | Runtime/Editor/PlayModeSaver.cs:245-277 | fails exactly when `DeserializeSelection` fails, with its error; on success leaves the editor, the restored objects and the hierarchy it describes, holds one game-object entry and one component entry per object read, in creation order, and returns its roots |
| PlayModeSaver.Deserializer.RestoredRoots | Runtime/Editor/PlayModeSaver.cs:266-269 | the restored game objects whose record is a listed root |
| PlayModeSaver.Deserializer.ReadRootNodes | Runtime/Editor/PlayModeSaver.cs:257-262 | reads each loaded root's tree, failing exactly when `ReadRoots` fails, with its error |
| PlayModeSaver.Deserializer.DestroyOriginals | Runtime/Editor/PlayModeSaver.cs:279-284 | the editor after destroying the saved roots |
| PlayModeSaver.Deserializer.ReadNodeFromSerializedNodes | Runtime/Editor/PlayModeSaver.cs:286-303 | reads one tree, creating its objects and parent links, and returns its last record |
| PlayModeSaver.Deserializer.RestoreGameObject | Runtime/Editor/PlayModeSaver.cs:305-317 | creates the game object and its components, or raises the first type error |
| PlayModeSaver.Deserializer.RestoreComponents | Runtime/Editor/PlayModeSaver.cs:319-323 | creates the components in order, stopping at the first type error |
| PlayModeSaver.Deserializer.RestoreComponent | Runtime/Editor/PlayModeSaver.cs:325-342 | creates one component or raises its type error |
| PlayModeSaver.Deserializer.RestoreObjectReference | Runtime/Editor/PlayModeSaver.cs:344-365 | resolves the external references by instance id |
| PlayModeSaver.Deserializer.RestoreInternalObjectReferences | Runtime/Editor/PlayModeSaver.cs:367-407 | runs the parent loop, then, unless it stopped early, the internal-reference loop, failing as they do |
| PlayModeSaver.SelectionReadFails | Runtime/Editor/PlayModeSaver.cs:257-262 | a failed read makes the whole restore fail with its error |
| PlayModeSaver.RestorationShape | Runtime/Editor/PlayModeSaver.cs:245-277 | the restore is the parent pass and internal pass applied to the objects read |
| PlayModeSaver.RootStep | Runtime/Editor/PlayModeSaver.cs:257-262 | reading one more loaded root extends the trees and objects read |
| PlayModeSaver.NodeRead | Runtime/Editor/PlayModeSaver.cs:286-303 | the record, its children and the links recorded form the tree read |
| PlayModeSaver.GameObjectCreated | Runtime/Editor/PlayModeSaver.cs:305-317 | creating a game object and its components extends the arena by that record's objects |
| PlayModeSaver.InternalStep | Runtime/Editor/PlayModeSaver.cs:386-406 | fixing the first component's references leaves the pass over the rest |
| PlayModeSaver.InternalStepFails | Runtime/Editor/PlayModeSaver.cs:395-400 | a bad index in the first component makes the pass fail with an index error |

## Left out

* Undo is not modelled. This covers the undo groups, registering created
  objects, `Undo.DestroyObjectImmediate` as an undoable step, and the final
  `Undo.SetTransformParent` loop, which re-applies each root's current
  parent and changes nothing in the model.
* `EditorSceneManager.MarkSceneDirty` and the scene dirty flag are not
  modelled.
* `Undo.MoveGameObjectToScene` is not modelled, and neither is its failure
  for a scene that is not loaded. The restored game object keeps its
  record's scene path.
* The `loadedAssemblies` cache is replaced by the `Registry` parameter.
  Loading an assembly twice gives the same answer in the model.
* `Debug.Log`, `Debug.LogWarning` and `Debug.Assert` are not modelled.
  * They do not change behaviour.
  * A failed type lookup becomes the `TypeNotFound` error. In the original,
    the assertion only logs, and `Undo.AddComponent` then raises for the
    missing type.
* World positions are not modelled. `SetParent` becomes a parent link;
  transform positions are not in the model.
* DeserializationLemmas.ParentPassResult: the model records the index each
  `SetSiblingIndex` call is given, not the order of siblings that results.
  That order depends on the order of the calls and on the siblings already
  present, which the comment at Runtime/Editor/PlayModeSaver.cs:253 is
  about.
* The JSON blobs are opaque strings. `FromJsonOverwrite` is modelled as
  setting the object's data to the blob.
* The property iterator is not modelled. An object's reference properties
  are given as its `slots`. The model assumes a restored component's
  iterator yields one object-reference property per saved reference, as it
  does for an object restored from its own blob.
* The state an exception leaves behind is not modelled. A restore that
  raises is a `Failure` value, and the model does not describe the objects
  already created at that point.
* `Undo.AddComponent` returning null is not modelled. An `added` component
  is always created.
* A transform is recognised by its full type name, `UnityEngine.Transform`.
* SavePlayModeObject.FirstMarker: the marker is recognised by its exact
  type name. `GetComponent<SavePlayModeObject>()` would also return a
  component of a subclass of the marker; the model has no subclassing and
  does not recognise those.
* RoundTrip.SerializeThenDeserialize: it assumes loaded scenes, loadable
  types, no null components and live parents of the roots.
  * With null components the saved indices no longer line up with the
    restored objects.
  * Like `ParentPassResult`, it states the sibling index given to each
    copy, not the resulting order of siblings.
* Runtime/Editor/SavePlayModeChangesChecker.cs, the inspector editor and
  Runtime/Editor/DeletePlayModeSaveCreate.cs are not part of this model.
  They are the editor hooks that call the core.
