/**
 * The in-memory mask store of `backend/app/services/mask_store.py`:
 * `store[folder][frame_idx][obj_id] = mask`, built from nested
 * `defaultdict`s, and the per-folder object registry
 * `objects[folder][obj_id] = {"class_id": ...}`.
 *
 * Reading `store[folder]`, `store[folder][frame_idx]` or `objects[folder]`
 * through a `defaultdict` creates the missing entry; every method below
 * states which entries it creates this way. The frame level and the object
 * level of the store are ordered dictionaries, because the export and the
 * overlay iterate over them in insertion order.
 */
module MaskStore {
  import opened Common
  import opened OrderedMaps

  /** The registry value `{"class_id": class_id}`. */
  datatype ObjMeta = ObjMeta(classId: int)

  /** `store[folder][frame_idx]`: object id to mask; a stored `None` stays stored. */
  type FrameMasks = OrderedMap<Option<Mask>>
  /** `store[folder]`: frame index to the frame's masks. */
  type FolderMasks = OrderedMap<FrameMasks>
  type Store = map<string, FolderMasks>
  type Registry = map<string, map<int, ObjMeta>>

  ghost predicate FolderValid(fm: FolderMasks)
  {
    fm.Valid() && forall i :: i in fm.vals ==> fm.vals[i].Valid()
  }

  ghost predicate StoreValid(s: Store)
  {
    forall f :: f in s ==> FolderValid(s[f])
  }

  /** What `store[f]` yields: the folder's frames, or a new empty dictionary. */
  function FolderOf(s: Store, f: string): (r: FolderMasks)
    requires StoreValid(s)
    ensures FolderValid(r)
    ensures f in s ==> r == s[f]
    ensures f !in s ==> r.vals == map[]
  {
    if f in s then s[f] else Empty()
  }

  /** What `store[f][i]` yields within the folder's frames `fm`. */
  function FrameOf(fm: FolderMasks, i: int): (r: FrameMasks)
    requires FolderValid(fm)
    ensures r.Valid()
    ensures i in fm.vals ==> r == fm.vals[i]
    ensures i !in fm.vals ==> r.vals == map[]
  {
    if i in fm.vals then fm.vals[i] else Empty()
  }

  /** What `objects[f]` yields: the folder's registry, or a new empty one. */
  function RegistryOf(objs: Registry, f: string): map<int, ObjMeta>
  {
    if f in objs then objs[f] else map[]
  }

  /** The stored entry `store[f][i][o]`, if there is one (the entry itself may be `None`). */
  function Lookup(s: Store, f: string, i: int, o: int): Option<Option<Mask>>
  {
    if f in s && i in s[f].vals && o in s[f].vals[i].vals then Some(s[f].vals[i].vals[o]) else None
  }

  /** `obj_masks.get(obj_id)`: `None` both for an absent entry and for a stored `None`. */
  function MaskAt(frame: FrameMasks, objId: int): Option<Mask>
  {
    if objId in frame.vals then frame.vals[objId] else None
  }

  /** Whether frame `i` of folder `f` exists. */
  predicate HasFrame(s: Store, f: string, i: int)
  {
    f in s && i in s[f].vals
  }

  /** `store[f][i][o] = m`, creating the folder and the frame when missing. */
  function WithMask(s: Store, f: string, i: int, o: int, m: Option<Mask>): (r: Store)
    requires StoreValid(s)
    ensures StoreValid(r)
    ensures Lookup(r, f, i, o) == Some(m)
    ensures forall f', i', o' :: (f', i', o') != (f, i, o) ==> Lookup(r, f', i', o') == Lookup(s, f', i', o')
    ensures r.Keys == s.Keys + {f}
    ensures forall f', i' :: HasFrame(r, f', i') <==> HasFrame(s, f', i') || (f', i') == (f, i)
  {
    var fm := FolderOf(s, f);
    s[f := Put(fm, i, Put(FrameOf(fm, i), o, m))]
  }

  /** `store[f][i]` read through the `defaultdict`s: the folder and the frame exist afterwards, no mask changes. */
  function WithFrame(s: Store, f: string, i: int): (r: Store)
    requires StoreValid(s)
    ensures StoreValid(r)
    ensures forall f', i', o' :: Lookup(r, f', i', o') == Lookup(s, f', i', o')
    ensures r.Keys == s.Keys + {f}
    ensures forall f', i' :: HasFrame(r, f', i') <==> HasFrame(s, f', i') || (f', i') == (f, i)
    ensures HasFrame(s, f, i) ==> r == s
  {
    var fm := FolderOf(s, f);
    var r := s[f := Put(fm, i, FrameOf(fm, i))];
    assert HasFrame(s, f, i) ==> fm.vals[i := fm.vals[i]] == fm.vals;
    r
  }

  /** `store[f]` read through the `defaultdict`: the folder exists afterwards, nothing else changes. */
  function WithFolder(s: Store, f: string): (r: Store)
    requires StoreValid(s)
    ensures StoreValid(r)
    ensures forall f', i', o' :: Lookup(r, f', i', o') == Lookup(s, f', i', o')
    ensures r.Keys == s.Keys + {f}
    ensures forall f', i' :: HasFrame(r, f', i') <==> HasFrame(s, f', i')
    ensures f in s ==> r == s
  {
    var r := s[f := FolderOf(s, f)];
    assert f in s ==> r == s;
    r
  }

  /** `del store[f][i]` after the folder is read through the `defaultdict`. */
  function WithoutFrame(s: Store, f: string, i: int): (r: Store)
    requires StoreValid(s)
    ensures StoreValid(r)
    ensures r.Keys == s.Keys + {f}
    ensures forall f', i' :: HasFrame(r, f', i') <==> HasFrame(s, f', i') && (f', i') != (f, i)
    ensures forall f', i', o' :: (f', i') != (f, i) ==> Lookup(r, f', i', o') == Lookup(s, f', i', o')
  {
    s[f := Remove(FolderOf(s, f), i)]
  }

  /** `store[f][i].clear()`: the frame exists afterwards, with no masks, in its old place if it had one. */
  function ClearedFrame(s: Store, f: string, i: int): (r: Store)
    requires StoreValid(s)
    ensures StoreValid(r)
    ensures r.Keys == s.Keys + {f}
    ensures forall f', i' :: HasFrame(r, f', i') <==> HasFrame(s, f', i') || (f', i') == (f, i)
    ensures forall o :: Lookup(r, f, i, o) == None
    ensures forall f', i', o' :: (f', i') != (f, i) ==> Lookup(r, f', i', o') == Lookup(s, f', i', o')
    ensures HasFrame(s, f, i) ==> r[f].keys == s[f].keys
  {
    s[f := Put(FolderOf(s, f), i, Clear(FrameOf(FolderOf(s, f), i)))]
  }

  /** The object ids keyed in the frames `frames` of `fm`. */
  function IdsInFrames(fm: FolderMasks, frames: seq<int>): set<int>
  {
    set i, o | i in frames && i in fm.vals && o in fm.vals[i].vals :: o
  }

  /** Adding the keys of one more frame to the ids collected so far. */
  lemma IdsInFramesSnoc(fm: FolderMasks, frames: seq<int>, i: int)
    requires i in fm.vals
    ensures IdsInFrames(fm, frames + [i]) == IdsInFrames(fm, frames) + fm.vals[i].vals.Keys
  {
    var l, r := IdsInFrames(fm, frames + [i]), IdsInFrames(fm, frames) + fm.vals[i].vals.Keys;
    forall o | o in r
      ensures o in l
    {
      if o !in fm.vals[i].vals {
        var j :| j in frames && j in fm.vals && o in fm.vals[j].vals;
        assert j in frames + [i];
      }
    }
  }

  /** Whether `m` is the least member of `s`. */
  predicate IsMin(m: int, s: set<int>)
  {
    m in s && forall y :: y in s ==> m <= y
  }

  /** A non-empty set of integers has a least member. */
  lemma {:induction false} SetHasMin(s: set<int>)
    requires s != {}
    ensures exists m :: IsMin(m, s)
    decreases |s|
  {
    if forall k :: k !in s {
      assert false;
    }
    var x :| x in s;
    if s - {x} == {} {
      assert s == {x};
      assert IsMin(x, s);
    } else {
      SetHasMin(s - {x});
      var m :| IsMin(m, s - {x});
      var least := if x < m then x else m;
      forall y | y in s
        ensures least <= y
      {
        if y != x {
          assert y in s - {x};
        }
      }
      assert IsMin(least, s);
    }
  }

  /** The least member of a non-empty set. */
  function MinOf(s: set<int>): (m: int)
    requires s != {}
    ensures IsMin(m, s)
  {
    SetHasMin(s);
    var m :| IsMin(m, s);
    m
  }

  /** `sorted(s)` for a set of integers. */
  function SortedSet(s: set<int>): (r: seq<int>)
    ensures StrictlyIncreasing(r)
    ensures forall x :: x in r <==> x in s
    ensures |r| == |s|
    decreases |s|
  {
    if s == {} then []
    else
      var m := MinOf(s);
      var rest := SortedSet(s - {m});
      assert forall k :: 0 <= k < |rest| ==> m < rest[k] by {
        forall k | 0 <= k < |rest|
          ensures m < rest[k]
        {
          assert rest[k] in s - {m};
        }
      }
      [m] + rest
  }

  /** The object ids that have an entry in some frame of folder `f`. */
  function MaskIds(s: Store, f: string): set<int>
    requires StoreValid(s)
  {
    var fm := FolderOf(s, f);
    IdsInFrames(fm, fm.keys)
  }

  /** An id is among the folder's mask ids exactly when some frame of the folder holds an entry for it. */
  lemma MaskIdsAreStoredIds(s: Store, f: string, o: int)
    requires StoreValid(s)
    ensures o in MaskIds(s, f) <==> exists i :: Lookup(s, f, i, o).Some?
  {
    var fm := FolderOf(s, f);
    if exists i :: Lookup(s, f, i, o).Some? {
      var i :| Lookup(s, f, i, o).Some?;
      assert i in fm.keys;
    }
    if o in MaskIds(s, f) {
      var i :| i in fm.keys && i in fm.vals && o in fm.vals[i].vals;
      assert Lookup(s, f, i, o).Some?;
    }
  }

  /**
   * The result of `get_global_object_ids(f)`: every object id keyed in some
   * frame of the folder or registered for it, each once, in increasing order.
   */
  function GlobalObjectIds(s: Store, objs: Registry, f: string): (r: seq<int>)
    requires StoreValid(s)
    ensures StrictlyIncreasing(r)
    ensures forall o :: o in r <==> o in MaskIds(s, f) || o in RegistryOf(objs, f)
  {
    SortedSet(MaskIds(s, f) + RegistryOf(objs, f).Keys)
  }

  /** A saved mask makes its object a global id of the folder, whatever the registry holds. */
  lemma SavedObjectIsGlobal(s: Store, objs: Registry, f: string, i: int, o: int, m: Option<Mask>)
    requires StoreValid(s)
    ensures o in GlobalObjectIds(WithMask(s, f, i, o, m), objs, f)
  {
    MaskIdsAreStoredIds(WithMask(s, f, i, o, m), f, o);
  }

  /** An object keyed in a folder after one of its frames is cleared was keyed there before. */
  lemma ClearingShrinksMaskIds(s: Store, f: string, i: int, o: int)
    requires StoreValid(s)
    requires o in MaskIds(ClearedFrame(s, f, i), f)
    ensures o in MaskIds(s, f)
  {
    var r := ClearedFrame(s, f, i);
    MaskIdsAreStoredIds(r, f, o);
    var j :| Lookup(r, f, j, o).Some?;
    assert Lookup(s, f, j, o).Some?;
    MaskIdsAreStoredIds(s, f, o);
  }

  /** Clearing a frame can only shrink the global ids of its folder. */
  lemma ClearingShrinksGlobalIds(s: Store, objs: Registry, f: string, i: int, o: int)
    requires StoreValid(s)
    requires o in GlobalObjectIds(ClearedFrame(s, f, i), objs, f)
    ensures o in GlobalObjectIds(s, objs, f)
  {
    if o !in RegistryOf(objs, f) {
      ClearingShrinksMaskIds(s, f, i, o);
    }
  }

  /**
   * The service object `MASK_STORE`: the nested mask table and the object
   * registry, both changed in place by its methods.
   */
  class MaskStore {
    var store: Store
    var objects: Registry

    ghost predicate Valid()
      reads this
    {
      StoreValid(store)
    }

    constructor ()
      ensures Valid() && store == map[] && objects == map[]
    {
      store := map[];
      objects := map[];
    }

    /** `save_mask(folder, frame_idx, obj_id, mask)` */
    method SaveMask(folder: string, frameIdx: int, objId: int, mask: Option<Mask>)
      requires Valid()
      modifies this`store
      ensures Valid()
      ensures store == WithMask(old(store), folder, frameIdx, objId, mask)
    {
      var fm := FolderOf(store, folder);
      var frame := FrameOf(fm, frameIdx);
      store := store[folder := Put(fm, frameIdx, Put(frame, objId, mask))];
    }

    /**
     * `get_masks(folder, frame_idx)`: the frame's masks, the folder and the
     * frame being created empty when missing.
     */
    method GetMasks(folder: string, frameIdx: int) returns (masks: FrameMasks)
      requires Valid()
      modifies this`store
      ensures Valid()
      ensures store == WithFrame(old(store), folder, frameIdx)
      ensures masks == store[folder].vals[frameIdx]
      ensures forall o :: o in masks.vals <==> Lookup(old(store), folder, frameIdx, o).Some?
      ensures forall o :: o in masks.vals ==> Lookup(old(store), folder, frameIdx, o) == Some(masks.vals[o])
    {
      var fm := FolderOf(store, folder);
      masks := FrameOf(fm, frameIdx);
      store := store[folder := Put(fm, frameIdx, masks)];
    }

    /** `delete_masks(folder, frame_idx)`: reports whether the frame was there. */
    method DeleteMasks(folder: string, frameIdx: int) returns (deleted: bool)
      requires Valid()
      modifies this`store
      ensures Valid()
      ensures deleted <==> HasFrame(old(store), folder, frameIdx)
      ensures store == WithoutFrame(old(store), folder, frameIdx)
    {
      var fm := FolderOf(store, folder);
      store := store[folder := fm];
      if frameIdx in fm.vals {
        store := store[folder := Remove(fm, frameIdx)];
        return true;
      }
      DropAbsent(fm.keys, frameIdx);
      assert Remove(fm, frameIdx) == fm;
      return false;
    }

    /** `delete_masks_folder(folder)`: the folder leaves both tables; other folders are untouched. */
    method DeleteMasksFolder(folder: string)
      requires Valid()
      modifies this
      ensures Valid()
      ensures store == old(store) - {folder}
      ensures objects == old(objects) - {folder}
    {
      if folder in store {
        store := store - {folder};
      }
      if folder in objects {
        objects := objects - {folder};
      }
    }

    /** `clear_frame(folder, frame_idx)` */
    method ClearFrame(folder: string, frameIdx: int)
      requires Valid()
      modifies this`store
      ensures Valid()
      ensures store == ClearedFrame(old(store), folder, frameIdx)
    {
      var fm := FolderOf(store, folder);
      var frame := FrameOf(fm, frameIdx);
      store := store[folder := Put(fm, frameIdx, Clear(frame))];
    }

    /** `create_obj_id(folder, obj_id, class_id)`: sets the entry, replacing any earlier one. */
    method CreateObjId(folder: string, objId: int, classId: int)
      modifies this`objects
      ensures objects == old(objects)[folder := RegistryOf(old(objects), folder)[objId := ObjMeta(classId)]]
    {
      objects := objects[folder := RegistryOf(objects, folder)[objId := ObjMeta(classId)]];
    }

    /** `delete_obj_id(folder, obj_id)`: removes that id if present and never fails. */
    method DeleteObjId(folder: string, objId: int)
      modifies this`objects
      ensures objects == old(objects)[folder := RegistryOf(old(objects), folder) - {objId}]
    {
      objects := objects[folder := RegistryOf(objects, folder) - {objId}];
    }

    /** `get_obj_metadata(folder, obj_id)`; the folder's registry is created empty when missing. */
    method GetObjMetadata(folder: string, objId: int) returns (meta: Option<ObjMeta>)
      modifies this`objects
      ensures objects == old(objects)[folder := RegistryOf(old(objects), folder)]
      ensures meta.Some? <==> objId in RegistryOf(old(objects), folder)
      ensures meta.Some? ==> meta.value == RegistryOf(old(objects), folder)[objId]
    {
      var reg := RegistryOf(objects, folder);
      objects := objects[folder := reg];
      meta := if objId in reg then Some(reg[objId]) else None;
    }

    /**
     * `get_global_object_ids(folder)`: the ids keyed in the folder's frames,
     * collected frame by frame, joined with the registered ids and sorted.
     * Both the folder and its registry are created empty when missing.
     */
    method GetGlobalObjectIds(folder: string) returns (ids: seq<int>)
      requires Valid()
      modifies this
      ensures Valid()
      ensures store == WithFolder(old(store), folder)
      ensures objects == old(objects)[folder := RegistryOf(old(objects), folder)]
      ensures ids == GlobalObjectIds(old(store), old(objects), folder)
    {
      var fromMasks := CollectMaskIds(FolderOf(store, folder));
      store := WithFolder(store, folder);
      var reg := RegistryOf(objects, folder);
      objects := objects[folder := reg];
      ids := SortedSet(fromMasks + reg.Keys);
    }
  }

  /**
   * The loop of `get_global_object_ids`: `ids_from_masks.update(objects.keys())`
   * for each frame of the folder in turn.
   */
  method CollectMaskIds(fm: FolderMasks) returns (ids: set<int>)
    requires FolderValid(fm)
    ensures ids == IdsInFrames(fm, fm.keys)
  {
    ids := {};
    var k := 0;
    while k < |fm.keys|
      invariant 0 <= k <= |fm.keys|
      invariant ids == IdsInFrames(fm, fm.keys[..k])
    {
      var i := fm.keys[k];
      IdsInFramesSnoc(fm, fm.keys[..k], i);
      assert fm.keys[..k + 1] == fm.keys[..k] + [i];
      ids := ids + fm.vals[i].vals.Keys;
      k := k + 1;
    }
    assert fm.keys[..k] == fm.keys;
  }

  /** Saving a mask and then reading the frame gives back that mask, with the frame's other entries kept. */
  method SaveThenGet(folder: string, frameIdx: int, objId: int, mask: Option<Mask>) returns (read: FrameMasks, deleted: bool, again: bool)
    ensures objId in read.vals && read.vals[objId] == mask
    ensures deleted && !again
  {
    var ms := new MaskStore();
    ms.SaveMask(folder, frameIdx, objId, mask);
    read := ms.GetMasks(folder, frameIdx);
    deleted := ms.DeleteMasks(folder, frameIdx);
    again := ms.DeleteMasks(folder, frameIdx);
  }
}
