/**
 * The client-side object registry of `frontend/hooks/use-object-registry.ts`:
 * an id counter, the ordered list of segmentation objects and the selection.
 * The requests it sends to the server are not part of this model.
 */
module ObjectRegistry {
  import opened Common

  datatype SegmentObject = SegmentObject(id: int, name: string, className: string, classId: int, visible: bool)

  /**
   * Ids strictly increase along the list. Creating (without an overlapping
   * create), deleting and toggling keep this, so the list of a registry
   * whose creates never overlap is in creation order.
   */
  ghost predicate IdsIncreasing(objects: seq<SegmentObject>)
  {
    forall i, j :: 0 <= i < j < |objects| ==> objects[i].id < objects[j].id
  }

  /** The `deleteObject` updater `prev.filter(o => o.id !== id)`. */
  function Without(objects: seq<SegmentObject>, id: int): (r: seq<SegmentObject>)
    ensures |r| <= |objects|
  {
    if objects == [] then []
    else
      var rest := Without(objects[1..], id);
      if objects[0].id == id then rest else [objects[0]] + rest
  }

  /** The filter keeps exactly the objects whose id differs from `id`. */
  lemma {:induction false} WithoutMembers(objects: seq<SegmentObject>, id: int)
    ensures forall o :: o in Without(objects, id) <==> o in objects && o.id != id
  {
    if objects != [] {
      WithoutMembers(objects[1..], id);
      assert objects == [objects[0]] + objects[1..];
    }
  }

  /** Filtering keeps ids increasing and below any bound they were below. */
  lemma {:induction false} WithoutKeepsIdsIncreasing(objects: seq<SegmentObject>, id: int, bound: int)
    requires IdsIncreasing(objects)
    requires forall k :: 0 <= k < |objects| ==> objects[k].id < bound
    ensures IdsIncreasing(Without(objects, id))
    ensures forall k :: 0 <= k < |Without(objects, id)| ==> Without(objects, id)[k].id < bound
  {
    if objects != [] {
      var first := objects[0];
      var tail := objects[1..];
      WithoutKeepsIdsIncreasing(tail, id, bound);
      assert forall k :: 0 <= k < |tail| ==> objects[k + 1] == tail[k];
      WithoutKeepsIdsAbove(tail, id, first.id);
      var rest := Without(tail, id);
      if first.id != id {
        var r := [first] + rest;
        assert forall k :: 1 <= k < |r| ==> r[k] == rest[k - 1];
      }
    }
  }

  /** Filtering keeps ids above any bound they were above. */
  lemma {:induction false} WithoutKeepsIdsAbove(objects: seq<SegmentObject>, id: int, bound: int)
    requires forall k :: 0 <= k < |objects| ==> bound < objects[k].id
    ensures forall k :: 0 <= k < |Without(objects, id)| ==> bound < Without(objects, id)[k].id
  {
    if objects != [] {
      WithoutKeepsIdsAbove(objects[1..], id, bound);
    }
  }

  /** Filtering keeps the relative order of the objects it keeps. */
  lemma {:induction false} WithoutDistributes(a: seq<SegmentObject>, b: seq<SegmentObject>, id: int)
    ensures Without(a + b, id) == Without(a, id) + Without(b, id)
  {
    if a == [] {
      assert a + b == b;
    } else {
      assert (a + b)[1..] == a[1..] + b;
      WithoutDistributes(a[1..], b, id);
    }
  }

  /** Deleting an id no object carries changes nothing. */
  lemma {:induction false} WithoutAbsent(objects: seq<SegmentObject>, id: int)
    requires forall k :: 0 <= k < |objects| ==> objects[k].id != id
    ensures Without(objects, id) == objects
  {
    if objects != [] {
      WithoutAbsent(objects[1..], id);
    }
  }

  /** The `toggleVisibility` updater `prev.map(o => o.id === id ? { ...o, visible: !o.visible } : o)`. */
  function Toggled(objects: seq<SegmentObject>, id: int): (r: seq<SegmentObject>)
    ensures |r| == |objects|
    ensures forall k :: 0 <= k < |r| && objects[k].id != id ==> r[k] == objects[k]
    ensures forall k :: 0 <= k < |r| && objects[k].id == id ==>
              r[k] == objects[k].(visible := !objects[k].visible)
  {
    if objects == [] then []
    else
      var o := objects[0];
      var rest := Toggled(objects[1..], id);
      var r := [if o.id == id then o.(visible := !o.visible) else o] + rest;
      assert forall k :: 1 <= k < |r| ==> r[k] == rest[k - 1] && objects[k] == objects[1..][k - 1];
      r
  }

  /** Toggling the same object twice restores the list. */
  lemma ToggleTwice(objects: seq<SegmentObject>, id: int)
    ensures Toggled(Toggled(objects, id), id) == objects
  {
    var once := Toggled(objects, id);
    var twice := Toggled(once, id);
    forall k | 0 <= k < |objects|
      ensures twice[k] == objects[k]
    {
    }
  }

  /** No two objects of the list share an id. */
  ghost predicate IdsDistinct(objects: seq<SegmentObject>)
  {
    forall i, j :: 0 <= i < j < |objects| ==> objects[i].id != objects[j].id
  }

  /** Filtering keeps ids distinct. */
  lemma {:induction false} WithoutKeepsIdsDistinct(objects: seq<SegmentObject>, id: int)
    requires IdsDistinct(objects)
    ensures IdsDistinct(Without(objects, id))
  {
    if objects != [] {
      var tail := objects[1..];
      WithoutKeepsIdsDistinct(tail, id);
      WithoutMembers(tail, id);
      var rest := Without(tail, id);
      if objects[0].id != id {
        var r := [objects[0]] + rest;
        forall i, j | 0 <= i < j < |r|
          ensures r[i].id != r[j].id
        {
          assert r[j] == rest[j - 1] && rest[j - 1] in tail;
          if i == 0 {
            var k :| 0 <= k < |tail| && tail[k] == rest[j - 1];
            assert objects[k + 1] == tail[k];
          } else {
            assert r[i] == rest[i - 1];
          }
        }
      }
    }
  }

  class Registry {
    var objects: seq<SegmentObject>
    var selectedObjectId: Option<int>
    /** `nextIdRef.current`: the id the next created object receives. */
    var nextId: int
    /** The ids taken by `createObject` calls whose request has not settled yet. */
    ghost var pending: set<int>

    /**
     * Every id in use or pending was handed out by the counter, no two
     * objects share an id, and no pending id is in the list yet.
     */
    ghost predicate Valid()
      reads this
    {
      && nextId >= 0
      && IdsDistinct(objects)
      && (forall o :: o in objects ==> 0 <= o.id < nextId && o.id !in pending)
      && (forall p :: p in pending ==> 0 <= p < nextId)
    }

    constructor ()
      ensures Valid()
      ensures objects == [] && selectedObjectId == None && nextId == 0 && pending == {}
    {
      objects := [];
      selectedObjectId := None;
      nextId := 0;
      pending := {};
    }

    /**
     * The part of `createObject` before its `await`: the current counter
     * value becomes the id and the counter advances. The list and the
     * selection are not touched yet.
     */
    method BeginCreate() returns (id: int)
      requires Valid()
      modifies this`nextId, this`pending
      ensures Valid()
      ensures id == old(nextId) && nextId == old(nextId) + 1
      ensures pending == old(pending) + {id}
      ensures forall o :: o in objects ==> o.id < id
      ensures id !in old(pending)
    {
      id := nextId;
      nextId := nextId + 1;
      pending := pending + {id};
    }

    /**
     * The part of `createObject` after its `await`: once the request
     * resolves, a visible object with the id taken earlier is appended and
     * selected; when the request rejects, the exception ends the call and
     * the id stays used up.
     */
    method FinishCreate(id: int, name: string, classId: int, className: string, rejected: bool)
      requires Valid() && id in pending
      modifies this`objects, this`selectedObjectId, this`pending
      ensures Valid()
      ensures pending == old(pending) - {id} && nextId == old(nextId)
      ensures !rejected ==> objects == old(objects) + [SegmentObject(id, name, className, classId, true)]
      ensures !rejected ==> selectedObjectId == Some(id)
      ensures rejected ==> objects == old(objects) && selectedObjectId == old(selectedObjectId)
    {
      pending := pending - {id};
      if !rejected {
        objects := objects + [SegmentObject(id, name, className, classId, true)];
        selectedObjectId := Some(id);
      }
    }

    /**
     * `createObject` when no other create overlaps it and its request
     * resolves: the new id exceeds every id in use, and exactly one visible
     * object is appended and selected.
     */
    method CreateObject(name: string, classId: int, className: string) returns (id: int)
      requires Valid()
      modifies this
      ensures Valid()
      ensures id == old(nextId) && nextId == old(nextId) + 1 && pending == old(pending)
      ensures forall k :: 0 <= k < |old(objects)| ==> old(objects)[k].id < id
      ensures objects == old(objects) + [SegmentObject(id, name, className, classId, true)]
      ensures selectedObjectId == Some(id)
      ensures IdsIncreasing(old(objects)) ==> IdsIncreasing(objects)
    {
      id := BeginCreate();
      FinishCreate(id, name, classId, className, false);
    }

    /** `deleteObject`: removes the object with that id and clears the selection if it was selected. */
    method DeleteObject(id: int)
      requires Valid()
      modifies this
      ensures Valid()
      ensures objects == Without(old(objects), id)
      ensures selectedObjectId == if old(selectedObjectId) == Some(id) then None else old(selectedObjectId)
      ensures nextId == old(nextId) && pending == old(pending)
      ensures IdsIncreasing(old(objects)) ==> IdsIncreasing(objects)
    {
      if IdsIncreasing(objects) {
        WithoutKeepsIdsIncreasing(objects, id, nextId);
      }
      WithoutKeepsIdsDistinct(objects, id);
      WithoutMembers(objects, id);
      objects := Without(objects, id);
      if selectedObjectId == Some(id) {
        selectedObjectId := None;
      }
    }

    /** `toggleVisibility`: flips `visible` of the object with that id and nothing else. */
    method ToggleVisibility(id: int)
      requires Valid()
      modifies this`objects
      ensures Valid()
      ensures objects == Toggled(old(objects), id)
      ensures IdsIncreasing(old(objects)) ==> IdsIncreasing(objects)
    {
      ToggledKeepsIds(objects, id);
      objects := Toggled(objects, id);
    }

    /** `selectObject` is the selection setter itself. */
    method SelectObject(id: Option<int>)
      modifies this`selectedObjectId
      ensures selectedObjectId == id
    {
      selectedObjectId := id;
    }
  }

  /** Toggling keeps every object's id where it was. */
  lemma ToggledKeepsIds(objects: seq<SegmentObject>, id: int)
    ensures forall k :: 0 <= k < |objects| ==> Toggled(objects, id)[k].id == objects[k].id
    ensures forall o :: o in Toggled(objects, id) ==> exists k :: 0 <= k < |objects| && o.id == objects[k].id
  {
    var r := Toggled(objects, id);
    forall o | o in r
      ensures exists k :: 0 <= k < |objects| && o.id == objects[k].id
    {
      var k :| 0 <= k < |r| && r[k] == o;
      assert o.id == objects[k].id;
    }
  }

  /** Ids are never reused: an id deleted and then followed by a creation yields a fresh, larger id. */
  method CreateDeleteCreate() returns (first: int, second: int, count: nat)
    ensures first == 0 && second == 1 && count == 1
  {
    var r := new Registry();
    first := r.CreateObject("a", 0, "person");
    r.DeleteObject(first);
    second := r.CreateObject("b", 0, "person");
    count := |r.objects|;
  }

  /**
   * Two overlapping creates whose requests settle in the opposite order:
   * the later id ends up first in the list, and the object created first
   * is the one left selected.
   */
  method OverlappingCreates() returns (objects: seq<SegmentObject>, selected: Option<int>)
    ensures |objects| == 2 && objects[0].id == 1 && objects[1].id == 0
    ensures selected == Some(0)
  {
    var r := new Registry();
    var a := r.BeginCreate();
    var b := r.BeginCreate();
    r.FinishCreate(b, "b", 0, "person", false);
    r.FinishCreate(a, "a", 0, "person", false);
    objects, selected := r.objects, r.selectedObjectId;
  }

  /** A create whose request rejects appends nothing but still uses up its id. */
  method RejectedCreate() returns (count: nat, next: int)
    ensures count == 0 && next == 1
  {
    var r := new Registry();
    var a := r.BeginCreate();
    r.FinishCreate(a, "a", 0, "person", true);
    count := |r.objects|;
    next := r.BeginCreate();
  }
}
