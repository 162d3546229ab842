/**
 * The export endpoints `save_segmentations_png` and
 * `save_segmentations_json` of `backend/app/api/save.py`. For each frame of
 * the folder, in insertion order, and each global object id, in increasing
 * order, the stored mask is written to `{obj_id}_{class_name}/{frame:05d}`
 * with the endpoint's extension; a missing mask is skipped, or written as an
 * all-zero "negative" when `save_negatives` is set. The files are returned
 * as a list of writes; creating directories and encoding the files are not
 * modelled. An exception that escapes the loops (the server answers 500) is
 * the status `Crashed`, with the files written before it.
 */
module SaveSegmentations {
  import opened Common
  import opened Text
  import opened OrderedMaps
  import opened MaskStore

  datatype Format = Png | Json

  /** One file: its object directory, its file name and the pixel grid stored in it. */
  datatype FileWrite = FileWrite(dir: string, name: string, data: seq<seq<int>>)

  /** The endpoint's answer: `{"saved": n, ...}`, an `HTTPException`, or an unhandled exception. */
  datatype Status = Saved(count: nat) | Rejected(error: HttpError) | Crashed

  /** The request flag, the endpoint, the folder's registry `obj_meta`, and `COCO_LABELS`. */
  datatype Settings = Settings(saveNegatives: bool, format: Format, meta: map<int, ObjMeta>, labels: map<int, string>)

  /** Where the loops stand: the files written so far, and whether an exception escaped. */
  datatype Progress = Progress(written: seq<FileWrite>, crashed: bool)

  const Start := Progress([], false)

  /** `obj_meta.get(obj_id, {}).get("class_id", -1)` */
  function ClassId(meta: map<int, ObjMeta>, objId: int): int
  {
    if objId in meta then meta[objId].classId else -1
  }

  /** `COCO_LABELS[class_id]` for a known class, `"unknown"` otherwise. */
  function ClassName(labels: map<int, string>, classId: int): string
  {
    if classId in labels then labels[classId] else "unknown"
  }

  /** `f"{obj_id}_{class_name}"` */
  function DirName(objId: int, st: Settings): string
  {
    IntToString(objId) + "_" + ClassName(st.labels, ClassId(st.meta, objId))
  }

  /** `f"{frame_idx:05d}.png"` or `f"{frame_idx:05d}.json"` */
  function FileName(frameIdx: int, format: Format): string
  {
    Format05d(frameIdx) + (if format == Png then ".png" else ".json")
  }

  /**
   * What is stored for a mask: `(mask * 255).astype("uint8")` for a PNG,
   * the values themselves (`mask.tolist()`) for JSON.
   */
  function Encode(m: Mask, format: Format): (r: seq<seq<int>>)
    ensures |r| == |m.pixels|
    ensures forall y :: 0 <= y < |r| ==> |r[y]| == |m.pixels[y]|
    ensures format == Json ==> r == m.pixels
    ensures format == Png ==> forall y, x :: 0 <= y < |r| && 0 <= x < |r[y]| ==>
              0 <= r[y][x] < 256 && (m.pixels[y][x] == 0 ==> r[y][x] == 0) && (m.pixels[y][x] == 1 ==> r[y][x] == 255)
  {
    if format == Json then m.pixels
    else seq(|m.pixels|, y requires 0 <= y < |m.pixels| =>
           seq(|m.pixels[y]|, x requires 0 <= x < |m.pixels[y]| => (m.pixels[y][x] * 255) % 256))
  }

  /**
   * The negative for a frame: zeros shaped like `next(iter(obj_masks.values()))`.
   * `None` when that raises: the frame is empty (`StopIteration`) or its
   * first value is `None` (no `.shape`).
   */
  function NegativeFor(frame: FrameMasks): (r: Option<Mask>)
    requires frame.Valid()
    ensures r.Some? <==> |frame.keys| > 0 && MaskAt(frame, frame.keys[0]).Some?
    ensures r.Some? ==> exists o :: MaskAt(frame, o).Some? && r.value == Zeros(MaskAt(frame, o).value.height, MaskAt(frame, o).value.width)
  {
    if |frame.keys| == 0 then None
    else
      var first := frame.keys[0];
      assert first in frame.keys;
      match frame.vals[first]
      case None => None
      case Some(m) => Some(Zeros(m.height, m.width))
  }

  function WriteOf(frameIdx: int, objId: int, m: Mask, st: Settings): FileWrite
  {
    FileWrite(DirName(objId, st), FileName(frameIdx, st.format), Encode(m, st.format))
  }

  /** One turn of the inner loop, for frame `frameIdx` and object `objId`. */
  function StepPair(p: Progress, frame: FrameMasks, frameIdx: int, objId: int, st: Settings): Progress
    requires frame.Valid()
  {
    if p.crashed then p
    else match MaskAt(frame, objId)
      case Some(m) => Progress(p.written + [WriteOf(frameIdx, objId, m, st)], false)
      case None =>
        if !st.saveNegatives then p
        else match NegativeFor(frame)
          case None => Progress(p.written, true)
          case Some(z) => Progress(p.written + [WriteOf(frameIdx, objId, z, st)], false)
  }

  /** The inner loop over the global ids `ids` for one frame. */
  function ObjectsLoop(p: Progress, frame: FrameMasks, frameIdx: int, ids: seq<int>, st: Settings): Progress
    requires frame.Valid()
    decreases |ids|
  {
    if ids == [] then p
    else StepPair(ObjectsLoop(p, frame, frameIdx, ids[..|ids| - 1], st), frame, frameIdx, ids[|ids| - 1], st)
  }

  /** The outer loop over the frames `frames` of the folder `fm`. */
  function FramesLoop(p: Progress, fm: FolderMasks, frames: seq<int>, ids: seq<int>, st: Settings): Progress
    requires FolderValid(fm)
    decreases |frames|
  {
    if frames == [] then p
    else
      var i := frames[|frames| - 1];
      ObjectsLoop(FramesLoop(p, fm, frames[..|frames| - 1], ids, st), FrameOf(fm, i), i, ids, st)
  }

  /**
   * What either endpoint answers and writes for `folder`: 400 when the
   * folder path escapes the uploads root, 404 when the store has no such
   * folder, otherwise the result of the loops.
   */
  function Export(s: Store, objs: Registry, folder: string, resolved: string, root: string,
                  saveNegatives: bool, format: Format, labels: map<int, string>): (r: (Status, seq<FileWrite>))
    requires StoreValid(s)
    ensures r.0.Rejected? && r.0.error.status == 400 <==> !StartsWith(resolved, root)
    ensures r.0.Rejected? && r.0.error.status == 404 <==> StartsWith(resolved, root) && folder !in s
    ensures r.0.Rejected? ==> r.1 == []
    ensures r.0.Saved? ==> r.0.count == |r.1|
    ensures StartsWith(resolved, root) && folder in s ==>
              var p := FramesLoop(Start, s[folder], s[folder].keys, GlobalObjectIds(s, objs, folder),
                                  Settings(saveNegatives, format, RegistryOf(objs, folder), labels));
              !r.0.Rejected? && r.1 == p.written && (r.0.Crashed? <==> p.crashed)
  {
    if !StartsWith(resolved, root) then (Rejected(HttpError(400, "Invalid folder name")), [])
    else if folder !in s then (Rejected(HttpError(404, "No masks found for the given folder")), [])
    else
      var st := Settings(saveNegatives, format, RegistryOf(objs, folder), labels);
      var p := FramesLoop(Start, s[folder], s[folder].keys, GlobalObjectIds(s, objs, folder), st);
      if p.crashed then (Crashed, p.written) else (Saved(|p.written|), p.written)
  }

  /**
   * Either endpoint on the store `ms`: the request is checked, the global ids
   * are fetched (which creates the folder's registry if missing), and the
   * nested loops write one file per selected (frame, object) pair.
   */
  method SaveSegmentations(ms: MaskStore, folder: string, resolved: string, root: string,
                           saveNegatives: bool, format: Format, labels: map<int, string>)
    returns (status: Status, written: seq<FileWrite>)
    requires ms.Valid()
    modifies ms
    ensures ms.Valid() && ms.store == old(ms.store)
    ensures status.Rejected? ==> ms.objects == old(ms.objects)
    ensures !status.Rejected? ==> ms.objects == old(ms.objects)[folder := RegistryOf(old(ms.objects), folder)]
    ensures (status, written) == Export(old(ms.store), old(ms.objects), folder, resolved, root, saveNegatives, format, labels)
  {
    if !StartsWith(resolved, root) {
      return Rejected(HttpError(400, "Invalid folder name")), [];
    }
    if folder !in ms.store {
      return Rejected(HttpError(404, "No masks found for the given folder")), [];
    }
    var st := Settings(saveNegatives, format, RegistryOf(ms.objects, folder), labels);
    var ids := ms.GetGlobalObjectIds(folder);
    var crashed;
    written, crashed := WriteFolder(ms.store[folder], ids, st);
    status := if crashed then Crashed else Saved(|written|);
  }

  /** The outer loop: every frame of the folder in insertion order; it stops at the first exception. */
  method WriteFolder(fm: FolderMasks, ids: seq<int>, st: Settings) returns (written: seq<FileWrite>, crashed: bool)
    requires FolderValid(fm)
    ensures FramesLoop(Start, fm, fm.keys, ids, st) == Progress(written, crashed)
  {
    written := [];
    var a := 0;
    while a < |fm.keys|
      invariant 0 <= a <= |fm.keys|
      invariant FramesLoop(Start, fm, fm.keys[..a], ids, st) == Progress(written, false)
    {
      var i := fm.keys[a];
      assert fm.keys[..a + 1][..a] == fm.keys[..a];
      written, crashed := WriteFrame(written, fm.vals[i], i, ids, st);
      if crashed {
        FramesLoopCrashStays(Start, fm, fm.keys, a + 1, ids, st);
        assert fm.keys[..|fm.keys|] == fm.keys;
        return;
      }
      a := a + 1;
    }
    assert fm.keys[..a] == fm.keys;
    crashed := false;
  }

  /**
   * The inner loop for frame `frameIdx`, appending to the files written so
   * far; it stops at the first exception.
   */
  method WriteFrame(before: seq<FileWrite>, frame: FrameMasks, frameIdx: int, ids: seq<int>, st: Settings)
    returns (written: seq<FileWrite>, crashed: bool)
    requires frame.Valid()
    ensures ObjectsLoop(Progress(before, false), frame, frameIdx, ids, st) == Progress(written, crashed)
  {
    written := before;
    var b := 0;
    while b < |ids|
      invariant 0 <= b <= |ids|
      invariant ObjectsLoop(Progress(before, false), frame, frameIdx, ids[..b], st) == Progress(written, false)
    {
      var o := ids[b];
      assert ids[..b + 1][..b] == ids[..b];
      assert ObjectsLoop(Progress(before, false), frame, frameIdx, ids[..b + 1], st)
          == StepPair(Progress(written, false), frame, frameIdx, o, st);
      var mask := MaskAt(frame, o);
      if mask.None? && !st.saveNegatives {
        b := b + 1;
        continue;
      }
      if mask.None? {
        mask := NegativeFor(frame);
        if mask.None? {
          ObjectsLoopCrashStays(Progress(before, false), frame, frameIdx, ids, b + 1, st);
          return written, true;
        }
      }
      written := written + [WriteOf(frameIdx, o, mask.value, st)];
      b := b + 1;
    }
    assert ids[..b] == ids;
    crashed := false;
  }

  /** Once an exception has escaped, the inner loop runs no further: its result is fixed. */
  lemma {:induction false} ObjectsLoopCrashStays(p: Progress, frame: FrameMasks, frameIdx: int, ids: seq<int>, n: nat, st: Settings)
    requires frame.Valid() && n <= |ids|
    requires ObjectsLoop(p, frame, frameIdx, ids[..n], st).crashed
    ensures ObjectsLoop(p, frame, frameIdx, ids, st) == ObjectsLoop(p, frame, frameIdx, ids[..n], st)
    decreases |ids| - n
  {
    if n == |ids| {
      assert ids[..n] == ids;
    } else {
      var init := ids[..|ids| - 1];
      assert init[..n] == ids[..n];
      ObjectsLoopCrashStays(p, frame, frameIdx, init, n, st);
    }
  }

  /** Once an exception has escaped, the outer loop runs no further either. */
  lemma {:induction false} FramesLoopCrashStays(p: Progress, fm: FolderMasks, frames: seq<int>, n: nat, ids: seq<int>, st: Settings)
    requires FolderValid(fm) && n <= |frames|
    requires FramesLoop(p, fm, frames[..n], ids, st).crashed
    ensures FramesLoop(p, fm, frames, ids, st) == FramesLoop(p, fm, frames[..n], ids, st)
    decreases |frames| - n
  {
    if n == |frames| {
      assert frames[..n] == frames;
    } else {
      var init := frames[..|frames| - 1];
      assert init[..n] == frames[..n];
      FramesLoopCrashStays(p, fm, init, n, ids, st);
      var q := FramesLoop(p, fm, init, ids, st);
      var last := frames[|frames| - 1];
      assert ids[..0] == [];
      ObjectsLoopCrashStays(q, FrameOf(fm, last), last, ids, 0, st);
    }
  }

  /** A pair is skipped, leaving everything as it was, exactly when its mask is missing and negatives are off. */
  lemma StepPairSkips(p: Progress, frame: FrameMasks, frameIdx: int, objId: int, st: Settings)
    requires frame.Valid() && !p.crashed
    ensures StepPair(p, frame, frameIdx, objId, st) == p <==> MaskAt(frame, objId).None? && !st.saveNegatives
  {
  }

  /**
   * A written pair holds the stored mask, or, for a missing mask, zeros
   * shaped like the frame's first mask; it goes to the object's directory
   * under the frame's file name.
   */
  lemma StepPairWrites(p: Progress, frame: FrameMasks, frameIdx: int, objId: int, st: Settings)
    requires frame.Valid() && !p.crashed
    ensures var r := StepPair(p, frame, frameIdx, objId, st);
            !r.crashed && r != p ==>
              && r.written == p.written + [r.written[|r.written| - 1]]
              && r.written[|r.written| - 1].dir == DirName(objId, st)
              && r.written[|r.written| - 1].name == FileName(frameIdx, st.format)
              && (MaskAt(frame, objId).Some? ==> r.written[|r.written| - 1].data == Encode(MaskAt(frame, objId).value, st.format))
              && (MaskAt(frame, objId).None? ==> r.written[|r.written| - 1].data == Encode(NegativeFor(frame).value, st.format))
  {
  }

  /** The number of ids in `ids` that have a mask in `frame`. */
  function PresentIn(frame: FrameMasks, ids: seq<int>): nat
    decreases |ids|
  {
    if ids == [] then 0
    else PresentIn(frame, ids[..|ids| - 1]) + (if MaskAt(frame, ids[|ids| - 1]).Some? then 1 else 0)
  }

  /** The number of (frame, id) pairs over `frames` and `ids` that have a mask. */
  function PresentPairs(fm: FolderMasks, frames: seq<int>, ids: seq<int>): nat
    requires FolderValid(fm)
    decreases |frames|
  {
    if frames == [] then 0
    else PresentPairs(fm, frames[..|frames| - 1], ids) + PresentIn(FrameOf(fm, frames[|frames| - 1]), ids)
  }

  /** Without a crash the inner loop writes one file per id with negatives on, one per present mask otherwise. */
  lemma {:induction false} ObjectsLoopCount(p: Progress, frame: FrameMasks, frameIdx: int, ids: seq<int>, st: Settings)
    requires frame.Valid()
    requires !ObjectsLoop(p, frame, frameIdx, ids, st).crashed
    ensures !p.crashed
    ensures |ObjectsLoop(p, frame, frameIdx, ids, st).written|
         == |p.written| + if st.saveNegatives then |ids| else PresentIn(frame, ids)
    decreases |ids|
  {
    if ids != [] {
      ObjectsLoopCount(p, frame, frameIdx, ids[..|ids| - 1], st);
    }
  }

  /** Without a crash the loops write |frames| * |ids| files with negatives on, one per present mask otherwise. */
  lemma {:induction false} FramesLoopCount(p: Progress, fm: FolderMasks, frames: seq<int>, ids: seq<int>, st: Settings)
    requires FolderValid(fm)
    requires !FramesLoop(p, fm, frames, ids, st).crashed
    ensures !p.crashed
    ensures |FramesLoop(p, fm, frames, ids, st).written|
         == |p.written| + if st.saveNegatives then |frames| * |ids| else PresentPairs(fm, frames, ids)
    decreases |frames|
  {
    if frames != [] {
      var init := frames[..|frames| - 1];
      var last := frames[|frames| - 1];
      ObjectsLoopCount(FramesLoop(p, fm, init, ids, st), FrameOf(fm, last), last, ids, st);
      FramesLoopCount(p, fm, init, ids, st);
      assert |frames| * |ids| == |init| * |ids| + |ids|;
    }
  }

  /**
   * The `saved` count: the number of (frame, global id) pairs with a mask,
   * or frames times global ids when negatives are saved.
   */
  lemma SavedCount(s: Store, objs: Registry, folder: string, resolved: string, root: string,
                   saveNegatives: bool, format: Format, labels: map<int, string>)
    requires StoreValid(s)
    requires Export(s, objs, folder, resolved, root, saveNegatives, format, labels).0.Saved?
    ensures folder in s
    ensures Export(s, objs, folder, resolved, root, saveNegatives, format, labels).0.count
         == if saveNegatives then |s[folder].keys| * |GlobalObjectIds(s, objs, folder)|
            else PresentPairs(s[folder], s[folder].keys, GlobalObjectIds(s, objs, folder))
  {
    var st := Settings(saveNegatives, format, RegistryOf(objs, folder), labels);
    FramesLoopCount(Start, s[folder], s[folder].keys, GlobalObjectIds(s, objs, folder), st);
  }

  /**
   * The inner loop crashes exactly when negatives are on, the frame has no
   * mask to take a shape from, and some id lacks a mask in it.
   */
  lemma {:induction false} ObjectsLoopCrash(p: Progress, frame: FrameMasks, frameIdx: int, ids: seq<int>, st: Settings)
    requires frame.Valid() && !p.crashed
    ensures ObjectsLoop(p, frame, frameIdx, ids, st).crashed <==>
              st.saveNegatives && NegativeFor(frame).None? && exists o :: o in ids && MaskAt(frame, o).None?
    decreases |ids|
  {
    if ids != [] {
      var init := ids[..|ids| - 1];
      ObjectsLoopCrash(p, frame, frameIdx, init, st);
      assert forall o :: o in ids <==> o in init || o == ids[|ids| - 1];
    }
  }

  /** The two endpoints differ only in what they store: their loops run alike and crash alike. */
  lemma {:induction false} ObjectsLoopFormatBlind(p: Progress, q: Progress, frame: FrameMasks, frameIdx: int, ids: seq<int>, st: Settings, format: Format)
    requires frame.Valid()
    requires p.crashed == q.crashed && |p.written| == |q.written|
    ensures ObjectsLoop(p, frame, frameIdx, ids, st).crashed == ObjectsLoop(q, frame, frameIdx, ids, st.(format := format)).crashed
    ensures |ObjectsLoop(p, frame, frameIdx, ids, st).written| == |ObjectsLoop(q, frame, frameIdx, ids, st.(format := format)).written|
    decreases |ids|
  {
    if ids != [] {
      ObjectsLoopFormatBlind(p, q, frame, frameIdx, ids[..|ids| - 1], st, format);
    }
  }

  lemma {:induction false} FramesLoopFormatBlind(fm: FolderMasks, frames: seq<int>, ids: seq<int>, st: Settings, format: Format)
    requires FolderValid(fm)
    ensures FramesLoop(Start, fm, frames, ids, st).crashed == FramesLoop(Start, fm, frames, ids, st.(format := format)).crashed
    ensures |FramesLoop(Start, fm, frames, ids, st).written| == |FramesLoop(Start, fm, frames, ids, st.(format := format)).written|
    decreases |frames|
  {
    if frames != [] {
      var init := frames[..|frames| - 1];
      var last := frames[|frames| - 1];
      FramesLoopFormatBlind(fm, init, ids, st, format);
      ObjectsLoopFormatBlind(FramesLoop(Start, fm, init, ids, st), FramesLoop(Start, fm, init, ids, st.(format := format)),
        FrameOf(fm, last), last, ids, st, format);
    }
  }

  /** The JSON endpoint answers exactly as the PNG endpoint does for the same store, `saved` count included. */
  lemma JsonReportsAsPng(s: Store, objs: Registry, folder: string, resolved: string, root: string,
                         saveNegatives: bool, labels: map<int, string>)
    requires StoreValid(s)
    ensures Export(s, objs, folder, resolved, root, saveNegatives, Json, labels).0
         == Export(s, objs, folder, resolved, root, saveNegatives, Png, labels).0
  {
    if StartsWith(resolved, root) && folder in s {
      var st := Settings(saveNegatives, Png, RegistryOf(objs, folder), labels);
      FramesLoopFormatBlind(s[folder], s[folder].keys, GlobalObjectIds(s, objs, folder), st, Json);
    }
  }

  /** Distinct objects get distinct directories, whatever their class names. */
  lemma DirNamesDiffer(o1: int, o2: int, st: Settings)
    requires o1 != o2
    ensures DirName(o1, st) != DirName(o2, st)
  {
    var a, b := IntToString(o1), IntToString(o2);
    var d1, d2 := DirName(o1, st), DirName(o2, st);
    if d1 == d2 {
      if |a| == |b| {
        assert d1[..|a|] == a && d2[..|b|] == b;
        IntToStringInjective(o1, o2);
      } else if |a| < |b| {
        assert d1[|a|] == '_' && d2[|a|] == b[|a|];
        IntToStringHasNoUnderscore(o2, |a|);
      } else {
        assert d2[|b|] == '_' && d1[|b|] == a[|b|];
        IntToStringHasNoUnderscore(o1, |b|);
      }
    }
  }

  /** An object absent from the registry, or whose class has no label, goes to `{obj_id}_unknown`. */
  lemma UnknownClassDirectory(objId: int, st: Settings)
    requires objId !in st.meta || st.meta[objId].classId !in st.labels
    requires -1 !in st.labels
    ensures DirName(objId, st) == IntToString(objId) + "_unknown"
  {
  }

  /** A frame index below 100000 is named by exactly five digits that read back as the index, then the extension. */
  lemma FileNameOfFrame(frameIdx: int, format: Format)
    requires 0 <= frameIdx < 100000
    ensures var n := FileName(frameIdx, format);
            && AllDigits(n[..5]) && ParseDecimal(n[..5]) == frameIdx
            && n[5..] == (if format == Png then ".png" else ".json")
  {
    Format05dRoundTrip(frameIdx);
    var n := FileName(frameIdx, format);
    assert n[..5] == Format05d(frameIdx);
  }
}
