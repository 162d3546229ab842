/**
 * The frame bitmap buffer of `frontend/hooks/use-frame-buffer.ts`: decoded
 * bitmaps by frame index, pending loads by frame index, the prefetch window
 * fetched in batches, and the eviction window around the cursor.
 *
 * The asynchronous `loadFrame` is split in two events on one logical thread:
 * `LoadFrame` (the synchronous part, up to registering the pending load) and
 * `CompleteLoad` (the promise's continuation). A pending load is identified by
 * a `Ticket`. Fetching and decoding are not modelled: a load's outcome is
 * given to `CompleteLoad` as a bitmap or a failure.
 */
module FrameBuffer {
  import opened Common

  /** `DEFAULT_PREFETCH_RADIUS` */
  const PrefetchRadius: int := 60
  /** `DEFAULT_MAX_CACHE` */
  const MaxCache: int := 180
  /** `PREFETCH_CONCURRENCY` */
  const PrefetchConcurrency: nat := 6

  /** An opaque decoded image (`ImageBitmap`); `handle` is its object identity. */
  datatype Bitmap = Bitmap(handle: nat)

  /** The identity of one pending load, that is of one promise. */
  type Ticket = nat

  /** What `loadFrame` hands back: `null`, an already decoded bitmap, or a pending load. */
  datatype Load = NoFrame | Cached(bitmap: Bitmap) | InFlight(ticket: Ticket)

  function Max(a: int, b: int): int { if a >= b then a else b }
  function Min(a: int, b: int): int { if a <= b then a else b }

  /** First index of the prefetch window, `Math.max(0, currentFrame - Math.floor(bufferRadius / 2))`. */
  function PrefetchStart(cur: int, radius: int): int
  {
    Max(0, cur - radius / 2)
  }

  /** Last index of the prefetch window, `Math.min(images.length - 1, currentFrame + bufferRadius)`. */
  function PrefetchEnd(n: int, cur: int, radius: int): int
  {
    Min(n - 1, cur + radius)
  }

  /** Lowest index the eviction pass keeps. */
  function EvictLow(cur: int, maxCache: int): int
  {
    Max(0, cur - maxCache)
  }

  /** Highest index the eviction pass keeps. */
  function EvictHigh(n: int, cur: int, maxCache: int): int
  {
    Min(n - 1, cur + maxCache)
  }

  /** The indices of `[lo, hi]` that are not in `cached`, in increasing order. */
  function Missing(lo: int, hi: int, cached: set<int>): seq<int>
    decreases hi - lo
  {
    if lo > hi then []
    else Missing(lo, hi - 1, cached) + (if hi in cached then [] else [hi])
  }

  /** The prefetch list holds, in increasing order, exactly the window's uncached indices. */
  lemma {:induction false} MissingIsWindowMinusCache(lo: int, hi: int, cached: set<int>)
    ensures StrictlyIncreasing(Missing(lo, hi, cached))
    ensures forall k :: 0 <= k < |Missing(lo, hi, cached)| ==>
              lo <= Missing(lo, hi, cached)[k] <= hi && Missing(lo, hi, cached)[k] !in cached
    ensures forall i :: lo <= i <= hi && i !in cached ==> i in Missing(lo, hi, cached)
    decreases hi - lo
  {
    if lo <= hi {
      MissingIsWindowMinusCache(lo, hi - 1, cached);
    }
  }

  /** The indices `lo, lo + 1, ..., hi`. */
  function Interval(lo: int, hi: int): (r: seq<int>)
    ensures |r| == if lo <= hi then hi - lo + 1 else 0
    ensures forall k :: 0 <= k < |r| ==> r[k] == lo + k
  {
    if lo > hi then [] else seq(hi - lo + 1, k => lo + k)
  }

  /** With nothing cached the prefetch list is the whole window. */
  lemma {:induction false} MissingNothingCached(lo: int, hi: int)
    ensures Missing(lo, hi, {}) == Interval(lo, hi)
    decreases hi - lo
  {
    if lo <= hi {
      MissingNothingCached(lo, hi - 1);
      assert Interval(lo, hi) == Interval(lo, hi - 1) + [hi];
    }
  }

  /** For 100 frames, the cursor at 0 and the default radius, an empty cache prefetches frames 0 to 60. */
  lemma PrefetchExample()
    ensures PrefetchStart(0, PrefetchRadius) == 0 && PrefetchEnd(100, 0, PrefetchRadius) == 60
    ensures Missing(PrefetchStart(0, PrefetchRadius), PrefetchEnd(100, 0, PrefetchRadius), {}) == Interval(0, 60)
  {
    MissingNothingCached(0, 60);
  }

  /**
   * With the cursor at 300, the default budget and 1000 frames, everything
   * outside [120, 480] is evicted: of frames 100, 300 and 500 only 300 stays.
   */
  lemma EvictionExample()
    ensures EvictLow(300, MaxCache) == 120 && EvictHigh(1000, 300, MaxCache) == 480
    ensures Kept(map[100 := Bitmap(1), 300 := Bitmap(2), 500 := Bitmap(3)], {}, 120, 480) == map[300 := Bitmap(2)]
    ensures Released(map[100 := Bitmap(1), 300 := Bitmap(2), 500 := Bitmap(3)], {}, 120, 480) == {Bitmap(1), Bitmap(3)}
  {
    var m := map[100 := Bitmap(1), 300 := Bitmap(2), 500 := Bitmap(3)];
    assert m.Keys == {100, 300, 500};
    assert Kept(m, {}, 120, 480).Keys == {300};
  }

  function Flatten(batches: seq<seq<int>>): seq<int>
  {
    if batches == [] then [] else batches[0] + Flatten(batches[1..])
  }

  /**
   * The prefetch loop's `framesToFetch.slice(i, i + size)` for `i = 0, size, 2 * size, ...`:
   * consecutive non-empty batches of at most `size` that, concatenated, give back `s`.
   */
  function Batches(s: seq<int>, size: nat): (r: seq<seq<int>>)
    requires size > 0
    ensures Flatten(r) == s
    decreases |s|
  {
    if s == [] then []
    else
      var m := Min(size, |s|);
      var r := [s[..m]] + Batches(s[m..], size);
      assert r[1..] == Batches(s[m..], size);
      assert s[..m] + s[m..] == s;
      r
  }

  /** Every batch is non-empty and holds at most `size` frames; all but the last hold exactly `size`. */
  lemma {:induction false} BatchesShape(s: seq<int>, size: nat)
    requires size > 0
    ensures forall k :: 0 <= k < |Batches(s, size)| ==> 0 < |Batches(s, size)[k]| <= size
    ensures forall k :: 0 <= k < |Batches(s, size)| - 1 ==> |Batches(s, size)[k]| == size
    decreases |s|
  {
    if s != [] {
      var m := Min(size, |s|);
      BatchesShape(s[m..], size);
      assert Batches(s, size) == [s[..m]] + Batches(s[m..], size);
    }
  }

  /** Batching the rest of a list from position `next` peels off one batch. */
  lemma BatchesStep(s: seq<int>, next: nat, size: nat)
    requires next < |s| && size > 0
    ensures Batches(s[next..], size) == [s[next..Min(next + size, |s|)]] + Batches(s[Min(next + size, |s|)..], size)
  {
    var end := Min(next + size, |s|);
    var rest := s[next..];
    assert rest[..end - next] == s[next..end] && rest[end - next..] == s[end..];
  }

  /** A set of indices inside `[lo, hi]` has at most `hi - lo + 1` members. */
  lemma {:induction false} BoundedIndexSet(s: set<int>, lo: int, hi: int)
    requires forall i :: i in s ==> lo <= i <= hi
    ensures |s| <= if lo <= hi then hi - lo + 1 else 0
    decreases hi - lo
  {
    if lo > hi {
      if x :| x in s {
        assert false;
      }
    } else {
      var t := s - {hi};
      BoundedIndexSet(t, lo, hi - 1);
      if hi in s {
        assert s == t + {hi};
      } else {
        assert s == t;
      }
    }
  }

  /**
   * Holds the frame list, the two maps the hook keeps in refs, `isReady`,
   * and the bookkeeping of this model: the next ticket, which index each
   * ticket loads, which tickets have settled, and the bitmaps closed so far.
   */
  class Buffer {
    var images: seq<string>
    /** `bitmapCache` */
    var cache: map<int, Bitmap>
    /** `inflight` */
    var inflight: map<int, Ticket>
    var isReady: bool
    var nextTicket: Ticket
    ghost var started: map<Ticket, int>
    ghost var settled: set<Ticket>
    /** The bitmaps whose `close()` has been called. */
    var closed: set<Bitmap>

    /** Every pending entry is an issued, unsettled load of that very index. */
    ghost predicate Valid()
      reads this
    {
      && (forall t :: t in started ==> t < nextTicket)
      && (forall t :: t in settled ==> t in started)
      && (forall i :: i in inflight ==>
            inflight[i] in started && started[inflight[i]] == i && inflight[i] !in settled)
    }

    /** A frame that `loadFrame` would fetch: in range and with a non-empty source. */
    predicate Loadable(i: int)
      reads this
    {
      0 <= i < |images| && images[i] != ""
    }

    constructor (images: seq<string>)
      ensures Valid()
      ensures this.images == images && cache == map[] && inflight == map[] && !isReady
      ensures closed == {} && nextTicket == 0 && started == map[] && settled == {}
    {
      this.images := images;
      cache := map[];
      inflight := map[];
      isReady := false;
      nextTicket := 0;
      started := map[];
      settled := {};
      closed := {};
    }

    /** The reset effect on a new image list: both maps are emptied and `isReady` drops. */
    method Reset(newImages: seq<string>)
      requires Valid()
      modifies this
      ensures Valid()
      ensures images == newImages && cache == map[] && inflight == map[] && !isReady
      ensures nextTicket == old(nextTicket) && started == old(started) && settled == old(settled)
      ensures closed == old(closed)
    {
      images := newImages;
      cache := map[];
      inflight := map[];
      isReady := false;
    }

    /**
     * The synchronous part of `loadFrame(idx)`: out of range gives null; a
     * cached frame is returned as is; a pending load is joined; a frame with
     * an empty source gives null; otherwise a new load is registered.
     */
    method LoadFrame(idx: int) returns (r: Load)
      requires Valid()
      modifies this
      ensures Valid()
      ensures images == old(images) && cache == old(cache) && isReady == old(isReady)
      ensures closed == old(closed) && settled == old(settled)
      ensures !(0 <= idx < |images|) ==> r == NoFrame && inflight == old(inflight)
      ensures 0 <= idx < |images| && idx in cache ==> r == Cached(cache[idx]) && inflight == old(inflight)
      ensures 0 <= idx < |images| && idx !in cache && idx in old(inflight) ==>
                r == InFlight(old(inflight)[idx]) && inflight == old(inflight)
      ensures 0 <= idx < |images| && idx !in cache && idx !in old(inflight) && images[idx] == "" ==>
                r == NoFrame && inflight == old(inflight)
      ensures Loadable(idx) && idx !in cache && idx !in old(inflight) ==>
                && r == InFlight(old(nextTicket))
                && old(nextTicket) !in old(started)
                && inflight == old(inflight)[idx := old(nextTicket)]
      ensures r.InFlight? ==> idx in inflight && inflight[idx] == r.ticket
      ensures r.InFlight? ==> r.ticket in started && started[r.ticket] == idx
      ensures Loadable(idx) && idx !in cache && idx !in old(inflight) ==>
                started == old(started)[old(nextTicket) := idx] && nextTicket == old(nextTicket) + 1
      ensures !(Loadable(idx) && idx !in cache && idx !in old(inflight)) ==>
                started == old(started) && nextTicket == old(nextTicket)
    {
      if idx < 0 || idx >= |images| {
        return NoFrame;
      }
      if idx in cache {
        return Cached(cache[idx]);
      }
      if idx in inflight {
        return InFlight(inflight[idx]);
      }
      if images[idx] == "" {
        return NoFrame;
      }
      var t := nextTicket;
      nextTicket := nextTicket + 1;
      started := started[t := idx];
      inflight := inflight[idx := t];
      r := InFlight(t);
    }

    /**
     * The continuation of the load with ticket `t` for frame `idx`. Success
     * and failure both delete `inflight[idx]` (whichever load it now holds);
     * success stores the bitmap at `idx`. Nothing checks whether the frame
     * list was replaced meanwhile.
     */
    method CompleteLoad(idx: int, t: Ticket, outcome: Option<Bitmap>) returns (r: Option<Bitmap>)
      requires Valid()
      requires t in started && started[t] == idx && t !in settled
      modifies this
      ensures Valid()
      ensures r == outcome
      ensures inflight == old(inflight) - {idx}
      ensures cache == if outcome.Some? then old(cache)[idx := outcome.value] else old(cache)
      ensures images == old(images) && isReady == old(isReady) && closed == old(closed)
      ensures settled == old(settled) + {t}
      ensures nextTicket == old(nextTicket) && started == old(started)
    {
      inflight := inflight - {idx};
      settled := settled + {t};
      if outcome.Some? {
        cache := cache[idx := outcome.value];
      }
      r := outcome;
    }

    /** `getImage(index)` */
    function GetImage(index: int): (r: Option<Bitmap>)
      reads this
      ensures r.Some? <==> index in cache
      ensures r.Some? ==> r.value == cache[index]
    {
      if index in cache then Some(cache[index]) else None
    }

    /** The loop that builds `framesToFetch`: the window's indices that are not cached, in order. */
    method PrefetchList(cur: int, radius: int) returns (frames: seq<int>)
      ensures frames == Missing(PrefetchStart(cur, radius), PrefetchEnd(|images|, cur, radius), cache.Keys)
    {
      var start := PrefetchStart(cur, radius);
      var end := PrefetchEnd(|images|, cur, radius);
      frames := [];
      var i := start;
      while i <= end
        invariant start <= i <= Max(start, end + 1)
        invariant frames == Missing(start, i - 1, cache.Keys)
        decreases end - i
      {
        assert Missing(start, i, cache.Keys) == Missing(start, i - 1, cache.Keys) + (if i in cache.Keys then [] else [i]);
        if i !in cache {
          frames := frames + [i];
        }
        i := i + 1;
      }
    }

    /** `batch.map((idx) => loadFrame(idx))`: each index is loaded in turn. */
    method LoadBatch(batch: seq<int>) returns (results: seq<Load>)
      requires Valid()
      modifies this
      ensures Valid()
      ensures |results| == |batch|
      ensures images == old(images) && cache == old(cache) && isReady == old(isReady)
      ensures closed == old(closed) && settled == old(settled)
      ensures forall i :: i in old(inflight) ==> i in inflight && inflight[i] == old(inflight)[i]
      ensures inflight.Keys == old(inflight).Keys + ToStart(batch, images, cache)
      ensures forall k :: 0 <= k < |batch| && Loadable(batch[k]) && batch[k] !in cache ==>
                results[k] == InFlight(inflight[batch[k]])
      ensures nextTicket >= old(nextTicket)
      ensures forall i :: i in inflight && i !in old(inflight) ==> old(nextTicket) <= inflight[i]
      ensures forall t :: t in old(started) ==> t in started && started[t] == old(started)[t]
      ensures forall t :: t in started && t !in old(started) ==>
                started[t] in inflight && started[t] !in old(inflight) && inflight[started[t]] == t
    {
      results := [];
      var k := 0;
      while k < |batch|
        invariant 0 <= k <= |batch|
        invariant Valid()
        invariant |results| == k
        invariant images == old(images) && cache == old(cache) && isReady == old(isReady)
        invariant closed == old(closed) && settled == old(settled)
        invariant forall i :: i in old(inflight) ==> i in inflight && inflight[i] == old(inflight)[i]
        invariant inflight.Keys == old(inflight).Keys + ToStart(batch[..k], images, cache)
        invariant forall j :: 0 <= j < k && Loadable(batch[j]) && batch[j] !in cache ==>
                    batch[j] in inflight && results[j] == InFlight(inflight[batch[j]])
        invariant nextTicket >= old(nextTicket)
        invariant forall i :: i in inflight && i !in old(inflight) ==> old(nextTicket) <= inflight[i]
        invariant forall t :: t in old(started) ==> t in started && started[t] == old(started)[t]
        invariant forall t :: t in started && t !in old(started) ==>
                    started[t] in inflight && started[t] !in old(inflight) && inflight[started[t]] == t
      {
        ghost var before := inflight;
        var r := LoadFrame(batch[k]);
        assert batch[..k + 1] == batch[..k] + [batch[k]];
        ToStartSnoc(batch[..k], batch[k], images, cache);
        forall j | 0 <= j <= k && Loadable(batch[j]) && batch[j] !in cache
          ensures batch[j] in inflight && (results + [r])[j] == InFlight(inflight[batch[j]])
        {
          if j < k {
            assert batch[j] in before && results[j] == InFlight(before[batch[j]]);
          }
        }
        results := results + [r];
        k := k + 1;
      }
      assert batch[..k] == batch;
    }

    /**
     * The `.then` on the current frame's load: `isReady` is raised when the
     * load yields a bitmap and the effect run that asked for it is still live.
     */
    method CurrentFrameSettled(job: PrefetchJob, result: Option<Bitmap>)
      modifies this`isReady
      ensures isReady == (old(isReady) || (!job.cancelled && result.Some?))
    {
      if !job.cancelled && result.Some? {
        isReady := true;
      }
    }

    /**
     * The prefetch effect for cursor `cur`: the list of missing frames is
     * built first, then the current frame is requested, then the prefetch
     * job starts and issues its first batch before its first `await`. The
     * current frame's request answers as `loadFrame` does; a load it starts
     * gets a lower ticket than every load the first batch starts.
     */
    method OnCursorChange(cur: int, radius: int) returns (current: Load, job: PrefetchJob, firstBatch: seq<int>)
      requires Valid()
      modifies this
      ensures Valid() && job.Valid() && fresh(job)
      ensures job.frames == Missing(PrefetchStart(cur, radius), PrefetchEnd(|old(images)|, cur, radius), old(cache).Keys)
      ensures !job.cancelled
      ensures old(Loadable(cur)) && cur !in old(cache) ==> cur in inflight
      ensures firstBatch == job.frames[..Min(PrefetchConcurrency, |job.frames|)]
      ensures job.issued == if firstBatch == [] then [] else [firstBatch]
      ensures images == old(images) && cache == old(cache)
      ensures isReady == old(isReady) && closed == old(closed)
      ensures !(0 <= cur < |images|) ==> current == NoFrame
      ensures 0 <= cur < |images| && cur in cache ==> current == Cached(cache[cur])
      ensures 0 <= cur < |images| && cur !in cache && cur in old(inflight) ==>
                current == InFlight(old(inflight)[cur])
      ensures 0 <= cur < |images| && cur !in cache && cur !in old(inflight) && images[cur] == "" ==>
                current == NoFrame
      ensures Loadable(cur) && cur !in cache && cur !in old(inflight) ==>
                current == InFlight(old(nextTicket)) && cur in inflight && inflight[cur] == old(nextTicket)
      ensures inflight.Keys
           == old(inflight).Keys + (if Loadable(cur) && cur !in cache then {cur} else {}) + ToStart(firstBatch, images, cache)
      ensures current.InFlight? && cur !in old(inflight) ==>
                forall i :: i in inflight && i !in old(inflight) && i != cur ==> current.ticket < inflight[i]
      ensures settled == old(settled)
      ensures forall t :: t in old(started) ==> t in started && started[t] == old(started)[t]
      ensures forall t :: t in started && t !in old(started) ==>
                started[t] in inflight && started[t] !in old(inflight) && inflight[started[t]] == t
    {
      var frames := PrefetchList(cur, radius);
      current := LoadFrame(cur);
      ghost var mid := inflight;
      ghost var requested: set<int> := if Loadable(cur) && cur !in cache then {cur} else {};
      assert mid.Keys == old(inflight).Keys + requested;
      assert current.InFlight? ==> current.ticket < nextTicket;
      job, firstBatch := StartJob(frames);
      assert forall i :: i in inflight && i !in old(inflight) && i != cur ==> i !in mid;
    }

    /** `prefetch()` up to its first `await`: a new job over `frames` issues its first batch. */
    method StartJob(frames: seq<int>) returns (job: PrefetchJob, firstBatch: seq<int>)
      requires Valid()
      modifies this
      ensures Valid() && job.Valid() && fresh(job)
      ensures job.frames == frames && !job.cancelled
      ensures firstBatch == frames[..Min(PrefetchConcurrency, |frames|)]
      ensures job.issued == if firstBatch == [] then [] else [firstBatch]
      ensures images == old(images) && cache == old(cache) && isReady == old(isReady) && closed == old(closed)
      ensures forall i :: i in old(inflight) ==> i in inflight && inflight[i] == old(inflight)[i]
      ensures inflight.Keys == old(inflight).Keys + ToStart(firstBatch, images, cache)
      ensures forall i :: i in inflight && i !in old(inflight) ==> old(nextTicket) <= inflight[i]
      ensures settled == old(settled)
      ensures forall t :: t in old(started) ==> t in started && started[t] == old(started)[t]
      ensures forall t :: t in started && t !in old(started) ==>
                started[t] in inflight && started[t] !in old(inflight) && inflight[started[t]] == t
    {
      job := new PrefetchJob(frames);
      firstBatch := job.Resume(this);
    }

    /** The `forEach` callback for index `i`: outside `[lo, hi]` its bitmap is closed and the entry deleted. */
    method EvictEntry(i: int, lo: int, hi: int)
      requires i in cache
      modifies this`cache, this`closed
      ensures cache == if lo <= i <= hi then old(cache) else old(cache) - {i}
      ensures closed == if lo <= i <= hi then old(closed) else old(closed) + {old(cache)[i]}
    {
      if i < lo || i > hi {
        closed := closed + {cache[i]};
        cache := cache - {i};
      }
    }

    /**
     * The eviction effect: every cached index outside
     * `[max(0, cur - maxCache), min(N - 1, cur + maxCache)]` has its bitmap
     * closed and is deleted; entries inside are left alone.
     */
    method Evict(cur: int, maxCache: int)
      modifies this`cache, this`closed
      ensures cache == Kept(old(cache), {}, EvictLow(cur, maxCache), EvictHigh(|images|, cur, maxCache))
      ensures closed == old(closed) + Released(old(cache), {}, EvictLow(cur, maxCache), EvictHigh(|images|, cur, maxCache))
      ensures inflight == old(inflight) && started == old(started) && settled == old(settled) && nextTicket == old(nextTicket)
    {
      var lo := EvictLow(cur, maxCache);
      var hi := EvictHigh(|images|, cur, maxCache);
      var todo := cache.Keys;
      assert cache == Kept(old(cache), todo, lo, hi);
      assert Released(old(cache), todo, lo, hi) == {};
      while todo != {}
        invariant todo <= old(cache).Keys
        invariant cache == Kept(old(cache), todo, lo, hi)
        invariant closed == old(closed) + Released(old(cache), todo, lo, hi)
        decreases todo
      {
        var i := Choose(todo);
        EvictStep(old(cache), todo, i, lo, hi);
        EvictEntry(i, lo, hi);
        todo := todo - {i};
      }
    }
  }

  /** The indices of `batch` that `loadFrame` would start loading: in range, with a source, not cached. */
  function ToStart(batch: seq<int>, images: seq<string>, cache: map<int, Bitmap>): set<int>
  {
    set i | i in batch && 0 <= i < |images| && images[i] != "" && i !in cache
  }

  /** Loading one more index adds it to the started set exactly when `loadFrame` would start it. */
  lemma ToStartSnoc(batch: seq<int>, x: int, images: seq<string>, cache: map<int, Bitmap>)
    ensures ToStart(batch + [x], images, cache)
         == ToStart(batch, images, cache) + (if 0 <= x < |images| && images[x] != "" && x !in cache then {x} else {})
  {
  }

  /** The next key `forEach` visits; the model leaves the visiting order open. */
  method Choose(s: set<int>) returns (i: int)
    requires s != {}
    ensures i in s
  {
    if forall k :: k !in s {
      assert false;
    }
    i :| i in s;
  }

  /** The entries of `m` that the eviction pass keeps, plus those it has not visited yet (`todo`). */
  function Kept(m: map<int, Bitmap>, todo: set<int>, lo: int, hi: int): (r: map<int, Bitmap>)
    ensures forall i :: i in r <==> i in m && (i in todo || lo <= i <= hi)
    ensures forall i :: i in r ==> r[i] == m[i]
  {
    map i | i in m && (i in todo || lo <= i <= hi) :: m[i]
  }

  /** The bitmaps of the visited entries of `m` that lie outside `[lo, hi]`. */
  function Released(m: map<int, Bitmap>, todo: set<int>, lo: int, hi: int): set<Bitmap>
  {
    set i | i in m && i !in todo && !(lo <= i <= hi) :: m[i]
  }

  /** Visiting one more index `i` of `todo` removes it iff it lies outside the window. */
  lemma EvictStep(m: map<int, Bitmap>, todo: set<int>, i: int, lo: int, hi: int)
    requires i in todo && todo <= m.Keys
    ensures !(lo <= i <= hi) ==> Kept(m, todo - {i}, lo, hi) == Kept(m, todo, lo, hi) - {i}
    ensures !(lo <= i <= hi) ==> Released(m, todo - {i}, lo, hi) == Released(m, todo, lo, hi) + {m[i]}
    ensures lo <= i <= hi ==> Kept(m, todo - {i}, lo, hi) == Kept(m, todo, lo, hi)
    ensures lo <= i <= hi ==> Released(m, todo - {i}, lo, hi) == Released(m, todo, lo, hi)
  {
    assert !(lo <= i <= hi) ==> m[i] in Released(m, todo - {i}, lo, hi);
  }

  /**
   * One run of the async `prefetch()` of an effect run: its frame list, the
   * loop position, and the effect's `cancelled` flag set by its cleanup.
   */
  class PrefetchJob {
    const frames: seq<int>
    var next: nat
    var cancelled: bool
    var finished: bool
    /** The batches issued so far. */
    ghost var issued: seq<seq<int>>

    /** The issued batches are the first ones of the batching of `frames`. */
    ghost predicate Valid()
      reads this
    {
      next <= |frames| && issued + Batches(frames[next..], PrefetchConcurrency) == Batches(frames, PrefetchConcurrency)
    }

    constructor (frames: seq<int>)
      ensures Valid() && this.frames == frames
      ensures next == 0 && !cancelled && !finished && issued == []
    {
      this.frames := frames;
      next := 0;
      cancelled := false;
      finished := false;
      issued := [];
    }

    /** The effect's cleanup `cancelled = true`. */
    method Cancel()
      modifies this`cancelled
      ensures cancelled
    {
      cancelled := true;
    }

    /**
     * One turn of the loop, after the previous batch has settled: stop at the
     * end of the list or once cancelled; otherwise load the next batch of at
     * most `PrefetchConcurrency` frames.
     */
    method Resume(buf: Buffer) returns (batch: seq<int>)
      requires Valid() && buf.Valid() && !finished
      modifies this`next, this`finished, this`issued, buf
      ensures Valid() && buf.Valid()
      ensures old(next) == |frames| || cancelled ==>
                finished && batch == [] && issued == old(issued) && next == old(next)
                && buf.inflight == old(buf.inflight) && buf.started == old(buf.started) && buf.nextTicket == old(buf.nextTicket)
      ensures old(next) < |frames| && !cancelled ==>
                && !finished
                && batch == frames[old(next)..Min(old(next) + PrefetchConcurrency, |frames|)]
                && issued == old(issued) + [batch]
                && next == old(next) + |batch|
      ensures buf.images == old(buf.images) && buf.cache == old(buf.cache) && buf.closed == old(buf.closed)
      ensures forall i :: i in old(buf.inflight) ==> i in buf.inflight && buf.inflight[i] == old(buf.inflight)[i]
      ensures buf.inflight.Keys == old(buf.inflight).Keys + ToStart(batch, buf.images, buf.cache)
      ensures cancelled == old(cancelled)
      ensures buf.isReady == old(buf.isReady) && buf.nextTicket >= old(buf.nextTicket)
      ensures forall i :: i in buf.inflight && i !in old(buf.inflight) ==> old(buf.nextTicket) <= buf.inflight[i]
      ensures buf.settled == old(buf.settled)
      ensures forall t :: t in old(buf.started) ==> t in buf.started && buf.started[t] == old(buf.started)[t]
      ensures forall t :: t in buf.started && t !in old(buf.started) ==>
                buf.started[t] in buf.inflight && buf.started[t] !in old(buf.inflight) && buf.inflight[buf.started[t]] == t
    {
      if next == |frames| || cancelled {
        finished := true;
        batch := [];
        return;
      }
      var end := Min(next + PrefetchConcurrency, |frames|);
      batch := frames[next..end];
      BatchesStep(frames, next, PrefetchConcurrency);
      assert (issued + [batch]) + Batches(frames[end..], PrefetchConcurrency)
          == issued + Batches(frames[next..], PrefetchConcurrency);
      var _ := buf.LoadBatch(batch);
      issued := issued + [batch];
      next := end;
    }
  }

  /**
   * Two requests for the same frame, with no completion between them, share
   * one load: only one load has been started.
   */
  method RequestsShareOneLoad(images: seq<string>, idx: int) returns (buf: Buffer, first: Load, second: Load, pending: nat)
    requires 0 <= idx < |images| && images[idx] != ""
    ensures first.InFlight? && second == first
    ensures pending == 1
    ensures buf.Valid() && |buf.started| == 1
    ensures first.ticket in buf.started && buf.started[first.ticket] == idx && first.ticket !in buf.settled
  {
    buf := new Buffer(images);
    first := buf.LoadFrame(idx);
    second := buf.LoadFrame(idx);
    pending := |buf.inflight|;
    assert buf.started.Keys == {0};
  }

  /** A failed load leaves the frame uncached, so the next request starts a new load. */
  method FailedLoadIsRetried(images: seq<string>, idx: int) returns (first: Load, retry: Load)
    requires 0 <= idx < |images| && images[idx] != ""
    ensures first.InFlight? && retry.InFlight? && retry.ticket != first.ticket
  {
    var buf := new Buffer(images);
    first := buf.LoadFrame(idx);
    var _ := buf.CompleteLoad(idx, first.ticket, None);
    retry := buf.LoadFrame(idx);
  }

  /**
   * A load started before the frame list is replaced still writes its bitmap
   * into the emptied cache when it completes: the reset does not discard it.
   */
  method StaleLoadRepopulatesCache(images: seq<string>, newImages: seq<string>, idx: int, bitmap: Bitmap)
    returns (cached: Option<Bitmap>)
    requires 0 <= idx < |images| && images[idx] != ""
    ensures cached == Some(bitmap)
  {
    var buf := new Buffer(images);
    var pending := buf.LoadFrame(idx);
    buf.Reset(newImages);
    var _ := buf.CompleteLoad(idx, pending.ticket, Some(bitmap));
    cached := buf.GetImage(idx);
  }

  /**
   * A stale load that fails after the reset deletes the pending entry of the
   * new load of the same frame, so a further request starts a second,
   * concurrent load of that frame.
   */
  method StaleFailureDuplicatesLoad(images: seq<string>, idx: int) returns (buf: Buffer, fresh1: Load, fresh2: Load)
    requires 0 <= idx < |images| && images[idx] != ""
    ensures buf.Valid()
    ensures fresh1.InFlight? && fresh2.InFlight? && fresh1.ticket != fresh2.ticket
    ensures fresh1.ticket in buf.started && buf.started[fresh1.ticket] == idx && fresh1.ticket !in buf.settled
    ensures fresh2.ticket in buf.started && buf.started[fresh2.ticket] == idx && fresh2.ticket !in buf.settled
  {
    buf := new Buffer(images);
    var stale := buf.LoadFrame(idx);
    buf.Reset(images);
    assert buf.started[stale.ticket] == idx && stale.ticket !in buf.settled;
    fresh1 := buf.LoadFrame(idx);
    assert fresh1.ticket < buf.nextTicket;
    assert buf.started[stale.ticket] == idx && stale.ticket !in buf.settled;
    var _ := buf.CompleteLoad(idx, stale.ticket, None);
    fresh2 := buf.LoadFrame(idx);
  }

  /**
   * A load started for frame 500 completes after an eviction pass at
   * cursor 0: its bitmap is cached although frame 500 lies outside the
   * window that pass kept, so the eviction bound holds only right after a
   * pass.
   */
  method LateCompletionOutsideWindow(images: seq<string>, bitmap: Bitmap) returns (cached: Option<Bitmap>)
    requires |images| == 1000 && images[500] != ""
    ensures cached == Some(bitmap)
    ensures !(EvictLow(0, MaxCache) <= 500 <= EvictHigh(|images|, 0, MaxCache))
  {
    var buf := new Buffer(images);
    var pending := buf.LoadFrame(500);
    buf.Evict(0, MaxCache);
    var _ := buf.CompleteLoad(500, pending.ticket, Some(bitmap));
    cached := buf.GetImage(500);
  }

  /** After an eviction pass every cached index lies in the window, so at most `2 * maxCache + 1` remain. */
  lemma EvictionBound(cache: map<int, Bitmap>, n: int, cur: int, maxCache: int)
    requires maxCache >= 0
    ensures |Kept(cache, {}, EvictLow(cur, maxCache), EvictHigh(n, cur, maxCache))| <= 2 * maxCache + 1
  {
    var lo, hi := EvictLow(cur, maxCache), EvictHigh(n, cur, maxCache);
    var kept := Kept(cache, {}, lo, hi);
    BoundedIndexSet(kept.Keys, lo, hi);
    assert |kept| == |kept.Keys|;
  }
}
