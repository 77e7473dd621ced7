/** The decoder's surface pool, decoder/vaapidecsurfacepool.cpp: a fixed set of surfaces,
    each either on the free list or allocated with a set of outstanding obligations
    (being decoded, waiting to be rendered, being rendered), a FIFO of render buffers
    waiting for the renderer, and a flushing flag that stops the pool handing out
    surfaces. Each method is one locked section of the original and runs atomically. */
module SurfacePool {
  import opened Wrappers

  type SurfaceId = nat

  /** One obligation an allocated surface can carry: the SURFACE_DECODING,
      ToRender and Rendering bits of SurfaceState. */
  datatype Obligation = Decoding | ToRender | Rendering

  /** The SurfaceState word of an allocated surface as the set of its three bits;
      `Bits` gives the word itself. */
  datatype SurfaceState = SurfaceState(decoding: bool, toRender: bool, rendering: bool)

  const SURFACE_FREE: SurfaceState := SurfaceState(false, false, false)

  /** The bit of each obligation; the values are declared in vaapidecsurfacepool.h,
      which is not part of this model. */
  function FlagBit(f: Obligation): bv32
  {
    match f
    case Decoding => 1
    case ToRender => 2
    case Rendering => 4
  }

  function Bits(st: SurfaceState): bv32
  {
    (if st.decoding then 1 else 0) | (if st.toRender then 2 else 0) | (if st.rendering then 4 else 0)
  }

  /** The state with only obligation `f`, as `m_allocated[id] = SURFACE_DECODING` sets it. */
  function Only(f: Obligation): SurfaceState
  {
    With(SURFACE_FREE, f)
  }

  /** Whether obligation `f` is outstanding: st & f != 0. */
  predicate Has(st: SurfaceState, f: Obligation)
  {
    match f
    case Decoding => st.decoding
    case ToRender => st.toRender
    case Rendering => st.rendering
  }

  /** st | f. */
  function With(st: SurfaceState, f: Obligation): SurfaceState
  {
    match f
    case Decoding => st.(decoding := true)
    case ToRender => st.(toRender := true)
    case Rendering => st.(rendering := true)
  }

  /** st & ~f. */
  function Without(st: SurfaceState, f: Obligation): SurfaceState
  {
    match f
    case Decoding => st.(decoding := false)
    case ToRender => st.(toRender := false)
    case Rendering => st.(rendering := false)
  }

  /** st ^ (SURFACE_RENDERING | SURFACE_TO_RENDER). */
  function ToggleRender(st: SurfaceState): SurfaceState
  {
    st.(toRender := !st.toRender, rendering := !st.rendering)
  }

  /** The flag operations above are the code's operations on the SurfaceState word. */
  lemma FlagOperationsMatchBits(st: SurfaceState, f: Obligation)
    ensures Has(st, f) <==> Bits(st) & FlagBit(f) != 0
    ensures Bits(With(st, f)) == Bits(st) | FlagBit(f)
    ensures Bits(Without(st, f)) == Bits(st) & !FlagBit(f)
    ensures Bits(ToggleRender(st)) == Bits(st) ^ (FlagBit(Rendering) | FlagBit(ToRender))
    ensures st == SURFACE_FREE <==> Bits(st) == 0
  {
  }

  /** VideoRenderBuffer: the display, the surface and the time stamp handed to the renderer. */
  datatype RenderBuffer = RenderBuffer(display: nat, surface: SurfaceId, timeStamp: int)

  datatype AcquireResult =
    | Acquired(id: SurfaceId)
    | NoSurface    // the pool is flushing: acquireWithWait returns a null surface
    | WouldBlock   // no free surface and not flushing: acquireWithWait waits for a recycle

  ghost predicate Distinct<T>(s: seq<T>)
  {
    forall i, j :: 0 <= i < j < |s| ==> s[i] != s[j]
  }

  /** A surface whose only outstanding obligation is TO_RENDER: a flush releases it. */
  predicate ReleasedOnFlush(states: map<SurfaceId, SurfaceState>, id: SurfaceId)
  {
    id in states && Without(states[id], ToRender) == SURFACE_FREE
  }

  /** A reachable obligation set: not FREE, and never waiting to
      be rendered and being rendered at once. */
  predicate ValidState(st: SurfaceState)
  {
    st != SURFACE_FREE && !(st.toRender && st.rendering)
  }

  /** The ids of `queue`'s surfaces whose only obligation is TO_RENDER, in queue order:
      the surfaces a flush releases. */
  function ReleasedByFlush(queue: seq<SurfaceId>, states: map<SurfaceId, SurfaceState>): (r: seq<SurfaceId>)
    ensures forall id :: id in r ==> id in queue && ReleasedOnFlush(states, id)
    ensures forall id :: id in queue && ReleasedOnFlush(states, id) ==> id in r
  {
    if |queue| == 0 then []
    else
      var rest := ReleasedByFlush(queue[1..], states);
      if ReleasedOnFlush(states, queue[0]) then [queue[0]] + rest else rest
  }

  /** The obligation sets after a flush: TO_RENDER discharged everywhere, and the
      surfaces left with no obligation gone. */
  function FlushedStates(states: map<SurfaceId, SurfaceState>): (r: map<SurfaceId, SurfaceState>)
    ensures forall id :: id in r ==> id in states && !Has(r[id], ToRender)
  {
    map id | id in states && Without(states[id], ToRender) != SURFACE_FREE :: Without(states[id], ToRender)
  }

  /** The obligation sets part-way through a flush, once the surfaces in `done` were recycled. */
  ghost function Recycled(states: map<SurfaceId, SurfaceState>, done: seq<SurfaceId>): map<SurfaceId, SurfaceState>
  {
    map id | id in states && (id in done ==> Without(states[id], ToRender) != SURFACE_FREE)
      :: if id in done then Without(states[id], ToRender) else states[id]
  }

  lemma RecycledStep(states: map<SurfaceId, SurfaceState>, done: seq<SurfaceId>, id: SurfaceId)
    requires id in states && id !in done
    ensures id in Recycled(states, done) && Recycled(states, done)[id] == states[id]
    ensures var st := Without(states[id], ToRender);
            Recycled(states, done + [id])
            == if st == SURFACE_FREE then Recycled(states, done) - {id} else Recycled(states, done)[id := st]
  {
  }

  lemma WithoutAbsent(st: SurfaceState, flag: Obligation)
    requires !Has(st, flag)
    ensures Without(st, flag) == st
  {
  }

  lemma RecycledAll(states: map<SurfaceId, SurfaceState>, done: seq<SurfaceId>)
    requires forall id :: id in states ==> states[id] != SURFACE_FREE
    requires forall id :: id in states && Has(states[id], ToRender) ==> id in done
    requires forall id :: id in done && id in states ==> Has(states[id], ToRender)
    ensures Recycled(states, done) == FlushedStates(states)
  {
    forall id | id in states && id !in done ensures Without(states[id], ToRender) == states[id] {
      WithoutAbsent(states[id], ToRender);
    }
  }

  /** One step of flush's loop extends the released prefix by the k-th queued surface. */
  lemma ReleasedPrefix(queue: seq<SurfaceId>, k: nat, states: map<SurfaceId, SurfaceState>,
                       freed0: seq<SurfaceId>, before: seq<SurfaceId>, after: seq<SurfaceId>)
    requires k < |queue|
    requires before == freed0 + ReleasedByFlush(queue[..k], states)
    requires after == before + (if ReleasedOnFlush(states, queue[k]) then [queue[k]] else [])
    ensures after == freed0 + ReleasedByFlush(queue[..k + 1], states)
  {
    assert queue[..k + 1] == queue[..k] + [queue[k]];
    ReleasedAppend(queue[..k], queue[k], states);
  }

  /** The k-th element of a repeat-free sequence is not among the first k, and the
      prefix grows by it. */
  lemma PrefixStep(queue: seq<SurfaceId>, k: nat)
    requires Distinct(queue) && k < |queue|
    ensures queue[k] !in queue[..k]
    ensures queue[..k + 1] == queue[..k] + [queue[k]]
  {
  }

  lemma {:induction false} ReleasedAppend(queue: seq<SurfaceId>, id: SurfaceId, states: map<SurfaceId, SurfaceState>)
    ensures ReleasedByFlush(queue + [id], states)
            == ReleasedByFlush(queue, states) + (if ReleasedOnFlush(states, id) then [id] else [])
  {
    if |queue| > 0 {
      assert (queue + [id])[1..] == queue[1..] + [id];
      ReleasedAppend(queue[1..], id, states);
    } else {
      assert queue + [id] == [id];
    }
  }

  class DecSurfacePool {
    const display: nat
    const surfaces: seq<SurfaceId>
    const renderBuffers: array<RenderBuffer>
    const renderMap: map<SurfaceId, nat>
    var freed: seq<SurfaceId>
    var allocatedStates: map<SurfaceId, SurfaceState>
    var outputQueue: seq<nat>
    var flushing: bool

    /** The fixed structure set up by the constructor: one render buffer per surface,
        and the id-to-buffer map. */
    ghost predicate Frame()
      reads renderBuffers
    {
      renderBuffers.Length == |surfaces| && MapFrame()
      && (forall i :: 0 <= i < |surfaces| ==> renderBuffers[i].surface == surfaces[i] && renderBuffers[i].display == display)
    }

    /** Distinct surface ids, and `renderMap` taking each to its position. */
    ghost predicate MapFrame()
    {
      Distinct(surfaces)
      && (forall i :: 0 <= i < |surfaces| ==> surfaces[i] in renderMap && renderMap[surfaces[i]] == i)
      && (forall id :: id in renderMap ==> renderMap[id] < |surfaces| && surfaces[renderMap[id]] == id)
    }

    /** Every surface is either free (once) or allocated with a reachable obligation set,
        and the queue holds distinct render buffers. */
    ghost predicate Owns(free: seq<SurfaceId>, alloc: map<SurfaceId, SurfaceState>, queue: seq<nat>)
    {
      Distinct(free)
      && (forall id :: id in free ==> id in renderMap && id !in alloc)
      && (forall id :: id in alloc ==> id in renderMap && ValidState(alloc[id]))
      && (forall id :: id in renderMap ==> id in free || id in alloc)
      && Distinct(queue)
      && (forall k :: 0 <= k < |queue| ==> queue[k] < |surfaces|)
    }

    /** The queue holds exactly the render buffers of the surfaces waiting to be rendered. */
    ghost predicate Matches(alloc: map<SurfaceId, SurfaceState>, queue: seq<nat>)
      requires forall k :: 0 <= k < |queue| ==> queue[k] < |surfaces|
    {
      (forall k :: 0 <= k < |queue| ==> surfaces[queue[k]] in alloc && Has(alloc[surfaces[queue[k]]], ToRender))
      && (forall id :: id in alloc && Has(alloc[id], ToRender) ==> id in renderMap && renderMap[id] in queue)
    }

    ghost predicate Ownership()
      reads this`freed, this`allocatedStates, this`outputQueue
    {
      Owns(freed, allocatedStates, outputQueue)
    }

    ghost predicate Layout()
      reads this`freed, this`allocatedStates, this`outputQueue, renderBuffers
    {
      Frame() && Ownership()
    }

    ghost predicate QueueMatches()
      reads this`freed, this`allocatedStates, this`outputQueue
      requires Ownership()
    {
      Matches(allocatedStates, outputQueue)
    }

    ghost predicate Valid()
      reads this`freed, this`allocatedStates, this`outputQueue, renderBuffers
    {
      Layout() && QueueMatches()
    }

    /** The surface ids of the queued render buffers, front first. */
    function QueuedIds(): (ids: seq<SurfaceId>)
      reads this`outputQueue
      requires forall k :: 0 <= k < |outputQueue| ==> outputQueue[k] < |surfaces|
      ensures |ids| == |outputQueue|
    {
      IdsOf(outputQueue)
    }

    /** The surface ids of a sequence of render-buffer indices. */
    function IdsOf(queue: seq<nat>): (ids: seq<SurfaceId>)
      requires forall k :: 0 <= k < |queue| ==> queue[k] < |surfaces|
      ensures |ids| == |queue|
      ensures forall k :: 0 <= k < |queue| ==> ids[k] == surfaces[queue[k]]
    {
      seq(|queue|, k requires 0 <= k < |queue| => surfaces[queue[k]])
    }

    /** Marking an allocated surface that is only being decoded, and queueing its render
        buffer, keeps the invariant. */
    lemma MarkKeeps(free: seq<SurfaceId>, alloc: map<SurfaceId, SurfaceState>, queue: seq<nat>, id: SurfaceId)
      requires MapFrame() && Owns(free, alloc, queue) && Matches(alloc, queue)
      requires id in alloc && alloc[id] == Only(Decoding)
      ensures renderMap[id] !in queue
      ensures Owns(free, alloc[id := With(alloc[id], ToRender)], queue + [renderMap[id]])
      ensures Matches(alloc[id := With(alloc[id], ToRender)], queue + [renderMap[id]])
      ensures IdsOf(queue + [renderMap[id]]) == IdsOf(queue) + [id]
    {
    }

    /** Taking the front of the queue, whose surface moves from TO_RENDER to RENDERING,
        keeps the invariant. */
    lemma TakeKeeps(free: seq<SurfaceId>, alloc: map<SurfaceId, SurfaceState>, queue: seq<nat>)
      requires MapFrame() && Owns(free, alloc, queue) && Matches(alloc, queue) && queue != []
      ensures var id := surfaces[queue[0]];
              id in alloc && Has(alloc[id], ToRender) && !Has(alloc[id], Rendering)
              && Owns(free, alloc[id := ToggleRender(alloc[id])], queue[1..])
              && Matches(alloc[id := ToggleRender(alloc[id])], queue[1..])
    {
      var id := surfaces[queue[0]];
      var alloc' := alloc[id := ToggleRender(alloc[id])];
      assert Distinct(queue[1..]) by {
        forall a, b | 0 <= a < b < |queue[1..]| ensures queue[1..][a] != queue[1..][b] {
          assert queue[1..][a] == queue[a + 1] && queue[1..][b] == queue[b + 1];
        }
      }
      forall other | other in alloc' && Has(alloc'[other], ToRender)
        ensures renderMap[other] in queue[1..]
      {
        assert other != id;
        var k :| 0 <= k < |queue| && queue[k] == renderMap[other];
        assert k != 0;
        assert queue[1..][k - 1] == renderMap[other];
      }
    }

    /** The constructor: one render buffer per surface with time stamp 0, every surface
        free in the given order, nothing allocatedStates, queued or flushing. */
    constructor (display: nat, surfaces: seq<SurfaceId>)
      requires Distinct(surfaces)
      ensures Valid()
      ensures this.display == display && this.surfaces == surfaces
      ensures forall i :: 0 <= i < |surfaces| ==> renderBuffers[i] == RenderBuffer(display, surfaces[i], 0)
      ensures freed == surfaces && allocatedStates == map[] && outputQueue == [] && !flushing
      ensures fresh(renderBuffers)
    {
      var buffers := new RenderBuffer[|surfaces|];
      var ids: map<SurfaceId, nat> := map[];
      var free: seq<SurfaceId> := [];
      for i := 0 to |surfaces|
        invariant free == surfaces[..i]
        invariant forall j :: 0 <= j < i ==> buffers[j] == RenderBuffer(display, surfaces[j], 0)
        invariant forall j :: 0 <= j < i ==> surfaces[j] in ids && ids[surfaces[j]] == j
        invariant forall id :: id in ids ==> ids[id] < i && surfaces[ids[id]] == id
      {
        buffers[i] := RenderBuffer(display, surfaces[i], 0);
        ids := ids[surfaces[i] := i];
        free := free + [surfaces[i]];
      }
      this.display := display;
      this.surfaces := surfaces;
      renderBuffers := buffers;
      renderMap := ids;
      freed := free;
      allocatedStates := map[];
      outputQueue := [];
      flushing := false;
    }

    /** getSurfaceIDs: the surface ids of the render buffers, in order. */
    method GetSurfaceIds() returns (ids: seq<SurfaceId>)
      requires Valid()
      ensures ids == surfaces
    {
      ids := [];
      for i := 0 to renderBuffers.Length
        invariant ids == surfaces[..i]
      {
        ids := ids + [renderBuffers[i].surface];
      }
    }

    /** acquireWithWait. */
    method AcquireWithWait() returns (r: AcquireResult)
      requires Valid()
      modifies this`freed, this`allocatedStates
      ensures Valid()
      ensures old(flushing) ==> r == NoSurface && unchanged(this)
      ensures !old(flushing) && old(freed) == [] ==> r == WouldBlock && unchanged(this)
      ensures !old(flushing) && old(freed) != [] ==>
                r == Acquired(old(freed)[0]) && freed == old(freed)[1..]
                && allocatedStates == old(allocatedStates)[r.id := Only(Decoding)]
                && outputQueue == old(outputQueue) && flushing == old(flushing)
    {
      if flushing {
        return NoSurface;
      }
      if freed == [] {
        return WouldBlock;
      }
      var id := freed[0];
      freed := freed[1..];
      allocatedStates := allocatedStates[id := Only(Decoding)];
      r := Acquired(id);
      assert forall i :: 0 <= i < |surfaces| && surfaces[i] == id ==> i !in outputQueue;
    }

    /** output: an allocated surface, still only being decoded, is marked TO_RENDER, its
        render buffer takes the time stamp and joins the back of the queue; an id the pool
        has not handed out is refused. */
    method Output(id: SurfaceId, timeStamp: int) returns (ok: bool)
      requires Valid()
      requires id in allocatedStates ==> allocatedStates[id] == Only(Decoding)
      modifies this, renderBuffers
      ensures Valid()
      ensures ok <==> id in old(allocatedStates)
      ensures !ok ==> unchanged(this) && unchanged(renderBuffers)
      ensures ok ==> allocatedStates == old(allocatedStates)[id := With(Only(Decoding), ToRender)]
                     && renderBuffers[renderMap[id]] == old(renderBuffers[renderMap[id]]).(timeStamp := timeStamp)
                     && (forall i :: 0 <= i < renderBuffers.Length && i != renderMap[id] ==> renderBuffers[i] == old(renderBuffers[i]))
                     && outputQueue == old(outputQueue) + [renderMap[id]]
                     && QueuedIds() == old(QueuedIds()) + [id]
                     && freed == old(freed) && flushing == old(flushing)
    {
      if id !in allocatedStates {
        return false;
      }
      var index := renderMap[id];
      StampRenderBuffer(index, timeStamp);
      MarkToRender(id);
      ok := true;
    }

    /** `buffer->timeStamp = timeStamp` on one render buffer. */
    method StampRenderBuffer(index: nat, timeStamp: int)
      requires Frame() && index < renderBuffers.Length
      modifies renderBuffers
      ensures Frame()
      ensures renderBuffers[index] == old(renderBuffers[index]).(timeStamp := timeStamp)
      ensures forall i :: 0 <= i < renderBuffers.Length && i != index ==> renderBuffers[i] == old(renderBuffers[i])
    {
      renderBuffers[index] := renderBuffers[index].(timeStamp := timeStamp);
    }

    /** The bookkeeping of output: TO_RENDER joins the surface's obligations and its render
        buffer joins the back of the queue. */
    method MarkToRender(id: SurfaceId)
      requires Valid() && id in allocatedStates && allocatedStates[id] == Only(Decoding)
      modifies this`allocatedStates, this`outputQueue
      ensures Valid()
      ensures allocatedStates == old(allocatedStates)[id := With(Only(Decoding), ToRender)]
      ensures outputQueue == old(outputQueue) + [renderMap[id]]
      ensures QueuedIds() == old(QueuedIds()) + [id]
    {
      MarkKeeps(freed, allocatedStates, outputQueue, id);
      var index := renderMap[id];
      allocatedStates := allocatedStates[id := With(allocatedStates[id], ToRender)];
      outputQueue := outputQueue + [index];
    }

    /** getOutput: the render buffer at the front of the queue, its surface moved from
        TO_RENDER to RENDERING; None when nothing is queued. */
    method GetOutput() returns (r: Option<nat>)
      requires Valid()
      modifies this`outputQueue, this`allocatedStates
      ensures Valid()
      ensures old(outputQueue) == [] ==> r == None && unchanged(this)
      ensures old(outputQueue) != [] ==>
                var id := surfaces[old(outputQueue)[0]];
                r == Some(old(outputQueue)[0]) && outputQueue == old(outputQueue)[1..]
                && Has(old(allocatedStates)[id], ToRender) && !Has(old(allocatedStates)[id], Rendering)
                && allocatedStates == old(allocatedStates)[id := ToggleRender(old(allocatedStates)[id])]
                && !Has(allocatedStates[id], ToRender) && Has(allocatedStates[id], Rendering)
                && freed == old(freed) && flushing == old(flushing)
    {
      if outputQueue == [] {
        return None;
      }
      TakeKeeps(freed, allocatedStates, outputQueue);
      var index := outputQueue[0];
      outputQueue := outputQueue[1..];
      var id := renderBuffers[index].surface;
      allocatedStates := allocatedStates[id := ToggleRender(allocatedStates[id])];
      r := Some(index);
    }

    /** setWaitable: a pool that may not wait behaves as flushing. */
    method SetWaitable(waitable: bool)
      requires Valid()
      modifies this`flushing
      ensures Valid()
      ensures flushing == !waitable
      ensures freed == old(freed) && allocatedStates == old(allocatedStates) && outputQueue == old(outputQueue)
    {
      flushing := !waitable;
    }

    /** recycleLocked: `flag` is cleared from an allocated surface; when no obligation is
        left it returns to the back of the free list, and a flush waiting for the last
        surface ends. An id the pool has not handed out changes nothing. */
    method RecycleLocked(id: SurfaceId, flag: Obligation)
      requires Ownership()
      requires flag == Decoding || flag == ToRender || flag == Rendering
      modifies this`freed, this`allocatedStates, this`flushing
      ensures Ownership()
      ensures outputQueue == old(outputQueue)
      ensures id !in old(allocatedStates) ==> unchanged(this)
      ensures id in old(allocatedStates) && Without(old(allocatedStates)[id], flag) != SURFACE_FREE ==>
                allocatedStates == old(allocatedStates)[id := Without(old(allocatedStates)[id], flag)]
                && freed == old(freed) && flushing == old(flushing)
      ensures id in old(allocatedStates) && Without(old(allocatedStates)[id], flag) == SURFACE_FREE ==>
                allocatedStates == old(allocatedStates) - {id} && freed == old(freed) + [id]
                && flushing == (old(flushing) && |allocatedStates| != 0)
    {
      if id !in allocatedStates {
        return;
      }
      var st := Without(allocatedStates[id], flag);
      if st == SURFACE_FREE {
        allocatedStates := allocatedStates - {id};
        freed := freed + [id];
        if flushing && |allocatedStates| == 0 {
          flushing := false;
        }
      } else {
        allocatedStates := allocatedStates[id := st];
      }
    }

    /** recycle(id, flag), called when a decoder releases its surface (DECODING) or by
        recycle(renderBuf) (RENDERING). */
    method Recycle(id: SurfaceId, flag: Obligation)
      requires Valid()
      requires flag == Decoding || flag == Rendering
      modifies this`freed, this`allocatedStates, this`flushing
      ensures Valid()
      ensures id !in old(allocatedStates) ==> unchanged(this)
      ensures id in old(allocatedStates) && Without(old(allocatedStates)[id], flag) != SURFACE_FREE ==>
                allocatedStates == old(allocatedStates)[id := Without(old(allocatedStates)[id], flag)]
                && freed == old(freed) && flushing == old(flushing) && outputQueue == old(outputQueue)
      ensures id in old(allocatedStates) && Without(old(allocatedStates)[id], flag) == SURFACE_FREE ==>
                allocatedStates == old(allocatedStates) - {id} && freed == old(freed) + [id]
                && flushing == (old(flushing) && |allocatedStates| != 0) && outputQueue == old(outputQueue)
    {
      RecycleLocked(id, flag);
    }

    /** recycle(renderBuf): a render buffer outside the pool's array is refused; otherwise
        its surface stops being rendered. A render buffer is named by its index. */
    method RecycleRenderBuffer(index: int)
      requires Valid()
      modifies this`freed, this`allocatedStates, this`flushing
      ensures Valid()
      ensures !(0 <= index < renderBuffers.Length) ==> unchanged(this)
      ensures 0 <= index < renderBuffers.Length ==>
                var id := surfaces[index];
                var st := if id in old(allocatedStates) then Without(old(allocatedStates)[id], Rendering) else SURFACE_FREE;
                (id !in old(allocatedStates) ==> unchanged(this))
                && (id in old(allocatedStates) && st != SURFACE_FREE ==>
                      allocatedStates == old(allocatedStates)[id := st] && freed == old(freed) && flushing == old(flushing))
                && (id in old(allocatedStates) && st == SURFACE_FREE ==>
                      allocatedStates == old(allocatedStates) - {id} && freed == old(freed) + [id]
                      && flushing == (old(flushing) && |allocatedStates| != 0))
                && outputQueue == old(outputQueue)
    {
      if index < 0 || index >= renderBuffers.Length {
        return;
      }
      Recycle(renderBuffers[index].surface, Rendering);
    }

    /** The loop of flush: recycleLocked(id, ToRender) for each queued surface,
        front to back. */
    method RecycleQueued(queue: seq<SurfaceId>)
      requires Ownership() && Distinct(queue)
      requires forall j :: 0 <= j < |queue| ==> queue[j] in allocatedStates && Has(allocatedStates[queue[j]], ToRender)
      modifies this`freed, this`allocatedStates, this`flushing
      ensures Ownership() && outputQueue == old(outputQueue)
      ensures allocatedStates == Recycled(old(allocatedStates), queue)
      ensures freed == old(freed) + ReleasedByFlush(queue, old(allocatedStates))
      ensures flushing ==> old(flushing)
      ensures |allocatedStates| != 0 || |old(allocatedStates)| == 0 ==> flushing == old(flushing)
      ensures |allocatedStates| == 0 && |old(allocatedStates)| != 0 ==> !flushing
    {
      ghost var alloc0 := allocatedStates;
      ghost var freed0 := freed;
      for k := 0 to |queue|
        invariant Ownership() && outputQueue == old(outputQueue)
        invariant allocatedStates == Recycled(alloc0, queue[..k])
        invariant freed == freed0 + ReleasedByFlush(queue[..k], alloc0)
        invariant flushing ==> old(flushing)
        invariant |allocatedStates| != 0 || |alloc0| == 0 ==> flushing == old(flushing)
        invariant |allocatedStates| == 0 && |alloc0| != 0 ==> !flushing
      {
        var id := queue[k];
        PrefixStep(queue, k);
        RecycledStep(alloc0, queue[..k], id);
        ghost var freedBefore := freed;
        RecycleLocked(id, ToRender);
        ReleasedPrefix(queue, k, alloc0, freed0, freedBefore, freed);
      }
      assert queue[..|queue|] == queue;
    }

    /** Free and allocated surfaces together are exactly the pool's surfaces. */
    lemma PoolSize()
      requires Valid()
      ensures |freed| + |allocatedStates| == |surfaces|
    {
      forall id | id in Elements(freed) + allocatedStates.Keys ensures id in Elements(surfaces) {
        assert surfaces[renderMap[id]] == id;
      }
      PartitionSize(surfaces, freed, allocatedStates.Keys);
    }

    /** flush: every queued surface loses TO_RENDER (those left with no obligation return
        to the free list, in queue order), the queue empties, and the pool is flushing
        exactly when some surface is still out; with none out, the flag is cleared if the
        flush released the last surface and left as it was if nothing was out before. */
    method Flush()
      requires Valid()
      modifies this
      ensures Valid()
      ensures outputQueue == []
      ensures allocatedStates == FlushedStates(old(allocatedStates))
      ensures freed == old(freed) + ReleasedByFlush(old(QueuedIds()), old(allocatedStates))
      ensures flushing == (|allocatedStates| != 0 || (old(flushing) && |old(allocatedStates)| == 0))
    {
      var queue := QueuedIds();
      ghost var alloc0 := allocatedStates;
      QueueFacts();
      RecycleQueued(queue);
      RecycledAll(alloc0, queue);
      FinishFlush();
    }

    /** What the queue invariant says about the queued ids: distinct, each allocated and
        waiting to be rendered, and every surface waiting to be rendered among them. */
    lemma QueueFacts()
      requires Valid()
      ensures Distinct(QueuedIds())
      ensures forall j :: 0 <= j < |QueuedIds()| ==>
                QueuedIds()[j] in allocatedStates && Has(allocatedStates[QueuedIds()[j]], ToRender)
      ensures forall id :: id in allocatedStates && Has(allocatedStates[id], ToRender) ==> id in QueuedIds()
    {
      var queue := QueuedIds();
      forall a, b | 0 <= a < b < |queue| ensures queue[a] != queue[b] {
        assert outputQueue[a] != outputQueue[b];
      }
      forall id | id in allocatedStates && Has(allocatedStates[id], ToRender) ensures id in queue {
        var k :| 0 <= k < |outputQueue| && outputQueue[k] == renderMap[id];
        assert queue[k] == id;
      }
    }

    /** The end of flush: the queue is cleared, and the pool goes on flushing while any
        surface is still out. */
    method FinishFlush()
      requires Layout()
      requires forall id :: id in allocatedStates ==> !Has(allocatedStates[id], ToRender)
      modifies this`outputQueue, this`flushing
      ensures Valid() && outputQueue == []
      ensures freed == old(freed) && allocatedStates == old(allocatedStates)
      ensures flushing == (|allocatedStates| != 0 || old(flushing))
    {
      outputQueue := [];
      if |allocatedStates| != 0 {
        flushing := true;
      }
    }
  }

  /** The ids of a sequence, as a set. */
  function Elements(s: seq<SurfaceId>): (r: set<SurfaceId>)
    ensures forall id :: id in r <==> id in s
  {
    if |s| == 0 then {} else {s[0]} + Elements(s[1..])
  }

  /** Each surface id is counted once: the set of a sequence without repeats is as large
      as the sequence. */
  lemma {:induction false} DistinctCardinality(s: seq<SurfaceId>)
    requires Distinct(s)
    ensures |Elements(s)| == |s|
  {
    if |s| > 0 {
      var rest := s[1..];
      assert Distinct(rest) by {
        forall a, b | 0 <= a < b < |rest| ensures rest[a] != rest[b] {
          assert rest[a] == s[a + 1] && rest[b] == s[b + 1];
        }
      }
      DistinctCardinality(rest);
      assert s[0] !in Elements(rest) by {
        forall a | 0 <= a < |rest| ensures rest[a] != s[0] {
          assert rest[a] == s[a + 1];
        }
      }
    }
  }

  /** Splitting a repeat-free sequence of ids into a repeat-free sequence and a disjoint
      set preserves the count. */
  lemma PartitionSize(all: seq<SurfaceId>, free: seq<SurfaceId>, taken: set<SurfaceId>)
    requires Distinct(all) && Distinct(free)
    requires Elements(all) == Elements(free) + taken
    requires Elements(free) !! taken
    ensures |free| + |taken| == |all|
  {
    DistinctCardinality(all);
    DistinctCardinality(free);
  }

  /** The ids created so far, or None as soon as one creation failed. */
  ghost predicate AllCreated(created: seq<Option<SurfaceId>>)
  {
    forall i :: 0 <= i < |created| ==> created[i].Some?
  }

  /** create: `surfaceNumber` surfaces are created in order (`created[i]` is what
      VaapiSurface::create answered the i-th time); the pool is null as soon as one
      creation fails, and otherwise holds exactly those surfaces, all free. */
  method Create(display: nat, surfaceNumber: nat, created: seq<Option<SurfaceId>>,
                wantSurfaceProtection: bool, wantRawOutput: bool)
    returns (pool: Option<DecSurfacePool>)
    requires !wantSurfaceProtection && !wantRawOutput
    requires |created| >= surfaceNumber
    requires forall i, j :: 0 <= i < j < surfaceNumber && created[i].Some? && created[j].Some?
               ==> created[i].value != created[j].value
    ensures pool.None? <==> !AllCreated(created[..surfaceNumber])
    ensures pool.Some? ==>
              fresh(pool.value) && fresh(pool.value.renderBuffers) && pool.value.Valid()
              && |pool.value.surfaces| == surfaceNumber
              && (forall i :: 0 <= i < surfaceNumber ==> pool.value.surfaces[i] == created[i].value)
              && pool.value.freed == pool.value.surfaces && pool.value.allocatedStates == map[]
              && pool.value.outputQueue == [] && !pool.value.flushing
  {
    var surfaces: seq<SurfaceId> := [];
    for i := 0 to surfaceNumber
      invariant |surfaces| == i && AllCreated(created[..i])
      invariant forall j :: 0 <= j < i ==> surfaces[j] == created[j].value
    {
      if created[i].None? {
        assert !AllCreated(created[..surfaceNumber]) by {
          assert created[..surfaceNumber][i] == created[i];
        }
        return None;
      }
      surfaces := surfaces + [created[i].value];
      assert created[..i + 1] == created[..i] + [created[i]];
    }
    var p := new DecSurfacePool(display, surfaces);
    pool := Some(p);
  }
}
