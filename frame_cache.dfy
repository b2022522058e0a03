/** The frame cache of alarm-base/src/frame.rs: a fixed array of three
    optional frames that serves as a frame allocator when no other is
    available. `alloc` takes the frame in the first occupied slot and
    `dealloc` puts a frame into the first empty one. */
module FrameCache {
  import opened Results
  import opened Bits

  /** Log base 2 of the size of a page frame. The frame type's `Page::SIZE`
      is not part of this model; a 4 KiB frame is assumed. */
  const FRAME_LOG2: nat := 12

  /** `FRAME_SIZE`: the size of a page frame in bytes. */
  const FRAME_SIZE: nat := Pow2(FRAME_LOG2)

  /** The number of slots in a cache. */
  const SLOTS: nat := 3

  /** A memory request: a size and an alignment. */
  datatype Layout = Layout(size: nat, align: nat)

  /** The allocation errors a frame allocator reports. */
  datatype AllocErr = Exhausted(request: Layout) | Unsupported(details: string)

  /** What `dealloc` reports when every slot is full. */
  const FullDetails := "FrameCache can only hold three frames!"

  /** `Result::ok`: the frame of a successful request, nothing otherwise. */
  function Ok<F>(r: Result<F, AllocErr>): (o: Option<F>)
    ensures o.Some? <==> r.Success?
    ensures o.Some? ==> o.value == r.value
  {
    match r
    case Success(f) => Some(f)
    case Failure(_) => None
  }

  /** The index of the first occupied slot, or the number of slots if all
      are empty. */
  function FirstFull<F>(s: seq<Option<F>>): (i: nat)
    ensures i <= |s|
    ensures i < |s| ==> s[i].Some?
    ensures forall k :: 0 <= k < i ==> s[k].None?
  {
    if s == [] then 0 else if s[0].Some? then 0 else 1 + FirstFull(s[1..])
  }

  /** The index of the first empty slot, or the number of slots if all are
      full. */
  function FirstEmpty<F>(s: seq<Option<F>>): (i: nat)
    ensures i <= |s|
    ensures i < |s| ==> s[i].None?
    ensures forall k :: 0 <= k < i ==> s[k].Some?
  {
    if s == [] then 0 else if s[0].None? then 0 else 1 + FirstEmpty(s[1..])
  }

  /** The frames held in the slots, with their multiplicities. */
  ghost function Frames<F>(s: seq<Option<F>>): multiset<F>
  {
    if s == [] then multiset{}
    else (if s[0].Some? then multiset{s[0].value} else multiset{}) + Frames(s[1..])
  }

  /** Emptying an occupied slot removes exactly its frame. */
  lemma {:induction false} TakeRemovesFrame<F>(s: seq<Option<F>>, i: nat)
    requires i < |s| && s[i].Some?
    ensures Frames(s[i := None]) + multiset{s[i].value} == Frames(s)
    decreases i
  {
    if i > 0 {
      TakeRemovesFrame(s[1..], i - 1);
      assert s[i := None][1..] == s[1..][i - 1 := None];
    } else {
      assert s[i := None][1..] == s[1..];
    }
  }

  /** Filling an empty slot adds exactly the new frame. */
  lemma {:induction false} PutAddsFrame<F>(s: seq<Option<F>>, i: nat, f: F)
    requires i < |s| && s[i].None?
    ensures Frames(s[i := Some(f)]) == Frames(s) + multiset{f}
    decreases i
  {
    if i > 0 {
      PutAddsFrame(s[1..], i - 1, f);
      assert s[i := Some(f)][1..] == s[1..][i - 1 := Some(f)];
    } else {
      assert s[i := Some(f)][1..] == s[1..];
    }
  }

  /** Counting the frames: a cache has no frame exactly when no slot is
      occupied, and every slot is occupied exactly when it holds as many
      frames as slots. So `alloc` fails only on an empty cache and
      `dealloc` only on a full one. */
  lemma {:induction false} FramesCount<F>(s: seq<Option<F>>)
    ensures |Frames(s)| <= |s|
    ensures |Frames(s)| == 0 <==> FirstFull(s) == |s|
    ensures |Frames(s)| == |s| <==> FirstEmpty(s) == |s|
  {
    if s != [] {
      FramesCount(s[1..]);
    }
  }

  /** A frame cache: exactly three slots. */
  class Cache<F> {
    const slots: array<Option<F>>

    ghost predicate Valid()
    {
      slots.Length == SLOTS
    }

    /** `from_frames`: a cache holding the three frames, one per slot. */
    constructor FromFrames(f1: F, f2: F, f3: F)
      ensures Valid() && fresh(slots)
      ensures slots[..] == [Some(f1), Some(f2), Some(f3)]
    {
      slots := new Option<F>[SLOTS] [Some(f1), Some(f2), Some(f3)];
    }

    /** `from_alloc`: asks another frame allocator for three frames; slot
        `i` holds the frame of the `i`-th request if that one succeeded and
        is empty otherwise. The other allocator is not part of this model:
        the three outcomes of its `alloc` are the parameters. */
    constructor FromAlloc(r1: Result<F, AllocErr>, r2: Result<F, AllocErr>, r3: Result<F, AllocErr>)
      ensures Valid() && fresh(slots)
      ensures slots[0].Some? <==> r1.Success?
      ensures slots[1].Some? <==> r2.Success?
      ensures slots[2].Some? <==> r3.Success?
      ensures slots[..] == [Ok(r1), Ok(r2), Ok(r3)]
    {
      slots := new Option<F>[SLOTS] [Ok(r1), Ok(r2), Ok(r3)];
    }

    /** `Allocator::alloc`: takes the frame out of the first occupied slot
        and leaves every other slot alone; with no frame left it fails with
        `Exhausted`, carrying a one-frame, frame-aligned request. */
    method Alloc() returns (r: Result<F, AllocErr>)
      requires Valid()
      modifies slots
      ensures Valid()
      ensures FirstFull(old(slots[..])) == SLOTS ==>
                r == Failure(Exhausted(Layout(FRAME_SIZE, FRAME_SIZE))) && slots[..] == old(slots[..])
      ensures FirstFull(old(slots[..])) < SLOTS ==>
                && r == Success(old(slots[FirstFull(slots[..])]).value)
                && slots[..] == old(slots[..])[FirstFull(old(slots[..])) := None]
      ensures r.Success? ==> Frames(slots[..]) + multiset{r.value} == Frames(old(slots[..]))
    {
      var i := 0;
      while i < slots.Length && slots[i].None?
        invariant 0 <= i <= slots.Length
        invariant forall k :: 0 <= k < i ==> slots[k].None?
      {
        i := i + 1;
      }
      FirstFullAt(slots[..], i);
      if i == slots.Length {
        return Failure(Exhausted(Layout(FRAME_SIZE, FRAME_SIZE)));
      }
      r := Success(slots[i].value);
      TakeRemovesFrame(slots[..], i);
      slots[i] := None;
    }

    /** `Allocator::dealloc`: stores the frame in the first empty slot and
        leaves every other slot alone; with every slot full it fails with
        `Unsupported` and changes nothing. */
    method Dealloc(frame: F) returns (r: Result<(), AllocErr>)
      requires Valid()
      modifies slots
      ensures Valid()
      ensures FirstEmpty(old(slots[..])) == SLOTS ==>
                r == Failure(Unsupported(FullDetails)) && slots[..] == old(slots[..])
      ensures FirstEmpty(old(slots[..])) < SLOTS ==>
                r == Success(()) && slots[..] == old(slots[..])[FirstEmpty(old(slots[..])) := Some(frame)]
      ensures r.Success? ==> Frames(slots[..]) == Frames(old(slots[..])) + multiset{frame}
    {
      var i := 0;
      while i < slots.Length && slots[i].Some?
        invariant 0 <= i <= slots.Length
        invariant forall k :: 0 <= k < i ==> slots[k].Some?
      {
        i := i + 1;
      }
      FirstEmptyAt(slots[..], i);
      if i == slots.Length {
        return Failure(Unsupported(FullDetails));
      }
      PutAddsFrame(slots[..], i, frame);
      slots[i] := Some(frame);
      r := Success(());
    }
  }

  /** The first position whose slot is occupied, found by a scan, is
      `FirstFull`. */
  lemma {:induction false} FirstFullAt<F>(s: seq<Option<F>>, i: nat)
    requires i <= |s| && (i < |s| ==> s[i].Some?)
    requires forall k :: 0 <= k < i ==> s[k].None?
    ensures FirstFull(s) == i
    decreases i
  {
    if i > 0 {
      FirstFullAt(s[1..], i - 1);
    }
  }

  /** The first position whose slot is empty, found by a scan, is
      `FirstEmpty`. */
  lemma {:induction false} FirstEmptyAt<F>(s: seq<Option<F>>, i: nat)
    requires i <= |s| && (i < |s| ==> s[i].None?)
    requires forall k :: 0 <= k < i ==> s[k].Some?
    ensures FirstEmpty(s) == i
    decreases i
  {
    if i > 0 {
      FirstEmptyAt(s[1..], i - 1);
    }
  }
}
