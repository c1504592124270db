/** The coalescing event queue of a child surface and of a window, on sequences.

    Both queues follow one policy over different payload alphabets. A payload here is one of: the loss of the native
    host; a geometry report of which only the latest value matters; a content-scale transition; or any other event,
    which is durable. */
module Events {
  import opened Options
  import opened Counters
  import opened Ring

  datatype Slot = Position | Size | PixelSize

  /** A content scale and the effective DPI that goes with it, compared for equality only. */
  datatype Scale = Scale(scale: int, dpi: int)

  datatype Payload =
    | NativeDestroyed
    | Latest(slot: Slot, value: int)
    | ContentScale(previous: Scale, current: Scale, pixels: int)
    | Durable(tag: nat, value: int)

  datatype Event = Event(sequence: nat, data: Payload)

  datatype EnqueueResult = Queued | Coalesced | Dropped

  datatype State = State(queue: seq<Event>, capacity: nat, next: nat, dropped: nat, suppressed: bool)

  predicate IsCoalescible(p: Payload) {
    p.Latest? || p.ContentScale?
  }

  /** Two coalescible payloads of one variant alternative. */
  predicate SameKind(p: Payload, q: Payload) {
    (p.ContentScale? && q.ContentScale?) || (p.Latest? && q.Latest? && p.slot == q.slot)
  }

  /** A durable event stands between two positions. */
  ghost predicate Separated(q: seq<Event>, i: nat, j: nat)
    requires j <= |q|
  {
    exists k | i < k < j :: !IsCoalescible(q[k].data)
  }

  /** The event of the same kind in the run of coalescible events at the tail. */
  function TrailingMatch(q: seq<Event>, p: Payload): (r: Option<nat>)
    ensures r.Some? ==> r.value < |q| && SameKind(q[r.value].data, p)
    ensures r.Some? ==> forall j | r.value < j < |q| :: IsCoalescible(q[j].data) && !SameKind(q[j].data, p)
    ensures r.None? ==> forall i | 0 <= i < |q| && SameKind(q[i].data, p) :: Separated(q, i, |q|)
  {
    if q == [] then None
    else
      var last := |q| - 1;
      if !IsCoalescible(q[last].data) then
        assert forall i | 0 <= i < last :: Separated(q, i, |q|);
        None
      else if SameKind(q[last].data, p) then Some(last)
      else
        var r := TrailingMatch(q[..last], p);
        assert forall i | 0 <= i < last :: q[..last][i] == q[i];
        assert forall i | 0 <= i < last :: Separated(q[..last], i, last) ==> Separated(q, i, |q|);
        r
  }

  function FirstCoalescible(q: seq<Event>): (k: nat)
    ensures k <= |q| && (k < |q| ==> IsCoalescible(q[k].data))
    ensures forall i | 0 <= i < k :: !IsCoalescible(q[i].data)
  {
    if q == [] || IsCoalescible(q[0].data) then 0 else 1 + FirstCoalescible(q[1..])
  }

  /** `mergeContentScaleChanged`: the first transition's start with the last one's end. */
  function MergeScale(queued: Payload, latest: Payload): Payload
    requires queued.ContentScale? && latest.ContentScale?
  {
    ContentScale(queued.previous, latest.current, latest.pixels)
  }

  predicate NoNetChange(queued: Payload, latest: Payload)
    requires queued.ContentScale? && latest.ContentScale?
  {
    queued.previous == latest.current
  }

  /** The position that gives way when the queue is full, or the queue length when none does. */
  function ReplaceIndex(q: seq<Event>, p: Payload): (k: nat)
    ensures k <= |q|
  {
    var k := FirstCoalescible(q);
    if k == |q| && p.NativeDestroyed? && q != [] then 0 else k
  }

  function CoalesceAt(s: State, k: nat, p: Payload): State
    requires k < |s.queue| && SameKind(s.queue[k].data, p)
  {
    var e := s.queue[k];
    if !p.ContentScale? then s.(queue := s.queue[k := e.(data := p)])
    else if NoNetChange(e.data, p) then s.(queue := RemoveIndex(s.queue, k))
    else s.(queue := s.queue[k := e.(data := MergeScale(e.data, p))])
  }

  function Append(s: State, p: Payload): State {
    s.(queue := s.queue + [Event(s.next, p)], next := Increment(s.next))
  }

  function Evict(s: State, k: nat): State
    requires k < |s.queue|
  {
    s.(queue := RemoveIndex(s.queue, k), dropped := Increment(s.dropped))
  }

  /** `enqueueChildSurfaceEvent` and `enqueueEvent`. */
  function Enqueued(s: State, p: Payload): (State, EnqueueResult) {
    if s.suppressed then (s, Coalesced)
    else if s.capacity == 0 then (s.(dropped := Increment(s.dropped)), Dropped)
    else
      var match_ := if IsCoalescible(p) then TrailingMatch(s.queue, p) else None;
      if match_.Some? then (CoalesceAt(s, match_.value, p), Coalesced)
      else if |s.queue| < s.capacity then (Append(s, p), Queued)
      else
        var k := ReplaceIndex(s.queue, p);
        if k == |s.queue| then (s.(dropped := Increment(s.dropped)), Dropped) else (Append(Evict(s, k), p), Queued)
  }

  // ---------------------------------------------------------------- the ring

  class EventQueue {
    const ring: Ring<Event>
    var nextSequence: nat
    var droppedEvents: nat
    var suppressEvents: bool

    constructor (capacity: nat, nextSequence: nat)
      requires nextSequence < TWO_TO_64
      ensures Valid() && fresh(ring) && fresh(ring.slots)
      ensures Model() == State([], capacity, nextSequence, 0, true)
    {
      ring := new Ring<Event>(capacity, Event(0, NativeDestroyed));
      this.nextSequence, droppedEvents, suppressEvents := nextSequence, 0, true;
    }

    ghost predicate Valid()
      reads this, ring, ring.slots
    {
      ring.Valid()
    }

    ghost function Model(): State
      requires Valid()
      reads this, ring, ring.slots
    {
      State(ring.Contents(), ring.slots.Length, nextSequence, droppedEvents, suppressEvents)
    }

    method Enqueue(p: Payload) returns (r: EnqueueResult)
      requires Valid()
      modifies this`nextSequence, this`droppedEvents, ring, ring.slots
      ensures Valid() && (Model(), r) == Enqueued(old(Model()), p)
    {
      hide TrailingMatch, FirstCoalescible, CoalesceAt, RemoveIndex, AllEqual;
      if suppressEvents {
        return Coalesced;
      }
      if ring.slots.Length == 0 {
        droppedEvents := Increment(droppedEvents);
        return Dropped;
      }
      if IsCoalescible(p) {
        var found := Coalesce(p);
        if found {
          return Coalesced;
        }
      }
      if ring.count == ring.slots.Length {
        var replaceIndex := FindCoalescible();
        if replaceIndex == ring.count && p.NativeDestroyed? {
          replaceIndex := 0;
        }
        if replaceIndex == ring.count {
          droppedEvents := Increment(droppedEvents);
          return Dropped;
        }
        ring.RemoveAt(replaceIndex);
        droppedEvents := Increment(droppedEvents);
      }
      ring.PushBack(Event(nextSequence, p));
      nextSequence := Increment(nextSequence);
      return Queued;
    }

    /** The backward scan over the trailing run, merging into the event it finds. */
    method Coalesce(p: Payload) returns (found: bool)
      requires Valid() && IsCoalescible(p)
      modifies ring, ring.slots
      ensures Valid()
      ensures found <==> TrailingMatch(old(ring.Contents()), p).Some?
      ensures Model() == if found then CoalesceAt(old(Model()), TrailingMatch(old(ring.Contents()), p).value, p) else old(Model())
    {
      hide RemoveIndex, AllEqual, CoalesceAt;
      ghost var q := ring.Contents();
      var offset := ring.count;
      assert q[..offset] == q;
      while offset > 0
        invariant offset <= ring.count == |q| && ring.Valid() && ring.Contents() == q
        invariant TrailingMatch(q, p) == TrailingMatch(q[..offset], p)
      {
        var queued := ring.At(offset - 1);
        assert q[..offset][..offset - 1] == q[..offset - 1];
        if !IsCoalescible(queued.data) {
          return false;
        }
        if SameKind(queued.data, p) {
          MergeAt(offset - 1, queued, p);
          return true;
        }
        offset := offset - 1;
      }
      return false;
    }

    method MergeAt(k: nat, queued: Event, p: Payload)
      requires Valid() && k < ring.count && queued == ring.Contents()[k] && SameKind(queued.data, p)
      modifies ring, ring.slots
      ensures Valid() && Model() == CoalesceAt(old(Model()), k, p)
    {
      hide RemoveIndex, AllEqual;
      if p.ContentScale? && NoNetChange(queued.data, p) {
        ring.RemoveAt(k);
      } else {
        var data := if p.ContentScale? then MergeScale(queued.data, p) else p;
        ring.Put(k, queued.(data := data));
      }
    }

    method FindCoalescible() returns (k: nat)
      requires Valid()
      ensures k == FirstCoalescible(ring.Contents())
    {
      k := 0;
      ghost var q := ring.Contents();
      while k < ring.count
        invariant k <= ring.count && FirstCoalescible(q) == k + FirstCoalescible(q[k..])
      {
        var queued := ring.At(k);
        assert q[k..][1..] == q[k + 1..];
        if IsCoalescible(queued.data) {
          return;
        }
        k := k + 1;
      }
    }

    /** `popEvent` on the owner thread. */
    method PopEvent() returns (r: Option<Event>)
      requires Valid()
      modifies ring, ring.slots
      ensures Valid()
      ensures if old(ring.Contents()) == [] then r == None && Model() == old(Model())
              else r == Some(old(ring.Contents())[0]) && Model() == old(Model()).(queue := old(ring.Contents())[1..])
    {
      if ring.count == 0 {
        return None;
      }
      var e := ring.PopFront();
      if ring.count == 0 {
        ring.ResetHead();
      }
      return Some(e);
    }

    /** `popEvents`: pops until the destination is full or the queue is empty. */
    method PopEvents(room: nat) returns (popped: seq<Event>)
      requires Valid()
      modifies ring, ring.slots
      ensures Valid()
      ensures var q := old(ring.Contents());
              var n := if room < |q| then room else |q|;
              popped == q[..n] && Model() == old(Model()).(queue := q[n..])
    {
      popped := [];
      ghost var q := ring.Contents();
      while |popped| < room && ring.count > 0
        invariant Valid() && |popped| <= room && |popped| <= |q| && popped == q[..|popped|]
        invariant Model() == old(Model()).(queue := q[|popped|..])
        decreases room - |popped|
      {
        var e := PopEvent();
        popped := popped + [e.value];
      }
    }

    method ClearEvents()
      requires Valid()
      modifies ring, ring.slots
      ensures Valid() && Model() == old(Model()).(queue := [])
    {
      ring.Clear();
    }

    method ClearDroppedEventCount()
      requires Valid()
      modifies this`droppedEvents
      ensures Valid() && Model() == old(Model()).(dropped := 0)
    {
      droppedEvents := 0;
    }
  }
}
