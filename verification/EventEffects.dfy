/** What one submission does to an event queue, said on the queue alone. */
module EventEffects {
  import opened Options
  import opened Counters
  import opened Ring
  import opened Events

  /** An event that may not be merged away or displaced by others: anything but a geometry or scale report. */
  predicate Lasting(p: Payload) {
    p.Durable? || p.NativeDestroyed?
  }

  predicate Alike(p: Payload, q: Payload) {
    (p.ContentScale? && q.ContentScale?) || (p.Latest? && q.Latest? && p.slot == q.slot)
  }

  /** Event `k` is the one that the payload merges into: the last of its kind, with no lasting event behind it. */
  ghost predicate MergesInto(q: seq<Event>, p: Payload, k: nat) {
    && k < |q| && Alike(q[k].data, p)
    && forall j | k < j < |q| :: !Lasting(q[j].data) && !Alike(q[j].data, p)
  }

  /** Event `k` gives way in a full queue: the first that is not lasting, or the oldest if all are. */
  ghost predicate GivesWay(q: seq<Event>, k: nat) {
    && k < |q| && (forall j | 0 <= j < k :: Lasting(q[j].data))
    && (Lasting(q[k].data) ==> k == 0 && forall j | 0 <= j < |q| :: Lasting(q[j].data))
  }

  ghost predicate AllLasting(q: seq<Event>) {
    forall j | 0 <= j < |q| :: Lasting(q[j].data)
  }

  /** The merged payload, or nothing when a scale returns to where the queued transition began. */
  function Merged(queued: Payload, p: Payload): Option<Payload>
    requires Alike(queued, p)
  {
    if p.Latest? then Some(p)
    else if queued.previous == p.current then None
    else Some(ContentScale(queued.previous, p.current, p.pixels))
  }

  lemma MatchIsMerge(q: seq<Event>, p: Payload)
    ensures var m := if IsCoalescible(p) then TrailingMatch(q, p) else None;
            && (m.Some? ==> MergesInto(q, p, m.value))
            && (forall k: nat | MergesInto(q, p, k) :: m == Some(k))
  {
    hide TrailingMatch;
    var m := if IsCoalescible(p) then TrailingMatch(q, p) else None;
    forall k: nat | MergesInto(q, p, k)
      ensures m == Some(k)
    {
      assert SameKind(q[k].data, p) && !Separated(q, k, |q|);
    }
  }

  lemma VictimGivesWay(q: seq<Event>, p: Payload)
    ensures var k := ReplaceIndex(q, p);
            && (k < |q| ==> GivesWay(q, k))
            && (k == |q| <==> AllLasting(q) && (!p.NativeDestroyed? || q == []))
  {
    hide FirstCoalescible;
  }

  /** Who is let in, and who is turned away. */
  lemma EnqueueAnswers(s: State, p: Payload)
    requires |s.queue| <= s.capacity
    ensures var r, merges := Enqueued(s, p).1, exists k: nat :: MergesInto(s.queue, p, k);
            && (r == Coalesced <==> s.suppressed || (s.capacity > 0 && merges))
            && (r == Dropped <==>
                  !s.suppressed &&
                  (s.capacity == 0 || (!merges && |s.queue| == s.capacity && AllLasting(s.queue) && !p.NativeDestroyed?)))
  {
    MatchIsMerge(s.queue, p);
    VictimGivesWay(s.queue, p);
    hide TrailingMatch, ReplaceIndex, CoalesceAt, Append, Evict, MergesInto;
  }

  /** What is left of the queue in each case; sequence numbers, the counter and the drop count included. */
  ghost predicate Effect(s: State, p: Payload, s': State, r: EnqueueResult) {
    var q, e := s.queue, Event(s.next, p);
    match r
    case Dropped => s' == s.(dropped := Increment(s.dropped))
    case Queued =>
      && s'.next == Increment(s.next)
      && if |q| < s.capacity then s' == s.(queue := q + [e], next := s'.next)
         else exists k: nat ::
                GivesWay(q, k) && s' == s.(queue := q[..k] + q[k + 1..] + [e], next := s'.next, dropped := Increment(s.dropped))
    case Coalesced =>
      if s.suppressed then s' == s
      else exists k: nat ::
             && MergesInto(q, p, k)
             && s' == s.(queue := match Merged(q[k].data, p)
                                  case Some(data) => q[k := Event(q[k].sequence, data)]
                                  case None => q[..k] + q[k + 1..])
  }

  lemma CoalesceEffect(s: State, p: Payload, k: nat)
    requires MergesInto(s.queue, p, k)
    ensures SameKind(s.queue[k].data, p)
    ensures CoalesceAt(s, k, p) == s.(queue := match Merged(s.queue[k].data, p)
                                               case Some(data) => s.queue[k := Event(s.queue[k].sequence, data)]
                                               case None => s.queue[..k] + s.queue[k + 1..])
  {
  }

  lemma EnqueueEffect(s: State, p: Payload)
    requires |s.queue| <= s.capacity
    ensures Effect(s, p, Enqueued(s, p).0, Enqueued(s, p).1)
  {
    MatchIsMerge(s.queue, p);
    VictimGivesWay(s.queue, p);
    hide TrailingMatch, ReplaceIndex, MergesInto, GivesWay, Merged;
    var m := if IsCoalescible(p) then TrailingMatch(s.queue, p) else None;
    if !s.suppressed && s.capacity > 0 && m.Some? {
      CoalesceEffect(s, p, m.value);
    }
    hide CoalesceAt;
  }
}
