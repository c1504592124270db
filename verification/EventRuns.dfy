/** What a consumer can rely on over whole runs of an event queue. */
module EventRuns {
  import opened Options
  import opened Counters
  import opened Ring
  import opened Events

  datatype Op = Submit(payload: Payload) | Pop | Clear | ResetDropped | Suppress(on: bool)

  /** A queue together with everything that happened to it. `tickets` gives, for every delivered and then every
      queued event, how many sequence numbers were issued before its own. */
  datatype Ledger = Ledger(
    state: State, submitted: seq<Payload>, delivered: seq<Event>, tickets: seq<nat>, start: nat,
    issued: nat, cleared: nat, evicted: nat, cancelled: nat, rejected: nat, settled: nat)

  function Stream(l: Ledger): seq<Event> {
    l.delivered + l.state.queue
  }

  function Begin(capacity: nat, start: nat): Ledger {
    Ledger(State([], capacity, start % TWO_TO_64, 0, true), [], [], [], start, 0, 0, 0, 0, 0, 0)
  }

  ghost predicate Room(l: Ledger) {
    |l.tickets| == |l.delivered| + |l.state.queue|
  }

  /** The books for a submission, by what the queue did with it. */
  ghost function Submitted(l: Ledger, p: Payload): Ledger
    requires Room(l)
  {
    var s := l.state;
    var s' := Enqueued(s, p).0;
    var base := |l.delivered|;
    if s.suppressed then l
    else
      var m := l.(state := s', submitted := l.submitted + [p]);
      var found := if IsCoalescible(p) && s.capacity > 0 then TrailingMatch(s.queue, p) else None;
      if s.capacity == 0 then m.(rejected := l.rejected + 1)
      else if found.Some? then
        if |s'.queue| == |s.queue| then m
        else m.(cancelled := l.cancelled + 1, tickets := RemoveIndex(l.tickets, base + found.value))
      else if |s.queue| < s.capacity then m.(issued := l.issued + 1, tickets := l.tickets + [l.issued])
      else
        var k := ReplaceIndex(s.queue, p);
        if k == |s.queue| then m.(rejected := l.rejected + 1)
        else m.(issued := l.issued + 1, evicted := l.evicted + 1, tickets := RemoveIndex(l.tickets, base + k) + [l.issued])
  }

  ghost function Step(l: Ledger, op: Op): Ledger
    requires Room(l)
  {
    var q := l.state.queue;
    match op
    case Submit(p) => Submitted(l, p)
    case Pop => if q == [] then l else l.(state := l.state.(queue := q[1..]), delivered := l.delivered + [q[0]])
    case Clear => l.(state := l.state.(queue := []), cleared := l.cleared + |q|, tickets := l.tickets[..|l.delivered|])
    case ResetDropped => l.(state := l.state.(dropped := 0), settled := l.rejected + l.evicted)
    case Suppress(on) => l.(state := l.state.(suppressed := on))
  }

  // ---------------------------------------------------------------- invariants of every run

  /** Within a run of coalescible events, no two are of one kind. */
  ghost predicate RunsUnique(q: seq<Event>) {
    forall i, j | 0 <= i < j < |q| && SameKind(q[i].data, q[j].data) :: Separated(q, i, j)
  }

  ghost predicate Numbered(l: Ledger) {
    && Room(l)
    && (forall i, j | 0 <= i < j < |l.tickets| :: l.tickets[i] < l.tickets[j])
    && (forall i | 0 <= i < |l.tickets| ::
          l.tickets[i] < l.issued && Stream(l)[i].sequence == (l.start + l.tickets[i]) % TWO_TO_64)
    && l.state.next == (l.start + l.issued) % TWO_TO_64
  }

  /** Every number issued is accounted for, and so is every drop. */
  ghost predicate Balanced(l: Ledger) {
    && l.issued == |l.delivered| + l.cleared + |l.state.queue| + l.evicted + l.cancelled
    && l.settled <= l.rejected + l.evicted
    && l.state.dropped == (l.rejected + l.evicted - l.settled) % TWO_TO_64
  }

  ghost predicate Inv(l: Ledger) {
    |l.state.queue| <= l.state.capacity && RunsUnique(l.state.queue) && Numbered(l) && Balanced(l)
  }

  lemma RemovedIndex<T>(s: seq<T>, k: nat)
    requires k < |s|
    ensures forall i | 0 <= i < |s| - 1 :: RemoveIndex(s, k)[i] == s[if i < k then i else i + 1]
  {
  }

  /** Removing a coalescible event removes no separator. */
  lemma SeparatorSurvives(q: seq<Event>, k: nat, i: nat, j: nat)
    requires k < |q| && IsCoalescible(q[k].data) && i < j < |q|
    requires Separated(q, if i < k then i else i + 1, if j < k then j else j + 1)
    ensures Separated(RemoveIndex(q, k), i, j)
  {
    hide RemoveIndex;
    RemovedIndex(q, k);
    var a, b := if i < k then i else i + 1, if j < k then j else j + 1;
    var c :| a < c < b && !IsCoalescible(q[c].data);
    assert RemoveIndex(q, k)[if c < k then c else c - 1] == q[c];
  }

  /** Coalescible events may leave a queue from anywhere; runs stay free of repetitions. */
  lemma RemovalKeepsRuns(q: seq<Event>, k: nat)
    requires RunsUnique(q) && k < |q|
    requires IsCoalescible(q[k].data) || forall i | 0 <= i < |q| :: !IsCoalescible(q[i].data)
    ensures RunsUnique(RemoveIndex(q, k))
  {
    hide RemoveIndex, Separated;
    var r := RemoveIndex(q, k);
    RemovedIndex(q, k);
    forall i, j | 0 <= i < j < |r| && SameKind(r[i].data, r[j].data)
      ensures Separated(r, i, j)
    {
      SeparatorSurvives(q, k, i, j);
    }
  }

  lemma AppendKeepsRuns(q: seq<Event>, e: Event)
    requires RunsUnique(q)
    requires forall i | 0 <= i < |q| && SameKind(q[i].data, e.data) :: Separated(q, i, |q|)
    ensures RunsUnique(q + [e])
  {
    var r := q + [e];
    forall i, j | 0 <= i < j < |r| && SameKind(r[i].data, r[j].data)
      ensures Separated(r, i, j)
    {
      assert r[i] == q[i] && (j < |q| ==> r[j] == q[j]);
      assert Separated(q, i, j);
      var c :| i < c < j && !IsCoalescible(q[c].data);
      assert r[c] == q[c];
    }
  }

  lemma ReplaceKeepsRuns(q: seq<Event>, k: nat, e: Event)
    requires RunsUnique(q) && k < |q| && SameKind(q[k].data, e.data)
    ensures RunsUnique(q[k := e])
  {
    var r := q[k := e];
    forall i, j | 0 <= i < j < |r| && SameKind(r[i].data, r[j].data)
      ensures Separated(r, i, j)
    {
      assert SameKind(q[i].data, q[j].data) && Separated(q, i, j);
      var c :| i < c < j && !IsCoalescible(q[c].data);
      assert r[c] == q[c];
    }
  }

  lemma EnqueueKeepsRuns(s: State, p: Payload)
    requires |s.queue| <= s.capacity && RunsUnique(s.queue)
    ensures var s' := Enqueued(s, p).0; |s'.queue| <= s'.capacity == s.capacity && RunsUnique(s'.queue)
  {
    hide RunsUnique, TrailingMatch, FirstCoalescible;
    var found := if IsCoalescible(p) then TrailingMatch(s.queue, p) else None;
    if s.suppressed || s.capacity == 0 {
    } else if found.Some? {
      var k := found.value;
      var e := s.queue[k];
      if p.ContentScale? && NoNetChange(e.data, p) {
        RemovalKeepsRuns(s.queue, k);
      } else {
        var data := if p.ContentScale? then MergeScale(e.data, p) else p;
        ReplaceKeepsRuns(s.queue, k, e.(data := data));
      }
    } else if |s.queue| < s.capacity {
      AppendKeepsRuns(s.queue, Event(s.next, p));
    } else {
      var k := ReplaceIndex(s.queue, p);
      if k < |s.queue| {
        RemovalKeepsRuns(s.queue, k);
        LateSeparator(s.queue, k, p);
        AppendKeepsRuns(RemoveIndex(s.queue, k), Event(s.next, p));
      }
    }
  }

  /** Evicting a coalescible event does not bring an earlier event of the new one's kind into the trailing run. */
  lemma LateSeparator(q: seq<Event>, k: nat, p: Payload)
    requires k < |q| && (IsCoalescible(q[k].data) || forall i | 0 <= i < |q| :: !IsCoalescible(q[i].data))
    requires !IsCoalescible(p) || TrailingMatch(q, p).None?
    ensures var r := RemoveIndex(q, k);
            forall i | 0 <= i < |r| && SameKind(r[i].data, p) :: Separated(r, i, |r|)
  {
    hide TrailingMatch, RemoveIndex, Separated;
    var r := RemoveIndex(q, k);
    RemovedIndex(q, k);
    forall i | 0 <= i < |r| && SameKind(r[i].data, p)
      ensures Separated(r, i, |r|)
    {
      SeparatorSurvives(q, k, i, |r|);
    }
  }

  lemma NextNumber(start: nat, issued: nat)
    ensures Increment((start + issued) % TWO_TO_64) == (start + issued + 1) % TWO_TO_64
  {
  }

  lemma CountDrop(n: nat)
    ensures Increment(n % TWO_TO_64) == (n + 1) % TWO_TO_64
  {
  }

  // ---------------------------------------------------------------- numbers and balances

  lemma RemovalKeepsNumbers(l: Ledger, k: nat, queue: seq<Event>)
    requires Numbered(l) && k < |l.state.queue| && queue == RemoveIndex(l.state.queue, k)
    ensures Numbered(l.(state := l.state.(queue := queue), tickets := RemoveIndex(l.tickets, |l.delivered| + k)))
  {
    var base := |l.delivered|;
    hide RemoveIndex;
    RemovedIndex(l.state.queue, k);
    RemovedIndex(l.tickets, base + k);
    var m := l.(state := l.state.(queue := queue), tickets := RemoveIndex(l.tickets, base + k));
    forall i | 0 <= i < |m.tickets|
      ensures Stream(m)[i] == Stream(l)[if i < base + k then i else i + 1]
    {
    }
  }

  lemma AppendKeepsNumbers(l: Ledger, p: Payload)
    requires Numbered(l)
    ensures Numbered(l.(state := Append(l.state, p), tickets := l.tickets + [l.issued], issued := l.issued + 1))
  {
    NextNumber(l.start, l.issued);
    var m := l.(state := Append(l.state, p), tickets := l.tickets + [l.issued], issued := l.issued + 1);
    assert Stream(m) == Stream(l) + [Event(l.state.next, p)];
  }

  lemma ReplaceKeepsNumbers(l: Ledger, k: nat, data: Payload)
    requires Numbered(l) && k < |l.state.queue|
    ensures Numbered(l.(state := l.state.(queue := l.state.queue[k := l.state.queue[k].(data := data)])))
  {
    var m := l.(state := l.state.(queue := l.state.queue[k := l.state.queue[k].(data := data)]));
    assert forall i | 0 <= i < |l.tickets| :: Stream(m)[i].sequence == Stream(l)[i].sequence;
  }

  /** Fields the numbering does not look at. */
  lemma NumberedIgnores(l: Ledger, m: Ledger)
    requires Numbered(l) && m.delivered == l.delivered && m.tickets == l.tickets && m.start == l.start && m.issued == l.issued
    requires m.state.queue == l.state.queue && m.state.next == l.state.next
    ensures Numbered(m)
  {
    assert Stream(m) == Stream(l);
  }

  lemma SubmitKeepsInv(l: Ledger, p: Payload)
    requires Inv(l)
    ensures Inv(Submitted(l, p))
  {
    hide RunsUnique, Numbered, TrailingMatch, FirstCoalescible;
    var s := l.state;
    assert Room(l) by { NumberedRoom(l); }
    var m := Submitted(l, p);
    EnqueueKeepsRuns(s, p);
    CountDrop(l.rejected + l.evicted - l.settled);
    if s.suppressed {
    } else if s.capacity == 0 {
      NumberedIgnores(l, m);
    } else {
      var found := if IsCoalescible(p) then TrailingMatch(s.queue, p) else None;
      if found.Some? {
        var k, e := found.value, s.queue[found.value];
        if p.ContentScale? && NoNetChange(e.data, p) {
          RemovalKeepsNumbers(l, k, m.state.queue);
          NumberedIgnores(l.(state := s.(queue := m.state.queue), tickets := m.tickets), m);
        } else {
          var data := if p.ContentScale? then MergeScale(e.data, p) else p;
          ReplaceKeepsNumbers(l, k, data);
          NumberedIgnores(l.(state := s.(queue := s.queue[k := e.(data := data)])), m);
        }
      } else if |s.queue| < s.capacity {
        AppendKeepsNumbers(l, p);
        NumberedIgnores(l.(state := Append(s, p), tickets := m.tickets, issued := m.issued), m);
      } else {
        var k := ReplaceIndex(s.queue, p);
        if k == |s.queue| {
          NumberedIgnores(l, m);
        } else {
          RemovalKeepsNumbers(l, k, RemoveIndex(s.queue, k));
          var n := l.(state := s.(queue := RemoveIndex(s.queue, k)), tickets := RemoveIndex(l.tickets, |l.delivered| + k));
          AppendKeepsNumbers(n, p);
          NumberedIgnores(n.(state := Append(n.state, p), tickets := m.tickets, issued := m.issued), m);
        }
      }
    }
  }

  lemma NumberedRoom(l: Ledger)
    requires Numbered(l)
    ensures Room(l)
  {
  }

  lemma PopKeepsInv(l: Ledger)
    requires Inv(l)
    ensures Inv(Step(l, Pop))
  {
    var q := l.state.queue;
    if q != [] {
      var m := Step(l, Pop);
      assert Stream(m) == Stream(l);
      forall i, j | 0 <= i < j < |q[1..]| && SameKind(q[1..][i].data, q[1..][j].data)
        ensures Separated(q[1..], i, j)
      {
        assert Separated(q, i + 1, j + 1);
        var c :| i + 1 < c < j + 1 && !IsCoalescible(q[c].data);
        assert q[1..][c - 1] == q[c];
      }
    }
  }

  lemma StepKeepsInv(l: Ledger, op: Op)
    requires Inv(l)
    ensures Inv(Step(l, op))
  {
    match op
    case Submit(p) => SubmitKeepsInv(l, p);
    case Pop => PopKeepsInv(l);
    case Clear =>
      var m := Step(l, Clear);
      assert forall i | 0 <= i < |l.delivered| :: Stream(m)[i] == Stream(l)[i];
    case ResetDropped => NumberedIgnores(l, Step(l, op));
    case Suppress(_) => NumberedIgnores(l, Step(l, op));
  }

  ghost function Run(l: Ledger, ops: seq<Op>): (r: Ledger)
    requires Inv(l)
    ensures Inv(r)
    decreases |ops|
  {
    if ops == [] then l
    else
      var last := |ops| - 1;
      StepKeepsInv(Run(l, ops[..last]), ops[last]);
      Step(Run(l, ops[..last]), ops[last])
  }

  lemma BeginsWell(capacity: nat, start: nat)
    ensures Inv(Begin(capacity, start))
  {
  }

  /** In every run of any length, from any first sequence number: runs hold one event of each kind, and issued
      numbers and drops are accounted for. */
  lemma EveryRun(capacity: nat, start: nat, ops: seq<Op>)
    ensures Inv(Begin(capacity, start)) && Inv(Run(Begin(capacity, start), ops))
  {
    BeginsWell(capacity, start);
  }

  /** Of two events delivered or queued fewer than 2^64 numbers apart, the later has the greater number exactly when
      the 64-bit counter did not wrap between them. */
  lemma NumbersIncrease(l: Ledger, i: nat, j: nat)
    requires Inv(l) && i < j < |l.tickets| && l.tickets[j] - l.tickets[i] < TWO_TO_64
    ensures |Stream(l)| == |l.tickets|
    ensures Stream(l)[i].sequence < Stream(l)[j].sequence <==>
              (l.start + l.tickets[i]) / TWO_TO_64 == (l.start + l.tickets[j]) / TWO_TO_64
  {
    var a, b := l.start + l.tickets[i], l.start + l.tickets[j];
    assert a == a / TWO_TO_64 * TWO_TO_64 + a % TWO_TO_64 && b == b / TWO_TO_64 * TWO_TO_64 + b % TWO_TO_64;
    assert a < b && b < a + TWO_TO_64;
    QuotientStep(a, b);
  }

  /** Until the counter wraps for the first time, numbers increase over everything delivered and then queued. */
  lemma StreamIncreases(l: Ledger, i: nat, j: nat)
    requires Inv(l) && l.start + l.issued <= TWO_TO_64 && i < j < |Stream(l)|
    ensures Stream(l)[i].sequence < Stream(l)[j].sequence
  {
    assert l.tickets[i] < l.tickets[j] < l.issued;
  }

  lemma QuotientStep(a: nat, b: nat)
    requires a < b < a + TWO_TO_64
    ensures a / TWO_TO_64 == b / TWO_TO_64 || a / TWO_TO_64 + 1 == b / TWO_TO_64
  {
  }

  /** A queue opened with the last 64-bit number hands out zero next. */
  lemma NumbersWrap(p: Payload, q: Payload)
    requires !IsCoalescible(p) && !IsCoalescible(q)
    ensures var s := Enqueued(Enqueued(State([], 2, TWO_TO_64 - 1, 0, false), p).0, q).0;
            |s.queue| == 2 && s.queue[0].sequence == TWO_TO_64 - 1 && s.queue[1].sequence == 0
  {
  }

  // ---------------------------------------------------------------- durable events and the loss of the host

  ghost predicate HasDestroyed(q: seq<Event>) {
    exists i | 0 <= i < |q| :: q[i].data.NativeDestroyed?
  }

  /** A submission removes a queued durable event only when a NativeDestroyed meets a full queue of durable events,
      and then the oldest one. */
  lemma DurableStays(s: State, p: Payload, i: nat)
    requires |s.queue| <= s.capacity && i < |s.queue| && !IsCoalescible(s.queue[i].data)
    ensures s.queue[i] in Enqueued(s, p).0.queue ||
            (&& p.NativeDestroyed? && !s.suppressed && |s.queue| == s.capacity && i == 0
             && forall j | 0 <= j < |s.queue| :: !IsCoalescible(s.queue[j].data))
  {
    var s' := Enqueued(s, p).0;
    var found := if IsCoalescible(p) then TrailingMatch(s.queue, p) else None;
    if s.suppressed || s.capacity == 0 {
    } else if found.Some? {
      if |s'.queue| < |s.queue| {
        StillThere(s.queue, found.value, i);
      } else {
        assert s'.queue[i] == s.queue[i];
      }
    } else if |s.queue| < s.capacity {
      assert s'.queue[i] == s.queue[i];
    } else {
      var k := ReplaceIndex(s.queue, p);
      if k < |s.queue| && k != i {
        StillThere(s.queue, k, i);
        var r := RemoveIndex(s.queue, k);
        var j :| 0 <= j < |r| && r[j] == s.queue[i];
        assert s'.queue[j] == s.queue[i];
      }
    }
  }

  lemma StillThere(q: seq<Event>, k: nat, i: nat)
    requires k < |q| && i < |q| && i != k
    ensures q[i] in RemoveIndex(q, k)
  {
    assert RemoveIndex(q, k)[if i < k then i else i - 1] == q[i];
  }

  /** The loss of the native host is never dropped: it is queued, whatever the queue holds. */
  lemma DestroyedIsQueued(s: State)
    requires |s.queue| <= s.capacity && s.capacity > 0 && !s.suppressed
    ensures var (s', r) := Enqueued(s, NativeDestroyed);
            r == Queued && s'.queue != [] && s'.queue[|s'.queue| - 1].data == NativeDestroyed && |s'.queue| <= s'.capacity
  {
  }

  /** Once queued, the loss of the host stays represented until it is popped or the queue is cleared. */
  lemma DestroyedStays(l: Ledger, op: Op)
    requires Inv(l) && HasDestroyed(l.state.queue) && op != Clear
    requires op == Pop ==> !l.state.queue[0].data.NativeDestroyed?
    ensures HasDestroyed(Step(l, op).state.queue)
  {
    hide TrailingMatch, RunsUnique, Numbered;
    assert Room(l) by { NumberedRoom(l); }
    var q := l.state.queue;
    var i :| 0 <= i < |q| && q[i].data.NativeDestroyed?;
    match op
    case Submit(p) =>
      DurableStays(l.state, p, i);
      var s' := Enqueued(l.state, p).0;
      if q[i] in s'.queue {
        var j :| 0 <= j < |s'.queue| && s'.queue[j] == q[i];
        assert s'.queue[j].data.NativeDestroyed?;
      } else {
        DestroyedIsQueued(l.state);
        assert s'.queue[|s'.queue| - 1].data.NativeDestroyed?;
      }
    case Pop => assert q[1..][i - 1].data.NativeDestroyed?;
    case _ =>
  }

  // ---------------------------------------------------------------- what the consumer observes

  /** The latest value of every coalescible kind; for scale transitions, the current scale and DPI. */
  datatype Env = Env(latest: map<Slot, int>, scale: Scale)

  function Update(e: Env, p: Payload): Env {
    match p
    case Latest(slot, value) => e.(latest := e.latest[slot := value])
    case ContentScale(_, current, _) => e.(scale := current)
    case _ => e
  }

  function EnvAfter(ps: seq<Payload>, e: Env): Env {
    if ps == [] then e else Update(EnvAfter(ps[..|ps| - 1], e), ps[|ps| - 1])
  }

  /** The durable events of a stream in order, each with the environment at that moment. */
  function Durables(ps: seq<Payload>, e: Env): seq<(Payload, Env)> {
    if ps == [] then []
    else
      var before, p := ps[..|ps| - 1], ps[|ps| - 1];
      Durables(before, e) + if IsCoalescible(p) then [] else [(p, EnvAfter(before, e))]
  }

  /** Each scale transition starts at the scale where the one before it ended. */
  predicate Chained(ps: seq<Payload>, e: Env) {
    ps != [] ==>
      var before, p := ps[..|ps| - 1], ps[|ps| - 1];
      Chained(before, e) && (p.ContentScale? ==> p.previous == EnvAfter(before, e).scale)
  }

  ghost predicate SameView(a: seq<Payload>, b: seq<Payload>, e: Env) {
    EnvAfter(a, e) == EnvAfter(b, e) && Durables(a, e) == Durables(b, e)
  }

  function Payloads(q: seq<Event>): (r: seq<Payload>)
    ensures |r| == |q| && forall i | 0 <= i < |q| :: r[i] == q[i].data
  {
    seq(|q|, i requires 0 <= i < |q| => q[i].data)
  }

  ghost predicate Quiet(ps: seq<Payload>, p: Payload) {
    forall i | 0 <= i < |ps| :: IsCoalescible(ps[i]) && !SameKind(ps[i], p)
  }

  lemma LastOf(a: seq<Payload>, p: Payload)
    ensures (a + [p])[..|a + [p]| - 1] == a && (a + [p])[|a + [p]| - 1] == p
  {
  }

  lemma UpdateCommutes(e: Env, p: Payload, q: Payload)
    requires IsCoalescible(p) && IsCoalescible(q) && !SameKind(p, q)
    ensures Update(Update(e, p), q) == Update(Update(e, q), p)
  {
    if p.Latest? && q.Latest? {
      assert e.latest[p.slot := p.value][q.slot := q.value] == e.latest[q.slot := q.value][p.slot := p.value];
    }
  }

  /** A coalescible event may move to the end over events of other coalescible kinds. */
  lemma {:induction false} MoveToEnd(a: seq<Payload>, p: Payload, mid: seq<Payload>, e: Env)
    requires IsCoalescible(p) && Quiet(mid, p)
    ensures EnvAfter(a + [p] + mid, e) == Update(EnvAfter(a + mid, e), p)
    ensures Durables(a + [p] + mid, e) == Durables(a + mid, e)
    decreases |mid|
  {
    if mid == [] {
      LastOf(a, p);
      assert a + [p] + [] == a + [p] && a + [] == a;
    } else {
      var m, x := mid[..|mid| - 1], mid[|mid| - 1];
      MoveToEnd(a, p, m, e);
      assert mid == m + [x];
      assert a + [p] + mid == (a + [p] + m) + [x] && a + mid == (a + m) + [x];
      LastOf(a + [p] + m, x);
      LastOf(a + m, x);
      UpdateCommutes(EnvAfter(a + m, e), p, x);
    }
  }

  lemma {:induction false} ChainedSplit(a: seq<Payload>, b: seq<Payload>, e: Env)
    requires Chained(a + b, e)
    ensures Chained(a, e)
    decreases |b|
  {
    if b == [] {
      assert a + b == a;
    } else {
      var c, x := b[..|b| - 1], b[|b| - 1];
      assert a + b == (a + c) + [x];
      LastOf(a + c, x);
      ChainedSplit(a, c, e);
    }
  }

  /** Dropping or changing a scale transition keeps the chain when nothing behind it is one. */
  lemma {:induction false} ChainedQuiet(a: seq<Payload>, mid: seq<Payload>, e: Env)
    requires Chained(a, e) && forall i | 0 <= i < |mid| :: !mid[i].ContentScale?
    ensures Chained(a + mid, e)
    decreases |mid|
  {
    if mid == [] {
      assert a + mid == a;
    } else {
      var m, x := mid[..|mid| - 1], mid[|mid| - 1];
      ChainedQuiet(a, m, e);
      assert a + mid == (a + m) + [x];
      LastOf(a + m, x);
    }
  }

  lemma {:induction false} ScaleUntouched(a: seq<Payload>, mid: seq<Payload>, e: Env)
    requires forall i | 0 <= i < |mid| :: !mid[i].ContentScale?
    ensures EnvAfter(a + mid, e).scale == EnvAfter(a, e).scale
    decreases |mid|
  {
    if mid == [] {
      assert a + mid == a;
    } else {
      var m, x := mid[..|mid| - 1], mid[|mid| - 1];
      ScaleUntouched(a, m, e);
      assert a + mid == (a + m) + [x];
      LastOf(a + m, x);
    }
  }

  /** The stream with the queued event `q` of the submitted event's kind replaced by `q'`, or removed. */
  ghost predicate Merges(q: Payload, p: Payload, q': Option<Payload>) {
    && SameKind(q, p)
    && if !p.ContentScale? then q' == Some(p)
       else if NoNetChange(q, p) then q' == None
       else q' == Some(MergeScale(q, p))
  }

  lemma CoalesceKeepsView(a: seq<Payload>, q: Payload, mid: seq<Payload>, p: Payload, q': Option<Payload>,
                          submitted: seq<Payload>, e: Env)
    requires Merges(q, p, q') && Quiet(mid, p)
    requires Chained(a + [q] + mid, e) && SameView(a + [q] + mid, submitted, e) && Chained(submitted + [p], e)
    ensures var now := a + (if q'.Some? then [q'.value] else []) + mid;
            Chained(now, e) && SameView(now, submitted + [p], e)
  {
    var now := a + (if q'.Some? then [q'.value] else []) + mid;
    var x := EnvAfter(a + mid, e);
    LastOf(submitted, p);
    MoveToEnd(a, q, mid, e);
    assert EnvAfter(submitted + [p], e) == Update(Update(x, q), p);
    ChainedSplit(a + [q], mid, e);
    LastOf(a, q);
    if p.Latest? {
      assert x.latest[q.slot := q.value][p.slot := p.value] == x.latest[p.slot := p.value];
    }
    if q'.Some? {
      MoveToEnd(a, q'.value, mid, e);
      LastOf(a, q'.value);
      if p.ContentScale? {
        ChainedQuiet(a + [q'.value], mid, e);
      } else {
        ChainedReplaced(a, q, q'.value, mid, e);
      }
    } else {
      ScaleUntouched(a, mid, e);
      ChainedQuiet(a, mid, e);
      assert now == a + mid;
      assert x.(scale := p.current) == x;
    }
  }

  lemma {:induction false} ChainedReplaced(a: seq<Payload>, q: Payload, r: Payload, mid: seq<Payload>, e: Env)
    requires q.Latest? && r.Latest? && q.slot == r.slot && Quiet(mid, q) && Chained(a + [q] + mid, e)
    ensures Chained(a + [r] + mid, e)
    decreases |mid|
  {
    if mid == [] {
      assert a + [q] + mid == a + [q] && a + [r] + mid == a + [r];
      LastOf(a, q);
      LastOf(a, r);
    } else {
      var m, x := mid[..|mid| - 1], mid[|mid| - 1];
      assert a + [q] + mid == (a + [q] + m) + [x] && a + [r] + mid == (a + [r] + m) + [x];
      LastOf(a + [q] + m, x);
      LastOf(a + [r] + m, x);
      ChainedReplaced(a, q, r, m, e);
      MoveToEnd(a, q, m, e);
      MoveToEnd(a, r, m, e);
    }
  }

  lemma AppendKeepsView(stream: seq<Payload>, p: Payload, submitted: seq<Payload>, e: Env)
    requires Chained(stream, e) && SameView(stream, submitted, e) && Chained(submitted + [p], e)
    ensures Chained(stream + [p], e) && SameView(stream + [p], submitted + [p], e)
  {
    LastOf(stream, p);
    LastOf(submitted, p);
  }

  ghost predicate Lossless(l: Ledger) {
    l.evicted == 0 && l.rejected == 0 && l.cleared == 0
  }

  ghost predicate Faithful(l: Ledger, e: Env) {
    Chained(Payloads(Stream(l)), e) && SameView(Payloads(Stream(l)), l.submitted, e)
  }

  lemma SubmitKeepsView(l: Ledger, p: Payload, e: Env)
    requires Inv(l) && Lossless(Submitted(l, p)) && Faithful(l, e)
    requires !l.state.suppressed && Chained(l.submitted + [p], e)
    ensures Faithful(Submitted(l, p), e)
  {
    hide TrailingMatch, RunsUnique, Numbered, EnvAfter, Durables, Chained, RemoveIndex;
    assert Room(l) by { NumberedRoom(l); }
    var s, base, stream := l.state, |l.delivered|, Stream(l);
    var m := Submitted(l, p);
    var found := if IsCoalescible(p) then TrailingMatch(s.queue, p) else None;
    if found.Some? {
      var k := found.value;
      var q := s.queue[k].data;
      AroundQueued(l.delivered, s.queue, k);
      var a, mid := Payloads(l.delivered + s.queue[..k]), Payloads(s.queue[k + 1..]);
      assert Quiet(mid, p);
      if p.ContentScale? && NoNetChange(q, p) {
        CoalesceKeepsView(a, q, mid, p, None, l.submitted, e);
        assert a + [] + mid == a + mid;
      } else {
        var data := if p.ContentScale? then MergeScale(q, p) else p;
        CoalesceKeepsView(a, q, mid, p, Some(data), l.submitted, e);
      }
    } else {
      AppendKeepsView(Payloads(stream), p, l.submitted, e);
      PayloadsAppend(l.delivered, s.queue, Event(s.next, p));
    }
  }

  /** The stream around a queued event, when that event is kept, changed or removed. */
  lemma AroundQueued(delivered: seq<Event>, q: seq<Event>, k: nat)
    requires k < |q|
    ensures var a, mid := Payloads(delivered + q[..k]), Payloads(q[k + 1..]);
            && Payloads(delivered + q) == a + [q[k].data] + mid
            && Payloads(delivered + RemoveIndex(q, k)) == a + mid
            && forall data :: Payloads(delivered + q[k := q[k].(data := data)]) == a + [data] + mid
  {
    var a, mid := Payloads(delivered + q[..k]), Payloads(q[k + 1..]);
    forall data
      ensures Payloads(delivered + q[k := q[k].(data := data)]) == a + [data] + mid
    {
    }
  }

  lemma PayloadsAppend(delivered: seq<Event>, q: seq<Event>, e: Event)
    ensures Payloads(delivered + (q + [e])) == Payloads(delivered + q) + [e.data]
  {
  }

  lemma StepGrows(l: Ledger, op: Op)
    requires Inv(l)
    ensures var m := Step(l, op);
            && m.evicted >= l.evicted && m.rejected >= l.rejected && m.cleared >= l.cleared
            && (m.submitted == l.submitted ||
                (op.Submit? && !l.state.suppressed && m.submitted == l.submitted + [op.payload]))
  {
    hide TrailingMatch, RunsUnique, Enqueued;
  }

  /** Without losses and with chained scale transitions, what was delivered and is queued shows the consumer the
      same durable events in the same order as what was submitted, each in the same environment, and the same
      environment at the end, although events were merged and net-zero transitions removed. */
  lemma {:induction false} ConsumerSeesTheSame(capacity: nat, start: nat, ops: seq<Op>, e: Env)
    requires Inv(Begin(capacity, start)) && Lossless(Run(Begin(capacity, start), ops))
    requires Chained(Run(Begin(capacity, start), ops).submitted, e)
    ensures Faithful(Run(Begin(capacity, start), ops), e)
    decreases |ops|
  {
    hide Chained, EnvAfter, Durables, Submitted, RunsUnique, Balanced;
    if ops == [] {
      NothingYet(e);
    } else {
      var before, op := ops[..|ops| - 1], ops[|ops| - 1];
      var l := Run(Begin(capacity, start), before);
      var m := Step(l, op);
      StepGrows(l, op);
      if m.submitted != l.submitted {
        ChainedSplit(l.submitted, [op.payload], e);
      }
      ConsumerSeesTheSame(capacity, start, before, e);
      FaithfulStep(l, op, e);
    }
  }

  lemma NothingYet(e: Env)
    ensures Chained([], e) && SameView([], [], e) && Payloads([]) == []
  {
  }

  lemma FaithfulStep(l: Ledger, op: Op, e: Env)
    requires Inv(l) && Faithful(l, e) && Lossless(Step(l, op)) && Chained(Step(l, op).submitted, e)
    ensures Faithful(Step(l, op), e)
  {
    hide Chained, EnvAfter, Durables, RunsUnique, TrailingMatch, Enqueued;
    var m := Step(l, op);
    match op
    case Submit(p) =>
      if !l.state.suppressed {
        assert m.submitted == l.submitted + [p];
        SubmitKeepsView(l, p, e);
      }
    case Clear =>
      assert l.state.queue == [];
      assert Stream(m) == Stream(l);
    case _ => assert Stream(m) == Stream(l);
  }
}
