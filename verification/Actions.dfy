/** The bounded queue of native action requests: tail-only coalescing and never-reused request ids. */
module Actions {
  import opened Options
  import opened Counters
  import opened Ring
  import opened Snapshot

  /** `payload` stands for the typed arguments (value, point, scroll, range, selection, text). */
  datatype Request = Request(id: nat, observed: nat, node: NodeId, action: nat, payload: int)

  datatype Acceptance =
    | Accepted(id: nat, observed: nat)
    | Closed
    | Rejected
    | Invalid
    | QueueFull(observed: nat)

  datatype State = State(queue: seq<Request>, capacity: nat, next: nat, rejected: nat)

  predicate IsCoalescible(action: nat) {
    action == ACTION_FOCUS || action == ACTION_SET_VALUE || action == ACTION_SCROLL_TO || action == ACTION_REALIZE
  }

  /** A later request makes an earlier one redundant. */
  predicate Supersedes(later: Request, earlier: Request) {
    IsCoalescible(later.action) && earlier.node == later.node && earlier.action == later.action
  }

  /** `submitAccessibilityAction` from the point where it holds the action mutex and has seen the runtime live;
      `generation` is that of the snapshot the request was checked against. */
  function Submitted(s: State, request: Request, generation: nat): (State, Acceptance) {
    var observed := if request.observed == 0 then generation else request.observed;
    if s.next == 0 then (s, Rejected)
    else if observed > generation then (s, Invalid)
    else
      var r := request.(id := s.next, observed := observed);
      var t := s.(next := Increment(s.next));
      var last := |s.queue| - 1;
      if s.queue != [] && Supersedes(r, s.queue[last]) then (t.(queue := s.queue[last := r]), Accepted(r.id, observed))
      else if |s.queue| >= s.capacity then (t.(rejected := Increment(s.rejected)), QueueFull(observed))
      else (t.(queue := s.queue + [r]), Accepted(r.id, observed))
  }

  class ActionQueue {
    const ring: Ring<Request>
    var nextRequest: nat
    var rejected: nat

    constructor (capacity: nat)
      ensures Valid() && fresh(ring) && fresh(ring.slots) && Model() == State([], capacity, 1, 0)
    {
      ring := new Ring<Request>(capacity, Request(0, 0, 0, 1, 0));
      nextRequest, rejected := 1, 0;
    }

    ghost predicate Valid()
      reads this, ring, ring.slots
    {
      ring.Valid()
    }

    ghost function Model(): State
      requires Valid()
      reads this, ring, ring.slots
    {
      State(ring.Contents(), ring.slots.Length, nextRequest, rejected)
    }

    /** The locked part of `submitAccessibilityAction`; `live` is the gate as loaded under the lock. */
    method Submit(live: bool, request: Request, generation: nat) returns (r: Acceptance)
      requires Valid()
      modifies this`nextRequest, this`rejected, ring, ring.slots
      ensures Valid()
      ensures if live then (Model(), r) == Submitted(old(Model()), request, generation)
              else r == Closed && Model() == old(Model())
    {
      hide AllEqual, Supersedes, IsCoalescible;
      if !live {
        return Closed;
      }
      if nextRequest == 0 {
        return Rejected;
      }
      var observed := if request.observed == 0 then generation else request.observed;
      if observed > generation {
        return Invalid;
      }
      var owned := request.(id := nextRequest, observed := observed);
      nextRequest := Increment(nextRequest);
      var result := Accepted(owned.id, observed);
      var replaced := ReplaceTail(owned);
      if replaced {
        return result;
      }
      if ring.count == ring.slots.Length {
        rejected := Increment(rejected);
        return QueueFull(observed);
      }
      ring.PushBack(owned);
      return result;
    }

    method ReplaceTail(request: Request) returns (replaced: bool)
      requires Valid()
      modifies ring, ring.slots
      ensures Valid()
      ensures var q := old(ring.Contents());
              && (replaced <==> q != [] && Supersedes(request, q[|q| - 1]))
              && ring.Contents() == if replaced then q[|q| - 1 := request] else q
    {
      if IsCoalescible(request.action) && ring.count != 0 {
        var tail := ring.At(ring.count - 1);
        if tail.node == request.node && tail.action == request.action {
          ring.Put(ring.count - 1, request);
          return true;
        }
      }
      return false;
    }

    /** `popAction` on the owner thread. */
    method PopAction(live: bool) returns (r: Option<Request>)
      requires Valid()
      modifies ring, ring.slots
      ensures Valid()
      ensures if !live || old(ring.Contents()) == [] then r == None && Model() == old(Model())
              else r == Some(old(ring.Contents())[0]) && Model() == old(Model()).(queue := old(ring.Contents())[1..])
    {
      if !live || ring.count == 0 {
        return None;
      }
      var request := ring.PopFront();
      return Some(request);
    }

    /** The closer's part under the action mutex. */
    method Close()
      requires Valid()
      modifies ring, ring.slots
      ensures Valid() && Model() == old(Model()).(queue := [])
    {
      ring.Clear();
    }
  }

  // ---------------------------------------------------------------- whole runs

  /** A queue with its history. `kept` gives, for every popped and then every pending request, its position among the
      accepted ones. */
  datatype Ledger = Ledger(
    state: State, accepted: seq<Request>, popped: seq<Request>, kept: seq<nat>, start: nat, attempts: nat, cleared: bool)

  datatype Op = Submit(request: Request, generation: nat) | Pop | Clear

  /** Ids may start anywhere but zero. */
  function Begin(capacity: nat, start: nat): Ledger {
    Ledger(State([], capacity, start, 0), [], [], [], start, 0, false)
  }

  function Stream(l: Ledger): seq<Request> {
    l.popped + l.state.queue
  }

  /** `attempts` counts ids handed out, including those spent on a full queue. */
  function Step(l: Ledger, op: Op): Ledger {
    var q := l.state.queue;
    match op
    case Submit(request, generation) =>
      var (t, r) := Submitted(l.state, request, generation);
      var m := l.(state := t, attempts := if t.next == l.state.next then l.attempts else l.attempts + 1);
      if !r.Accepted? then m
      else
        var n := |l.accepted|;
        m.(accepted := l.accepted + [request.(id := r.id, observed := r.observed)],
           kept := if |t.queue| == |q| && |l.kept| > 0 then l.kept[|l.kept| - 1 := n] else l.kept + [n])
    case Pop => if q == [] then l else l.(state := l.state.(queue := q[1..]), popped := l.popped + [q[0]])
    case Clear =>
      l.(state := l.state.(queue := []), cleared := true,
         kept := if |l.popped| <= |l.kept| then l.kept[..|l.popped|] else l.kept)
  }

  function Run(l: Ledger, ops: seq<Op>): Ledger {
    if ops == [] then l else Step(Run(l, ops[..|ops| - 1]), ops[|ops| - 1])
  }

  /** Ids count up from `start` and stop for good when the 64-bit counter is exhausted. */
  ghost predicate Numbered(l: Ledger) {
    && 0 < l.start && l.start + l.attempts <= TWO_TO_64
    && l.state.next == (l.start + l.attempts) % TWO_TO_64
    && (forall i | 0 <= i < |l.accepted| :: l.start <= l.accepted[i].id < l.start + l.attempts)
    && (forall i, j | 0 <= i < j < |l.accepted| :: l.accepted[i].id < l.accepted[j].id)
  }

  /** Popped and pending requests are accepted ones, in order. */
  ghost predicate InOrder(l: Ledger) {
    && |l.kept| == |l.popped| + |l.state.queue|
    && (forall i, j | 0 <= i < j < |l.kept| :: l.kept[i] < l.kept[j])
    && (forall i | 0 <= i < |l.kept| :: l.kept[i] < |l.accepted| && Stream(l)[i] == l.accepted[l.kept[i]])
    && (l.state.queue != [] ==> l.kept[|l.kept| - 1] == |l.accepted| - 1)
  }

  ghost predicate SupersededAt(accepted: seq<Request>, i: nat) {
    i + 1 < |accepted| && Supersedes(accepted[i + 1], accepted[i])
  }

  /** An accepted request that is neither popped nor pending was superseded by the very next one. */
  ghost predicate OthersSuperseded(l: Ledger) {
    forall i | 0 <= i < |l.accepted| && i !in l.kept :: SupersededAt(l.accepted, i)
  }

  ghost predicate Inv(l: Ledger) {
    && Numbered(l) && InOrder(l) && |l.state.queue| <= l.state.capacity
    && (!l.cleared ==> OthersSuperseded(l))
  }

  lemma SubmitNumbers(l: Ledger, request: Request, generation: nat)
    requires Numbered(l)
    ensures Numbered(Step(l, Submit(request, generation)))
  {
    var (t, r) := Submitted(l.state, request, generation);
    assert l.state.next != 0 ==> l.start + l.attempts < TWO_TO_64 && l.state.next == l.start + l.attempts;
    assert l.state.next != 0 ==> Increment(l.state.next) != l.state.next;
  }

  /** What a submission does to the queue, with the counters left out of account. */
  lemma SubmitEffect(s: State, request: Request, generation: nat)
    ensures var (t, r) := Submitted(s, request, generation);
            var q := s.queue;
            if r.Accepted? then
              var x := request.(id := r.id, observed := r.observed);
              || (t.queue == q + [x] && |q| < s.capacity)
              || (q != [] && t.queue == q[..|q| - 1] + [x] && Supersedes(x, q[|q| - 1]))
            else t.queue == q
    ensures var (t, r) := Submitted(s, request, generation);
            && t.capacity == s.capacity
            && (r.Accepted? ==> r.id == s.next != 0 && r.observed <= generation)
            && (t.next == s.next || r.Accepted? || r.QueueFull?)
  {
    var (t, r) := Submitted(s, request, generation);
    if r.Accepted? && t.queue != s.queue + [request.(id := r.id, observed := r.observed)] {
      var last := |s.queue| - 1;
      assert s.queue[last := request.(id := r.id, observed := r.observed)] ==
             s.queue[..last] + [request.(id := r.id, observed := r.observed)];
    }
  }

  /** Focusing, setting a value, scrolling to a place and realizing a node: only the latest request matters. */
  predicate LatestCounts(action: nat) {
    action == 0 || action == 2 || action == 10 || action == 13
  }

  /** The last pending request is for the same node and the same action, of which only the latest counts. */
  predicate Replaces(request: Request, q: seq<Request>) {
    q != [] && LatestCounts(request.action) && q[|q| - 1].node == request.node && q[|q| - 1].action == request.action
  }

  /** The answer to a submission, in every case. */
  lemma SubmitAnswers(s: State, request: Request, generation: nat)
    requires |s.queue| <= s.capacity && s.next < TWO_TO_64
    ensures var (t, r) := Submitted(s, request, generation);
            var full := |s.queue| == s.capacity && !Replaces(request, s.queue);
            var observed := if request.observed == 0 then generation else request.observed;
            && (r == Rejected <==> s.next == 0)
            && (r == Invalid <==> s.next != 0 && request.observed > generation)
            && (r.QueueFull? <==> s.next != 0 && request.observed <= generation && full)
            && (r.Accepted? <==> s.next != 0 && request.observed <= generation && !full)
            && (r.Accepted? ==> r == Accepted(s.next, observed))
            && (r.QueueFull? ==> r == QueueFull(observed) && t.rejected == Increment(s.rejected) && t.queue == s.queue)
            && (r.Accepted? ==>
                  var x := Request(s.next, observed, request.node, request.action, request.payload);
                  t.rejected == s.rejected &&
                  t.queue == (if Replaces(request, s.queue) then s.queue[..|s.queue| - 1] else s.queue) + [x])
            && (r.Accepted? || r.QueueFull? ==> t.next == if s.next + 1 == TWO_TO_64 then 0 else s.next + 1)
            && (r == Rejected || r == Invalid ==> t == s)
  {
    var x := request.(id := s.next, observed := if request.observed == 0 then generation else request.observed);
    assert Replaces(request, s.queue) <==> s.queue != [] && Supersedes(x, s.queue[|s.queue| - 1]);
    if s.queue != [] {
      assert s.queue[|s.queue| - 1 := x] == s.queue[..|s.queue| - 1] + [x];
    }
  }

  /** A new last element keeps the correspondence with the accepted requests. */
  lemma AppendKeeps(l: Ledger, m: Ledger, x: Request)
    requires InOrder(l) && m.accepted == l.accepted + [x] && m.popped == l.popped
    requires m.state.queue == l.state.queue + [x] && m.kept == l.kept + [|l.accepted|]
    ensures InOrder(m) && (OthersSuperseded(l) ==> OthersSuperseded(m))
  {
    assert Stream(m) == Stream(l) + [x];
    if OthersSuperseded(l) {
      forall i | 0 <= i < |m.accepted| && i !in m.kept
        ensures SupersededAt(m.accepted, i)
      {
        assert m.kept[|l.kept|] == |l.accepted|;
        assert i !in l.kept;
        assert SupersededAt(l.accepted, i);
      }
    }
  }

  /** A replaced last element keeps it too; the element replaced is superseded by its neighbour. */
  lemma ReplaceKeeps(l: Ledger, m: Ledger, x: Request)
    requires InOrder(l) && m.accepted == l.accepted + [x] && m.popped == l.popped && l.state.queue != []
    requires Supersedes(x, l.state.queue[|l.state.queue| - 1])
    requires m.state.queue == l.state.queue[..|l.state.queue| - 1] + [x]
    requires m.kept == l.kept[|l.kept| - 1 := |l.accepted|]
    ensures InOrder(m) && (OthersSuperseded(l) ==> OthersSuperseded(m))
  {
    var k, n := |l.kept| - 1, |l.accepted|;
    assert Stream(m) == Stream(l)[..k] + [x];
    assert Stream(l)[k] == l.accepted[n - 1] && l.kept[k] == n - 1;
    if OthersSuperseded(l) {
      forall i | 0 <= i < |m.accepted| && i !in m.kept
        ensures SupersededAt(m.accepted, i)
      {
        assert m.kept[k] == n;
        assert forall j | 0 <= j < k :: m.kept[j] == l.kept[j];
        if i in l.kept {
          assert i == n - 1;
        } else {
          assert SupersededAt(l.accepted, i);
        }
      }
    }
  }

  lemma SubmitKeepsInv(l: Ledger, request: Request, generation: nat)
    requires Inv(l)
    ensures Inv(Step(l, Submit(request, generation)))
  {
    var m := Step(l, Submit(request, generation));
    var (t, r) := Submitted(l.state, request, generation);
    SubmitNumbers(l, request, generation);
    SubmitEffect(l.state, request, generation);
    hide Submitted, Numbered;
    if r.Accepted? {
      var x := request.(id := r.id, observed := r.observed);
      if |t.queue| == |l.state.queue| + 1 {
        AppendKeeps(l, m, x);
      } else {
        ReplaceKeeps(l, m, x);
      }
    } else {
      assert Stream(m) == Stream(l);
    }
  }

  lemma PopKeepsInv(l: Ledger)
    requires Inv(l)
    ensures Inv(Step(l, Pop))
  {
    hide SupersededAt;
    var m := Step(l, Pop);
    assert Stream(m) == Stream(l);
    assert Numbered(m) by {
      hide InOrder, OthersSuperseded;
    }
    hide Numbered;
  }

  lemma ClearKeepsInv(l: Ledger)
    requires Inv(l)
    ensures Inv(Step(l, Clear))
  {
    hide SupersededAt;
    var m := Step(l, Clear);
    assert Stream(m) == Stream(l)[..|l.popped|];
    assert Numbered(m) by {
      hide InOrder, OthersSuperseded;
    }
    hide Numbered;
  }

  lemma StepKeepsInv(l: Ledger, op: Op)
    requires Inv(l)
    ensures Inv(Step(l, op))
  {
    if op.Submit? {
      SubmitKeepsInv(l, op.request, op.generation);
    } else if op.Pop? {
      PopKeepsInv(l);
    } else {
      ClearKeepsInv(l);
    }
  }

  lemma {:induction false} EveryRun(capacity: nat, start: nat, ops: seq<Op>)
    requires 0 < start < TWO_TO_64
    ensures Inv(Run(Begin(capacity, start), ops))
    decreases |ops|
  {
    if ops != [] {
      EveryRun(capacity, start, ops[..|ops| - 1]);
      StepKeepsInv(Run(Begin(capacity, start), ops[..|ops| - 1]), ops[|ops| - 1]);
    }
  }

  /** Popped ids strictly increase, and so are never reused, also when the counter runs out. */
  lemma PoppedInOrder(l: Ledger, i: nat, j: nat)
    requires Inv(l) && i < j < |Stream(l)|
    ensures Stream(l)[i].id < Stream(l)[j].id < TWO_TO_64
    ensures l.kept[i] < l.kept[j] < |l.accepted| && Stream(l)[i] == l.accepted[l.kept[i]]
  {
  }

  // ---------------------------------------------------------------- executing the requests

  ghost predicate LastWriterWins<X(!new)>(exec: (X, Request) -> X) {
    forall x, a, b | Supersedes(b, a) :: exec(exec(x, a), b) == exec(x, b)
  }

  function Execute<X>(exec: (X, Request) -> X, x: X, requests: seq<Request>): X {
    if requests == [] then x else exec(Execute(exec, x, requests[..|requests| - 1]), requests[|requests| - 1])
  }

  /** The kept positions below `n`, and the requests at them. */
  ghost predicate Selected(accepted: seq<Request>, kept: seq<nat>, chosen: seq<Request>) {
    && |kept| == |chosen|
    && (forall i, j | 0 <= i < j < |kept| :: kept[i] < kept[j])
    && (forall i | 0 <= i < |kept| :: kept[i] < |accepted| && chosen[i] == accepted[kept[i]])
  }

  lemma LastSelected(accepted: seq<Request>, n: nat, kept: seq<nat>, chosen: seq<Request>)
    requires 0 < n <= |accepted| && Selected(accepted[..n], kept, chosen) && n - 1 in kept
    ensures kept != [] && kept[|kept| - 1] == n - 1 && chosen[|kept| - 1] == accepted[n - 1]
    ensures Selected(accepted[..n - 1], kept[..|kept| - 1], chosen[..|kept| - 1])
    ensures forall i | 0 <= i < n - 1 && i in kept :: i in kept[..|kept| - 1]
  {
    var last := |kept| - 1;
    assert forall k | 0 <= k < last :: kept[k] < kept[last] < n;
    var k :| 0 <= k < |kept| && kept[k] == n - 1;
    assert kept[last] < n;
  }

  lemma LastSkipped(accepted: seq<Request>, n: nat, kept: seq<nat>, chosen: seq<Request>)
    requires 0 < n <= |accepted| && Selected(accepted[..n], kept, chosen) && n - 1 !in kept
    ensures Selected(accepted[..n - 1], kept, chosen)
  {
    assert forall k | 0 <= k < |kept| :: kept[k] < n && kept[k] in kept;
  }

  /** Two states that the request `a` makes equal, the first of which it may be left out of, under a `b` after it. */
  lemma WriterAbsorbs<X(!new)>(exec: (X, Request) -> X, x: X, y: X, a: Request, b: Request)
    requires LastWriterWins(exec) && Supersedes(b, a) && (x == y || exec(x, a) == exec(y, a))
    ensures exec(x, b) == exec(exec(y, a), b)
  {
    assert exec(exec(x, a), b) == exec(x, b) && exec(exec(y, a), b) == exec(y, b);
  }

  /** Leaving out superseded requests does not change the outcome. */
  lemma {:induction false} SkipSuperseded<X(!new)>(
    exec: (X, Request) -> X, x: X, accepted: seq<Request>, n: nat, kept: seq<nat>, chosen: seq<Request>)
    requires LastWriterWins(exec) && n <= |accepted| && Selected(accepted[..n], kept, chosen)
    requires forall i | 0 <= i < n && i !in kept :: SupersededAt(accepted, i)
    ensures n == 0 || n - 1 in kept ==> Execute(exec, x, chosen) == Execute(exec, x, accepted[..n])
    ensures n > 0 && n - 1 !in kept ==>
              n < |accepted| &&
              exec(Execute(exec, x, chosen), accepted[n]) == exec(Execute(exec, x, accepted[..n]), accepted[n])
    decreases n
  {
    assert kept == [] || kept[0] < n by {
      assert kept == [] || kept[0] < |accepted[..n]|;
    }
    if n > 0 {
      assert accepted[..n][..n - 1] == accepted[..n - 1];
      if n - 1 in kept {
        var last := |kept| - 1;
        LastSelected(accepted, n, kept, chosen);
        hide Selected, LastWriterWins;
        SkipSuperseded(exec, x, accepted, n - 1, kept[..last], chosen[..last]);
      } else {
        LastSkipped(accepted, n, kept, chosen);
        hide Selected, LastWriterWins;
        assert SupersededAt(accepted, n - 1);
        SkipSuperseded(exec, x, accepted, n - 1, kept, chosen);
        WriterAbsorbs(exec, Execute(exec, x, chosen), Execute(exec, x, accepted[..n - 1]), accepted[n - 1], accepted[n]);
      }
    }
  }

  /** For actions that are last-writer-wins, the requests delivered and pending have the effect of all accepted ones. */
  lemma DeliveredMeansAccepted<X(!new)>(l: Ledger, exec: (X, Request) -> X, x: X)
    requires Inv(l) && !l.cleared && LastWriterWins(exec)
    ensures Execute(exec, x, Stream(l)) == Execute(exec, x, l.accepted)
  {
    var n := |l.accepted|;
    assert l.accepted[..n] == l.accepted;
    SkipSuperseded(exec, x, l.accepted, n, l.kept, Stream(l));
  }
}
