/** The sequence lock that publishes host geometry: one writer, any number of readers, interleaved at every
    atomic access. All accesses are sequentially consistent in the source. */
module GeometryLock {

  import opened Counters

  const FIELDS: nat := 8
  const ATTEMPTS: nat := 8

  /** The eight published fields; only equality of their values matters. */
  type Geometry = g: seq<int> | |g| == 8 witness [0, 0, 0, 0, 0, 0, 0, 0]

  datatype Writer = Idle | Storing(done: nat, geometry: Geometry)

  /** A call of `readGeometry`. `first` and `last` are the numbers of increments made when the sequence was loaded
      before and after the fields; the code itself sees only their remainders. */
  datatype Reader =
    | Starting(attempt: nat)
    | Loading(attempt: nat, sequence: nat, values: seq<int>, first: nat)
    | Returned(ok: bool, values: seq<int>, first: nat, last: nat)

  /** `history` holds the initial geometry and then every completed publication. */
  datatype State = State(
    fields: Geometry, sequence: nat, writer: Writer, readers: map<nat, Reader>, increments: nat, history: seq<Geometry>)

  datatype Step =
    | BeginPublish(geometry: Geometry)
    | Store
    | EndPublish
    | BeginRead(reader: nat)
    | LoadSequence(reader: nat)
    | LoadField(reader: nat)
    | CheckSequence(reader: nat)

  function Bump(s: State): State {
    s.(sequence := Increment(s.sequence), increments := s.increments + 1)
  }

  function SetReader(s: State, id: nat, r: Reader): State {
    s.(readers := s.readers[id := r])
  }

  /** One atomic access; a step that is not possible changes nothing. */
  function Next(s: State, step: Step): State {
    match step
    case BeginPublish(g) => if s.writer.Idle? then Bump(s).(writer := Storing(0, g)) else s
    case Store =>
      if s.writer.Storing? && s.writer.done < FIELDS then
        var k, g := s.writer.done, s.writer.geometry;
        s.(fields := s.fields[k := g[k]], writer := Storing(k + 1, g))
      else s
    case EndPublish =>
      if s.writer.Storing? && s.writer.done == FIELDS then
        Bump(s).(writer := Idle, history := s.history + [s.writer.geometry])
      else s
    case BeginRead(id) => if id in s.readers then s else SetReader(s, id, Starting(0))
    case LoadSequence(id) =>
      if id in s.readers && s.readers[id].Starting? then
        var attempt := s.readers[id].attempt;
        if attempt >= ATTEMPTS then SetReader(s, id, Returned(false, [], 0, 0))
        else if s.sequence % 2 != 0 then SetReader(s, id, Starting(attempt + 1))
        else SetReader(s, id, Loading(attempt, s.sequence, [], s.increments))
      else s
    case LoadField(id) =>
      if id in s.readers && s.readers[id].Loading? && |s.readers[id].values| < FIELDS then
        var r := s.readers[id];
        SetReader(s, id, Loading(r.attempt, r.sequence, r.values + [s.fields[|r.values|]], r.first))
      else s
    case CheckSequence(id) =>
      if id in s.readers && s.readers[id].Loading? && |s.readers[id].values| == FIELDS then
        var r := s.readers[id];
        if r.sequence == s.sequence then SetReader(s, id, Returned(true, r.values, r.first, s.increments))
        else SetReader(s, id, Starting(r.attempt + 1))
      else s
  }

  function Run(s: State, steps: seq<Step>): State {
    if steps == [] then s else Next(Run(s, steps[..|steps| - 1]), steps[|steps| - 1])
  }

  function Begin(initial: Geometry): State {
    State(initial, 0, Idle, map[], 0, [initial])
  }

  // ---------------------------------------------------------------- what every step keeps

  ghost predicate WriterInv(s: State) {
    && s.sequence == s.increments % TWO_TO_64 && |s.history| == s.increments / 2 + 1
    && var current := s.history[|s.history| - 1];
       match s.writer
       case Idle => s.increments % 2 == 0 && s.fields == current
       case Storing(done, g) =>
         s.increments % 2 == 1 && done <= FIELDS && s.fields[..done] == g[..done] && s.fields[done..] == current[done..]
  }

  /** While no increment intervenes, the values loaded so far come from the latest completed publication. */
  ghost predicate ReaderInv(s: State, r: Reader)
    requires |s.history| == s.increments / 2 + 1
  {
    match r
    case Starting(attempt) => attempt <= ATTEMPTS
    case Loading(attempt, sequence, values, first) =>
      && attempt < ATTEMPTS && |values| <= FIELDS && first <= s.increments && first % 2 == 0 && sequence == first % TWO_TO_64
      && (first == s.increments ==> values == s.history[|s.history| - 1][..|values|])
    case Returned(ok, values, first, last) =>
      ok ==> && first <= last <= s.increments && first % 2 == 0
             && (last - first < TWO_TO_64 ==> first == last && values == s.history[first / 2])
  }

  ghost predicate Inv(s: State) {
    && WriterInv(s)
    && forall id | id in s.readers :: ReaderInv(s, s.readers[id])
  }

  lemma SameRemainder(a: nat, b: nat)
    requires a <= b && a % TWO_TO_64 == b % TWO_TO_64 && b - a < TWO_TO_64
    ensures a == b
  {
  }

  lemma Counting(n: nat)
    ensures (n % TWO_TO_64 + 1) % TWO_TO_64 == (n + 1) % TWO_TO_64
    ensures n % TWO_TO_64 % 2 == n % 2
    ensures n % 2 == 0 ==> (n + 1) / 2 == n / 2
    ensures n % 2 == 1 ==> (n + 1) / 2 == n / 2 + 1
  {
  }

  /** Readers are not disturbed by the writer's steps. */
  lemma ReadersKeep(s: State, t: State)
    requires Inv(s) && t.readers == s.readers && t.increments >= s.increments && s.history <= t.history
    requires |t.history| == t.increments / 2 + 1
    requires t.increments == s.increments ==> t.history == s.history
    ensures forall id | id in t.readers :: ReaderInv(t, t.readers[id])
  {
    forall id | id in t.readers
      ensures ReaderInv(t, t.readers[id])
    {
      assert ReaderInv(s, s.readers[id]);
    }
  }

  lemma WriterStepKeepsInv(s: State, step: Step)
    requires Inv(s) && (step.BeginPublish? || step.Store? || step.EndPublish?)
    ensures Inv(Next(s, step))
  {
    var t := Next(s, step);
    Counting(s.increments);
    if step.Store? && t != s {
      var k, g := s.writer.done, s.writer.geometry;
      assert t.fields[..k + 1] == s.fields[..k] + [g[k]];
      assert g[..k + 1] == g[..k] + [g[k]];
      assert t.fields[k + 1..] == s.fields[k..][1..];
    } else if step.EndPublish? && t != s {
      assert s.fields[..FIELDS] == s.fields && s.writer.geometry[..FIELDS] == s.writer.geometry;
    }
    ReadersKeep(s, t);
  }

  lemma ReaderStepKeepsInv(s: State, step: Step)
    requires Inv(s) && !(step.BeginPublish? || step.Store? || step.EndPublish?)
    ensures Inv(Next(s, step))
  {
    var t := Next(s, step);
    Counting(s.increments);
    if t != s && step.reader in s.readers {
      var r := s.readers[step.reader];
      assert ReaderInv(s, r);
      if step.LoadField? {
        var n := |r.values|;
        if r.first == s.increments {
          assert s.history[|s.history| - 1][..n + 1] == s.history[|s.history| - 1][..n] + [s.fields[n]];
        }
      } else if step.CheckSequence? {
        if r.sequence == s.sequence && s.increments - r.first < TWO_TO_64 {
          SameRemainder(r.first, s.increments);
          assert s.history[|s.history| - 1][..FIELDS] == s.history[|s.history| - 1];
        }
      }
    }
  }

  lemma {:induction false} RunKeepsInv(initial: Geometry, steps: seq<Step>)
    ensures Inv(Run(Begin(initial), steps))
    decreases |steps|
  {
    if steps != [] {
      var last := |steps| - 1;
      RunKeepsInv(initial, steps[..last]);
      var s := Run(Begin(initial), steps[..last]);
      if steps[last].BeginPublish? || steps[last].Store? || steps[last].EndPublish? {
        WriterStepKeepsInv(s, steps[last]);
      } else {
        ReaderStepKeepsInv(s, steps[last]);
      }
    }
  }

  /** In every interleaving, a read that succeeds, and during which the counter was incremented fewer than 2^64 times,
      returns the geometry that was the latest completed publication when the read's attempt began. */
  lemma ReadsAreCoherent(initial: Geometry, steps: seq<Step>, id: nat)
    ensures var s := Run(Begin(initial), steps);
            id in s.readers && s.readers[id].Returned? && s.readers[id].ok &&
            s.readers[id].last - s.readers[id].first < TWO_TO_64 ==>
              s.readers[id].first / 2 < |s.history| && s.readers[id].values == s.history[s.readers[id].first / 2]
  {
    RunKeepsInv(initial, steps);
    var s := Run(Begin(initial), steps);
    if id in s.readers {
      assert ReaderInv(s, s.readers[id]);
    }
  }

  // ---------------------------------------------------------------- when a read succeeds

  /** An attempt goes on to load the fields exactly when no publication is in progress; otherwise it is spent. */
  lemma AttemptBegins(s: State, id: nat)
    requires Inv(s) && id in s.readers && s.readers[id].Starting? && s.readers[id].attempt < ATTEMPTS
    ensures var a, t := s.readers[id].attempt, Next(s, LoadSequence(id));
            if s.writer.Idle? then t == SetReader(s, id, Loading(a, s.sequence, [], s.increments))
            else t == SetReader(s, id, Starting(a + 1))
  {
    Counting(s.increments);
  }

  /** An attempt that has loaded all fields succeeds exactly when the counter has meanwhile moved by a multiple of 2^64,
      and so whenever it has not moved; otherwise it is spent. */
  lemma AttemptEnds(s: State, id: nat)
    requires Inv(s) && id in s.readers && s.readers[id].Loading? && |s.readers[id].values| == FIELDS
    ensures var r, t := s.readers[id], Next(s, CheckSequence(id));
            if (s.increments - r.first) % TWO_TO_64 == 0 then
              t == SetReader(s, id, Returned(true, r.values, r.first, s.increments))
            else t == SetReader(s, id, Starting(r.attempt + 1))
  {
    assert ReaderInv(s, s.readers[id]);
    SameResidue(s.readers[id].first, s.increments);
  }

  lemma SameResidue(a: nat, b: nat)
    requires a <= b
    ensures a % TWO_TO_64 == b % TWO_TO_64 <==> (b - a) % TWO_TO_64 == 0
  {
    var n := TWO_TO_64;
    assert a == a / n * n + a % n && b == b / n * n + b % n;
    assert (b - a) == (b / n - a / n) * n + (b % n - a % n);
    assert (b - a) == (b - a) / n * n + (b - a) % n;
  }

  /** A call gives up only when all eight attempts are spent. */
  lemma GivesUpAfterAll(s: State, step: Step, id: nat)
    requires id in s.readers && !s.readers[id].Returned?
    requires var t := Next(s, step); id in t.readers && t.readers[id].Returned? && !t.readers[id].ok
    ensures s.readers[id].Starting? && s.readers[id].attempt >= ATTEMPTS
  {
  }

  /** The reader has loaded the first `n` fields of this state. */
  function Halfway(s: State, id: nat, attempt: nat, n: nat): State
    requires n <= FIELDS
  {
    SetReader(s, id, Loading(attempt, s.sequence, s.fields[..n], s.increments))
  }

  lemma FieldLoads(s: State, id: nat, attempt: nat, n: nat)
    requires n < FIELDS
    ensures Next(Halfway(s, id, attempt, n), LoadField(id)) == Halfway(s, id, attempt, n + 1)
  {
    assert s.fields[..n + 1] == s.fields[..n] + [s.fields[n]];
    assert s.readers[id := Loading(attempt, s.sequence, s.fields[..n], s.increments)]
                    [id := Loading(attempt, s.sequence, s.fields[..n + 1], s.increments)]
        == s.readers[id := Loading(attempt, s.sequence, s.fields[..n + 1], s.increments)];
  }

  lemma {:induction false} FieldsLoad(s: State, id: nat, attempt: nat, n: nat)
    requires n <= FIELDS
    ensures Run(Halfway(s, id, attempt, 0), seq(n, _ => LoadField(id))) == Halfway(s, id, attempt, n)
    decreases n
  {
    if n > 0 {
      FieldsLoad(s, id, attempt, n - 1);
      hide Run, Next, Halfway;
      assert seq(n, _ => LoadField(id)) == seq(n - 1, _ => LoadField(id)) + [LoadField(id)];
      RunStep(Halfway(s, id, attempt, 0), seq(n - 1, _ => LoadField(id)), LoadField(id));
      FieldLoads(s, id, attempt, n - 1);
    }
  }

  lemma HalfwayEnds(s: State, id: nat, attempt: nat)
    ensures var t := Next(Halfway(s, id, attempt, FIELDS), CheckSequence(id));
            id in t.readers && t.readers[id] == Returned(true, s.fields, s.increments, s.increments)
  {
    assert s.fields[..FIELDS] == s.fields;
  }

  function ReadSteps(id: nat): seq<Step> {
    [LoadSequence(id)] + seq(FIELDS, _ => LoadField(id)) + [CheckSequence(id)]
  }

  /** A read that no publication disturbs succeeds, and returns what was published last. */
  lemma UndisturbedReadSucceeds(s: State, id: nat)
    requires Inv(s) && s.writer.Idle? && id in s.readers && s.readers[id].Starting? && s.readers[id].attempt < ATTEMPTS
    ensures var t := Run(s, ReadSteps(id));
            && id in t.readers && t.readers[id].Returned? && t.readers[id].ok
            && t.readers[id].values == s.history[|s.history| - 1]
  {
    var a, loads := s.readers[id].attempt, seq(FIELDS, _ => LoadField(id));
    AttemptBegins(s, id);
    assert s.fields[..0] == [];
    assert Next(s, LoadSequence(id)) == Halfway(s, id, a, 0);
    assert s.fields == s.history[|s.history| - 1];
    hide Run, Next, Inv, Halfway;
    RunOne(s, LoadSequence(id));
    RunAppend(s, [LoadSequence(id)], loads);
    FieldsLoad(s, id, a, FIELDS);
    RunStep(s, [LoadSequence(id)] + loads, CheckSequence(id));
    HalfwayEnds(s, id, a);
  }

  // ---------------------------------------------------------------- the bound is sharp

  function Publication(g: Geometry): seq<Step> {
    [BeginPublish(g), Store, Store, Store, Store, Store, Store, Store, Store, EndPublish]
  }

  function Publications(g: Geometry, n: nat): seq<Step> {
    if n == 0 then [] else Publications(g, n - 1) + Publication(g)
  }

  function Copies(g: Geometry, n: nat): seq<Geometry> {
    if n == 0 then [] else Copies(g, n - 1) + [g]
  }

  lemma {:induction false} RunAppend(s: State, a: seq<Step>, b: seq<Step>)
    ensures Run(s, a + b) == Run(Run(s, a), b)
    decreases |b|
  {
    if b == [] {
      assert a + b == a;
    } else {
      var last := |b| - 1;
      assert (a + b)[..|a + b| - 1] == a + b[..last];
      RunAppend(s, a, b[..last]);
    }
  }

  lemma RunStep(s: State, steps: seq<Step>, step: Step)
    ensures Run(s, steps + [step]) == Next(Run(s, steps), step)
  {
    assert (steps + [step])[..|steps|] == steps;
  }

  lemma RunOne(s: State, step: Step)
    ensures Run(s, [step]) == Next(s, step)
  {
    assert [step][..0] == [];
  }

  function Stored(s: State, g: Geometry, n: nat): State
    requires n <= FIELDS
  {
    s.(fields := g[..n] + s.fields[n..], writer := Storing(n, g))
  }

  lemma StoreNext(s: State, g: Geometry, n: nat)
    requires n < FIELDS
    ensures Next(Stored(s, g, n), Store) == Stored(s, g, n + 1)
  {
    assert (g[..n] + s.fields[n..])[n := g[n]] == g[..n + 1] + s.fields[n + 1..];
  }

  lemma {:induction false} RunStores(s: State, g: Geometry, n: nat)
    requires n <= FIELDS
    ensures Run(Stored(s, g, 0), seq(n, _ => Store)) == Stored(s, g, n)
    decreases n
  {
    if n > 0 {
      RunStores(s, g, n - 1);
      hide Stored, Next, Run;
      assert seq(n, _ => Store) == seq(n - 1, _ => Store) + [Store];
      RunStep(Stored(s, g, 0), seq(n - 1, _ => Store), Store);
      StoreNext(s, g, n - 1);
    }
  }

  /** A run of adjacent steps by the writer alone: n publications of the same geometry. */
  function Published(s: State, g: Geometry, n: nat): State {
    s.(fields := if n == 0 then s.fields else g, sequence := (s.sequence + 2 * n) % TWO_TO_64,
       increments := s.increments + 2 * n, history := s.history + Copies(g, n))
  }

  lemma TwoIncrements(a: nat)
    ensures ((a + 1) % TWO_TO_64 + 1) % TWO_TO_64 == (a + 2) % TWO_TO_64
  {
  }

  lemma BeginsStoring(s: State, g: Geometry)
    requires s.writer.Idle?
    ensures Next(s, BeginPublish(g)) == Stored(Bump(s), g, 0)
  {
    assert g[..0] + s.fields[0..] == s.fields;
  }

  lemma EndsStoring(s: State, g: Geometry)
    requires s.writer.Idle?
    ensures Next(Stored(Bump(s), g, FIELDS), EndPublish) == Published(s, g, 1)
  {
    assert g[..FIELDS] + s.fields[FIELDS..] == g;
    TwoIncrements(s.sequence);
    assert Copies(g, 1) == [g] by {
      assert Copies(g, 0) == [];
    }
  }

  lemma RunPublication(s: State, g: Geometry)
    requires s.writer.Idle?
    ensures Run(s, Publication(g)) == Published(s, g, 1)
  {
    hide Run, Next, Stored, Published, Bump, Copies;
    var stores := seq(FIELDS, _ => Store);
    assert Publication(g) == [BeginPublish(g)] + stores + [EndPublish];
    RunOne(s, BeginPublish(g));
    BeginsStoring(s, g);
    RunAppend(s, [BeginPublish(g)], stores);
    RunStores(Bump(s), g, FIELDS);
    RunStep(s, [BeginPublish(g)] + stores, EndPublish);
    EndsStoring(s, g);
  }

  lemma PublishedTwice(s: State, g: Geometry, n: nat)
    ensures Published(Published(s, g, n), g, 1) == Published(s, g, n + 1)
  {
    assert Copies(g, 1) == [g] by {
      assert Copies(g, 0) == [];
    }
    assert s.history + Copies(g, n) + [g] == s.history + Copies(g, n + 1);
    AddModulo(s.sequence + 2 * n);
  }

  lemma AddModulo(a: nat)
    ensures (a % TWO_TO_64 + 2) % TWO_TO_64 == (a + 2) % TWO_TO_64
  {
  }

  lemma {:induction false} RunPublications(s: State, g: Geometry, n: nat)
    requires s.writer.Idle? && s.sequence < TWO_TO_64
    ensures Run(s, Publications(g, n)) == Published(s, g, n)
    decreases n
  {
    if n == 0 {
      assert s.history + Copies(g, 0) == s.history;
    } else {
      RunPublications(s, g, n - 1);
      hide Run, Copies;
      RunAppend(s, Publications(g, n - 1), Publication(g));
      RunPublication(Published(s, g, n - 1), g);
      PublishedTwice(s, g, n - 1);
    }
  }

  lemma {:induction false} CopiesAre(g: Geometry, n: nat, h: Geometry)
    requires h in Copies(g, n)
    ensures h == g
    decreases n
  {
    if h in Copies(g, n - 1) {
      CopiesAre(g, n - 1, h);
    }
  }

  /** The state in which reader 0 is inside its first attempt with these values loaded. */
  function Reading(s: State, values: seq<int>): State {
    s.(readers := map[0 := Loading(0, 0, values, 0)])
  }

  lemma LoadNext(s: State, values: seq<int>)
    requires |values| < FIELDS
    ensures Next(Reading(s, values), LoadField(0)) == Reading(s, values + [s.fields[|values|]])
  {
  }

  lemma SliceGrows(a: seq<int>, f: seq<int>, k: nat, m: nat)
    requires k <= m < |f|
    ensures a + f[k..m] + [f[m]] == a + f[k..m + 1]
  {
    assert f[k..m + 1] == f[k..m] + [f[m]];
  }

  lemma {:induction false} RunLoads(s: State, values: seq<int>, n: nat)
    requires |values| + n <= FIELDS
    ensures Run(Reading(s, values), seq(n, _ => LoadField(0))) == Reading(s, values + s.fields[|values|..|values| + n])
    decreases n
  {
    var k := |values|;
    if n == 0 {
      assert values + s.fields[k..k] == values;
    } else {
      RunLoads(s, values, n - 1);
      hide Run, Next, Reading;
      assert seq(n, _ => LoadField(0)) == seq(n - 1, _ => LoadField(0)) + [LoadField(0)];
      RunStep(Reading(s, values), seq(n - 1, _ => LoadField(0)), LoadField(0));
      LoadNext(s, values + s.fields[k..k + n - 1]);
      SliceGrows(values, s.fields, k, k + n - 1);
    }
  }

  lemma FirstLoads(initial: Geometry)
    ensures Run(Begin(initial), [BeginRead(0)] + [LoadSequence(0)] + [LoadField(0)]) == Reading(Begin(initial), [initial[0]])
  {
    var s := Begin(initial);
    RunOne(s, BeginRead(0));
    RunStep(s, [BeginRead(0)], LoadSequence(0));
    RunStep(s, [BeginRead(0)] + [LoadSequence(0)], LoadField(0));
    hide Run;
    LoadNext(s, []);
    assert Next(Next(s, BeginRead(0)), LoadSequence(0)) == Reading(s, []);
    assert [] + [initial[0]] == [initial[0]];
  }

  ghost predicate Mixture(s: State) {
    && 0 in s.readers && s.readers[0].Returned? && s.readers[0].ok && s.readers[0].values !in s.history
    && s.readers[0].last - s.readers[0].first == TWO_TO_64
  }

  lemma PublishedReading(s: State, values: seq<int>, g: Geometry, n: nat)
    ensures Published(Reading(s, values), g, n) == Reading(Published(s, g, n), values)
  {
  }

  lemma CheckedMixture(initial: Geometry, g: Geometry)
    requires initial[0] != g[0] && initial[1] != g[1]
    ensures Mixture(Next(Reading(Published(Begin(initial), g, TWO_TO_64 / 2), [initial[0]] + g[1..8]), CheckSequence(0)))
  {
    hide Copies, Run;
    var n, values := TWO_TO_64 / 2, [initial[0]] + g[1..8];
    assert values[0] != g[0] && values[1] != initial[1];
    if values in [initial] + Copies(g, n) {
      if values != initial {
        CopiesAre(g, n, values);
      }
    }
  }

  /** With exactly 2^63 publications between the two loads of the sequence, a read succeeds on a mixture. */
  lemma WrapMixes(initial: Geometry, g: Geometry)
    requires initial[0] != g[0] && initial[1] != g[1]
    ensures exists steps :: Mixture(Run(Begin(initial), steps))
  {
    var n, s := TWO_TO_64 / 2, Begin(initial);
    var begin := [BeginRead(0)] + [LoadSequence(0)] + [LoadField(0)];
    var middle, loads := Publications(g, n), seq(7, _ => LoadField(0));
    FirstLoads(initial);
    RunPublications(Reading(s, [initial[0]]), g, n);
    var published := Published(s, g, n);
    assert published.fields == g;
    hide Run, Next, Publications, Published, Mixture;
    PublishedReading(s, [initial[0]], g, n);
    RunLoads(published, [initial[0]], 7);
    RunAppend(s, begin, middle);
    RunAppend(s, begin + middle, loads);
    RunStep(s, begin + middle + loads, CheckSequence(0));
    CheckedMixture(initial, g);
  }
}
