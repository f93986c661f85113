/**
 The reader pool of RandomAccessReader.go as a transition system: any number of ReadAt
 calls and Close interleave. The two locked sections and Close are single steps; OpenRead,
 Position, Seek and ReadFull happen outside the lock, one step each.
 */
module PoolProtocol {
  import opened Basics

  /** The `Pool` field: None once Close has set it to nil. */
  type Pool<R> = Option<map<int, R>>

  datatype Taken<R> = Refused | Empty | Taken(reader: R)

  /**
   The locked section of getReaderFromPool. `pick` stands for Go's random map order. An open pool that
   is not empty gives up exactly one reader, and an exact hit goes first.
   */
  function Take<R>(pool: Pool<R>, offset: int, pick: int): (r: (Taken<R>, Pool<R>))
    requires pool.Some? && pool.value != map[] && offset !in pool.value ==> pick in pool.value
    ensures r.0.Refused? <==> pool.None?
    ensures r.0.Taken? <==> pool.Some? && pool.value != map[]
    ensures r.0.Taken? ==> exists key :: key in pool.value && (offset in pool.value ==> key == offset) &&
                                         r.0.reader == pool.value[key] && r.1 == Some(pool.value - {key})
    ensures !r.0.Taken? ==> r.1 == pool
  {
    if pool.None? then (Refused, pool)
    else if pool.value == map[] then (Empty, pool)
    else
      var key := if offset in pool.value then offset else pick;
      (Taken(pool.value[key]), Some(pool.value - {key}))
  }

  /**
   The locked section of returnReaderToPool: the new pool and the reader handed to Close. Where there is
   room the reader is pooled at its position, and what stood there is closed; all others stay.
   */
  function GiveBack<R>(pool: Pool<R>, maxReaders: nat, reader: R, position: Option<int>): (r: (Pool<R>, Option<R>))
    ensures pool.None? || |pool.value| >= maxReaders || position.None? ==> r == (pool, Some(reader))
    ensures pool.Some? && |pool.value| < maxReaders && position.Some? ==>
              && r.0.Some? && r.0.value.Keys == pool.value.Keys + {position.value}
              && r.0.value[position.value] == reader
              && (forall k | k in pool.value && k != position.value :: r.0.value[k] == pool.value[k])
              && (if position.value in pool.value then r.1 == Some(pool.value[position.value]) else r.1.None?)
  {
    if pool.None? || |pool.value| >= maxReaders || position.None? then (pool, Some(reader))
    else
      var evicted := if position.value in pool.value then Some(pool.value[position.value]) else None;
      (Some(pool.value[position.value := reader]), evicted)
  }

  /** A reader that is given back where it was taken leaves the pool as it was, and none is closed. */
  lemma TakenGivenBack<R>(pool: Pool<R>, maxReaders: nat, offset: int, pick: int)
    requires pool.Some? && pool.value != map[] && |pool.value| <= maxReaders
    requires offset !in pool.value ==> pick in pool.value
    ensures var (taken, rest) := Take(pool, offset, pick);
      GiveBack(rest, maxReaders, taken.reader, Some(if offset in pool.value then offset else pick)) == (pool, None)
  {
    var key := if offset in pool.value then offset else pick;
    var rest := pool.value - {key};
    assert rest.Keys == pool.value.Keys - {key} && |rest| == |rest.Keys| && |pool.value| == |pool.value.Keys|;
    assert rest[key := pool.value[key]] == pool.value;
  }

  /** Readers are numbered in the order they were opened. */
  type Reader = nat
  type CallId = int

  /** How far one ReadAt call has come. */
  datatype Phase =
    | Entered(offset: int)
    | Opening(offset: int)
    | Holding(reader: Reader, offset: int)
    | Seeking(reader: Reader, offset: int)
    | Reading(reader: Reader)
    | Returning(reader: Reader, reply: Status)
    | Finished(reply: Status)
  {
    predicate HasReader() {
      Holding? || Seeking? || Reading? || Returning?
    }

    predicate Holds(r: int) {
      HasReader() && this.reader == r
    }

    /** Past the take section and not yet finished. */
    predicate Active() {
      !Entered? && !Finished?
    }
  }

  datatype State = State(
    pool: Pool<Reader>,
    position: seq<int>,       // position[r]: where reader r stands
    closes: seq<nat>,         // closes[r]: how often Close was called on reader r
    calls: map<CallId, Phase>,
    seeks: nat                // Seek calls issued so far
  )
  {
    ghost predicate PooledUnder(r: int, key: int) {
      pool.Some? && key in pool.value && pool.value[key] == r
    }

    ghost predicate HeldBy(r: int, c: CallId) {
      c in calls && calls[c].Holds(r)
    }

    function At(r: Reader): int
      requires r < |position|
    {
      position[r]
    }

    function ActiveCalls(): set<CallId> {
      set c | c in calls && calls[c].Active()
    }

    function PoolSize(): nat {
      if pool.None? then 0 else |pool.value|
    }
  }

  const INITIAL := State(Some(map[]), [], [], map[], 0)

  datatype Step =
    | Enter(c: CallId, offset: int)
    | TakeReader(c: CallId, pick: int)
    | OpenRead(c: CallId, outcome: Status)
    | Position(c: CallId, answer: Status)
    | Seek(c: CallId, sought: Status, landed: int)
    | ReadFull(c: CallId, read: Status, landed: int)
    | ReturnReader(c: CallId, answer: Status)
    | Close

  predicate Enabled(s: State, step: Step) {
    match step
    case Enter(c, _) => c !in s.calls
    case TakeReader(c, pick) =>
      c in s.calls && s.calls[c].Entered? &&
      (s.pool.Some? && s.pool.value != map[] && s.calls[c].offset !in s.pool.value ==> pick in s.pool.value)
    case OpenRead(c, _) => c in s.calls && s.calls[c].Opening?
    case Position(c, _) => c in s.calls && s.calls[c].Holding?
    case Seek(c, sought, landed) => c in s.calls && s.calls[c].Seeking? && (sought.Ok? ==> landed == s.calls[c].offset)
    case ReadFull(c, _, _) => c in s.calls && s.calls[c].Reading?
    case ReturnReader(c, _) => c in s.calls && s.calls[c].Returning?
    case Close => true
  }

  /** The ids a step may mention are only those of opened readers. */
  ghost predicate Typed(s: State) {
    && |s.closes| == |s.position|
    && (s.pool.Some? ==> forall k | k in s.pool.value :: s.pool.value[k] < |s.position|)
    && (forall c | c in s.calls && s.calls[c].HasReader() :: s.calls[c].reader < |s.position|)
  }

  /** `go reader.Close()`, counted when it is issued. */
  function Hand(closes: seq<nat>, r: Option<Reader>): seq<nat>
    requires r.Some? ==> r.value < |closes|
  {
    if r.None? then closes else closes[r.value := closes[r.value] + 1]
  }

  ghost function Apply(s: State, maxReaders: nat, step: Step): State
    requires Typed(s) && Enabled(s, step)
  {
    match step
    case Enter(c, offset) => s.(calls := s.calls[c := Entered(offset)])
    case TakeReader(c, pick) =>
      var offset := s.calls[c].offset;
      var (taken, pool) := Take(s.pool, offset, pick);
      var phase := match taken
        case Refused => Finished(Failed(Error.PoolClosed))
        case Empty => Opening(offset)
        case Taken(r) => Holding(r, offset);
      s.(pool := pool, calls := s.calls[c := phase])
    case OpenRead(c, outcome) =>
      if outcome.Failed? then s.(calls := s.calls[c := Finished(outcome)])
      else s.(position := s.position + [0], closes := s.closes + [0],
              calls := s.calls[c := Holding(|s.position|, s.calls[c].offset)])
    case Position(c, answer) =>
      var r := s.calls[c].reader;
      if answer.Failed? then s.(closes := Hand(s.closes, Some(r)), calls := s.calls[c := Finished(answer)])
      else if s.position[r] != s.calls[c].offset then s.(calls := s.calls[c := Seeking(r, s.calls[c].offset)])
      else s.(calls := s.calls[c := Reading(r)])
    case Seek(c, sought, landed) =>
      var r := s.calls[c].reader;
      // The inner `err` shadows the one the deferred function looks at: a failed Seek
      // fails the call but sends the reader back to the pool.
      s.(position := s.position[r := landed], seeks := s.seeks + 1,
         calls := s.calls[c := if sought.Failed? then Returning(r, sought) else Reading(r)])
    case ReadFull(c, read, landed) =>
      var r := s.calls[c].reader;
      if read.Failed? then
        s.(position := s.position[r := landed], closes := Hand(s.closes, Some(r)),
           calls := s.calls[c := Finished(read)])
      else s.(position := s.position[r := landed], calls := s.calls[c := Returning(r, read)])
    case ReturnReader(c, answer) =>
      var r := s.calls[c].reader;
      assert s.calls[c].HasReader();
      var (pool, closed) := GiveBack(s.pool, maxReaders, r, if answer.Ok? then Some(s.At(r)) else None);
      s.(pool := pool, closes := Hand(s.closes, closed), calls := s.calls[c := Finished(s.calls[c].reply)])
    case Close =>
      if s.pool.None? then s
      else
        s.(pool := None,
           closes := seq(|s.closes|, r requires 0 <= r < |s.closes| => s.closes[r] + |KeysOf(s.pool.value, r)|))
  }

  /** The keys a reader is pooled under; Close closes the reader once for each. */
  function KeysOf(pool: map<int, Reader>, r: int): set<int> {
    set k | k in pool && pool[k] == r
  }

  // ---------------------------------------------------------------- the invariant

  /** What every step keeps. */
  ghost predicate Inv(s: State) {
    && Typed(s)
    && KeyedByPosition(s)
    && OwnersDisjoint(s)
    && ClosedOnce(s)
    && Accounted(s)
  }

  /** Every pooled reader stands where its key says. */
  ghost predicate KeyedByPosition(s: State)
    requires Typed(s)
  {
    s.pool.Some? ==> forall k | k in s.pool.value :: s.position[s.pool.value[k]] == k
  }

  /** A reader a call holds is held by no other call and is not pooled. */
  ghost predicate OwnersDisjoint(s: State) {
    && (forall c, d, r | s.HeldBy(r, c) && s.HeldBy(r, d) :: c == d)
    && (forall c, r, k | s.HeldBy(r, c) :: !s.PooledUnder(r, k))
  }

  /** A reader is closed at most once, and only when nobody can use it any more. */
  ghost predicate ClosedOnce(s: State)
    requires Typed(s)
  {
    forall r | 0 <= r < |s.closes| && s.closes[r] != 0 ::
      s.closes[r] == 1 && (forall c :: !s.HeldBy(r, c)) && (forall k :: !s.PooledUnder(r, k))
  }

  /** No reader is lost. */
  ghost predicate Accounted(s: State)
    requires Typed(s)
  {
    forall r | 0 <= r < |s.closes| ::
      s.closes[r] != 0 || s.PooledUnder(r, s.position[r]) || exists c :: s.HeldBy(r, c)
  }

  lemma StepKeepsInv(s: State, maxReaders: nat, step: Step)
    requires Inv(s) && Enabled(s, step)
    ensures Inv(Apply(s, maxReaders, step))
  {
    match step {
      case Enter(c, _) => Relabel(s, Apply(s, maxReaders, step), c);
      case TakeReader(c, _) => TakeKeepsInv(s, maxReaders, step);
      case OpenRead(c, outcome) =>
        if outcome.Failed? { Relabel(s, Apply(s, maxReaders, step), c); } else { OpenKeepsInv(s, maxReaders, step); }
      case Position(c, answer) =>
        if answer.Failed? {
          DropKeepsInv(s, Apply(s, maxReaders, step), c);
        } else {
          Relabel(s, Apply(s, maxReaders, step), c);
        }
      case Seek(c, _, _) => MoveKeepsInv(s, Apply(s, maxReaders, step), c);
      case ReadFull(c, read, _) =>
        if read.Failed? {
          DropKeepsInv(s, Apply(s, maxReaders, step), c);
        } else {
          MoveKeepsInv(s, Apply(s, maxReaders, step), c);
        }
      case ReturnReader(c, _) => ReturnKeepsInv(s, maxReaders, step);
      case Close => CloseKeepsInv(s, maxReaders);
    }
  }

  /** A call that changes phase without changing what it holds. */
  lemma Relabel(s: State, t: State, c: CallId)
    requires Inv(s) && t.pool == s.pool && t.position == s.position && t.closes == s.closes
    requires c in t.calls && t.calls == s.calls[c := t.calls[c]]
    requires forall r :: s.HeldBy(r, c) <==> t.calls[c].Holds(r)
    ensures Inv(t)
  {
    HeldElsewhere(s, t, c);
    if t.calls[c].HasReader() {
      assert t.calls[c].Holds(t.calls[c].reader);
    }
    assert forall r, d :: t.HeldBy(r, d) <==> s.HeldBy(r, d);
    assert forall r, k :: t.PooledUnder(r, k) <==> s.PooledUnder(r, k);
  }

  lemma HeldElsewhere(s: State, t: State, c: CallId)
    requires c in t.calls && t.calls == s.calls[c := t.calls[c]]
    ensures forall r, d | d != c :: t.HeldBy(r, d) <==> s.HeldBy(r, d)
  {}

  lemma TakeKeepsInv(s: State, maxReaders: nat, step: Step)
    requires Inv(s) && step.TakeReader? && Enabled(s, step)
    ensures Inv(Apply(s, maxReaders, step))
  {
    var t := Apply(s, maxReaders, step);
    HeldElsewhere(s, t, step.c);
    assert forall r :: !s.HeldBy(r, step.c);
    if s.pool.Some? && s.pool.value != map[] {
      var r := t.calls[step.c].reader;
      assert t.HeldBy(r, step.c);
      var offset := s.calls[step.c].offset;
      var key := if offset in s.pool.value then offset else step.pick;
      assert s.PooledUnder(r, key);
      assert forall q, k :: t.PooledUnder(q, k) <==> s.PooledUnder(q, k) && k != key;
      assert forall k | s.PooledUnder(r, k) :: k == key;
      assert forall q, d :: t.HeldBy(q, d) <==> s.HeldBy(q, d) || (q == r && d == step.c);
    } else {
      Relabel(s, t, step.c);
    }
  }

  lemma OpenKeepsInv(s: State, maxReaders: nat, step: Step)
    requires Inv(s) && step.OpenRead? && step.outcome.Ok? && Enabled(s, step)
    ensures Inv(Apply(s, maxReaders, step))
  {
    var t, r := Apply(s, maxReaders, step), |s.position|;
    HeldElsewhere(s, t, step.c);
    assert forall d :: !s.HeldBy(r, d);
    assert t.HeldBy(r, step.c);
    assert forall q, d :: t.HeldBy(q, d) <==> s.HeldBy(q, d) || (q == r && d == step.c);
    assert forall q, k :: t.PooledUnder(q, k) <==> s.PooledUnder(q, k);
  }

  /** Only the holder moves its reader, so no key goes stale. */
  lemma MoveKeepsInv(s: State, t: State, c: CallId)
    requires Inv(s) && t.pool == s.pool && t.closes == s.closes
    requires c in s.calls && c in t.calls && t.calls == s.calls[c := t.calls[c]]
    requires s.calls[c].Seeking? || s.calls[c].Reading?
    requires t.calls[c].Holds(s.calls[c].reader)
    requires |t.position| == |s.position|
    requires forall r | 0 <= r < |s.position| && r != s.calls[c].reader :: t.position[r] == s.position[r]
    ensures Inv(t)
  {
    var r := s.calls[c].reader;
    assert s.HeldBy(r, c);
    HeldElsewhere(s, t, c);
    assert forall q, d :: t.HeldBy(q, d) <==> s.HeldBy(q, d);
    assert forall k :: !s.PooledUnder(r, k);
    assert forall q, k :: t.PooledUnder(q, k) <==> s.PooledUnder(q, k);
  }

  /** A call that fails closes the reader it holds. */
  lemma DropKeepsInv(s: State, t: State, c: CallId)
    requires Inv(s) && t.pool == s.pool
    requires c in s.calls && c in t.calls && t.calls == s.calls[c := t.calls[c]] && t.calls[c].Finished?
    requires s.calls[c].Holding? || s.calls[c].Reading?
    requires |t.position| == |s.position|
    requires forall r | 0 <= r < |s.position| && r != s.calls[c].reader :: t.position[r] == s.position[r]
    requires s.calls[c].reader < |s.closes| && t.closes == Hand(s.closes, Some(s.calls[c].reader))
    ensures Inv(t)
  {
    var r := s.calls[c].reader;
    assert s.HeldBy(r, c);
    HeldElsewhere(s, t, c);
    assert forall q, d :: t.HeldBy(q, d) <==> s.HeldBy(q, d) && q != r;
    forall k | t.pool.Some? && k in t.pool.value
      ensures t.pool.value[k] != r
    {
      assert s.PooledUnder(s.pool.value[k], k);
    }
    assert forall q, k :: t.PooledUnder(q, k) <==> s.PooledUnder(q, k);
  }

  lemma ReturnKeepsInv(s: State, maxReaders: nat, step: Step)
    requires Inv(s) && step.ReturnReader? && Enabled(s, step)
    ensures Inv(Apply(s, maxReaders, step))
  {
    var t, c := Apply(s, maxReaders, step), step.c;
    var r := s.calls[c].reader;
    assert s.HeldBy(r, c);
    HeldElsewhere(s, t, c);
    assert forall q, d :: t.HeldBy(q, d) <==> s.HeldBy(q, d) && q != r;
    assert forall k :: !s.PooledUnder(r, k);
    var key := s.position[r];
    if s.pool.None? || |s.pool.value| >= maxReaders || step.answer.Failed? {
      assert forall q, k :: t.PooledUnder(q, k) <==> s.PooledUnder(q, k);
    } else {
      assert forall q, k :: t.PooledUnder(q, k) <==> if k == key then q == r else s.PooledUnder(q, k);
      if key in s.pool.value {
        assert s.PooledUnder(s.pool.value[key], key);
      }
    }
  }

  lemma CloseKeepsInv(s: State, maxReaders: nat)
    requires Inv(s)
    ensures Inv(Apply(s, maxReaders, Close))
  {
    var t := Apply(s, maxReaders, Close);
    assert forall q, d :: t.HeldBy(q, d) <==> s.HeldBy(q, d);
    if s.pool.Some? {
      forall r | 0 <= r < |s.closes|
        ensures KeysOf(s.pool.value, r) == if s.PooledUnder(r, s.position[r]) then {s.position[r]} else {}
      {
        KeysOfReader(s, r);
      }
    }
  }

  lemma KeysOfReader(s: State, r: int)
    requires Typed(s) && KeyedByPosition(s) && s.pool.Some? && 0 <= r < |s.position|
    ensures KeysOf(s.pool.value, r) == if s.PooledUnder(r, s.position[r]) then {s.position[r]} else {}
  {
    var keys := KeysOf(s.pool.value, r);
    forall k | k in keys
      ensures k == s.position[r]
    {
      assert s.pool.value[k] == r;
    }
  }

  // ---------------------------------------------------------------- runs

  datatype Run = Run(maxReaders: nat, states: seq<State>, steps: seq<Step>)
  {
    ghost predicate Valid() {
      && |states| == |steps| + 1
      && states[0] == INITIAL
      && forall i | 0 <= i < |steps| ::
           Typed(states[i]) && Enabled(states[i], steps[i]) && states[i + 1] == Apply(states[i], maxReaders, steps[i])
    }

  }

  lemma {:induction false} ReachableInv(run: Run, n: nat)
    requires run.Valid() && n < |run.states|
    ensures Inv(run.states[n])
  {
    if n > 0 {
      ReachableInv(run, n - 1);
      StepKeepsInv(run.states[n - 1], run.maxReaders, run.steps[n - 1]);
    }
  }

  /**
   Ownership and conservation: in every reachable state each reader ever opened is pooled
   under exactly one key, or held by exactly one call, or has been closed exactly once.
   */
  lemma EveryReaderInOnePlace(run: Run, n: nat, r: Reader)
    requires run.Valid() && n < |run.states| && r < |run.states[n].position|
    ensures var s := run.states[n]; |s.closes| == |s.position|
    ensures var s := run.states[n];
      var pooled, held := exists k :: s.PooledUnder(r, k), exists c :: s.HeldBy(r, c);
      && s.closes[r] <= 1
      && (pooled ==> !held && s.closes[r] == 0)
      && (held ==> !pooled && s.closes[r] == 0)
      && (s.closes[r] == 0 ==> pooled || held)
      && (forall k, l | s.PooledUnder(r, k) && s.PooledUnder(r, l) :: k == l)
      && (forall c, d | s.HeldBy(r, c) && s.HeldBy(r, d) :: c == d)
  {
    ReachableInv(run, n);
  }

  /** Close loses nothing: once it has run and every call is over, every reader was closed exactly once. */
  lemma {:induction false} NothingLeaksAfterClose(run: Run, n: nat, r: Reader)
    requires run.Valid() && n < |run.steps| && run.steps[n].Close?
    requires var s := run.states[|run.steps|]; r < |s.position| && forall c | c in s.calls :: s.calls[c].Finished?
    ensures var s := run.states[|run.steps|]; r < |s.closes| && s.closes[r] == 1
  {
    StaysClosed(run, n, |run.steps|);
    ReachableInv(run, |run.steps|);
  }

  lemma {:induction false} StaysClosed(run: Run, n: nat, m: nat)
    requires run.Valid() && n < m <= |run.steps| && run.steps[n].Close?
    ensures run.states[m].pool.None?
    decreases m
  {
    if m > n + 1 {
      StaysClosed(run, n, m - 1);
      assert run.states[m] == Apply(run.states[m - 1], run.maxReaders, run.steps[m - 1]);
    }
  }

  /** The shadowed `err`: a reader whose Seek failed is pooled again, wherever the failed Seek left it. */
  lemma FailedSeekIsPooled(s: State, maxReaders: nat, seek: Step)
    requires Inv(s) && seek.Seek? && seek.sought.Failed? && Enabled(s, seek)
    requires s.pool.Some? && |s.pool.value| < maxReaders
    ensures Inv(Apply(s, maxReaders, seek)) && Enabled(Apply(s, maxReaders, seek), ReturnReader(seek.c, Ok))
    ensures var r, t := s.calls[seek.c].reader, Apply(Apply(s, maxReaders, seek), maxReaders, ReturnReader(seek.c, Ok));
      t.PooledUnder(r, seek.landed) && Inv(t) && t.closes[r] == 0 && t.calls[seek.c] == Finished(seek.sought)
  {
    var t := Apply(s, maxReaders, seek);
    StepKeepsInv(s, maxReaders, seek);
    StepKeepsInv(t, maxReaders, ReturnReader(seek.c, Ok));
    assert t.At(s.calls[seek.c].reader) == seek.landed;
    assert Apply(t, maxReaders, ReturnReader(seek.c, Ok)).PooledUnder(s.calls[seek.c].reader, seek.landed);
  }

  /**
   How a call fails: refused by a closed pool, by the backend's error when nothing opens, or by that of
   Position, Seek or ReadFull. A reader whose Position or ReadFull failed is closed and not pooled.
   */
  lemma FailuresAreReported(s: State, maxReaders: nat, step: Step)
    requires Inv(s) && Enabled(s, step) && !step.Close? && !step.Enter?
    ensures var t, c := Apply(s, maxReaders, step), step.c;
      match step
      case TakeReader(_, _) => s.pool.None? ==> t.calls[c] == Finished(Failed(Error.PoolClosed))
      case OpenRead(_, outcome) =>
        if outcome.Failed? then t.calls[c] == Finished(outcome) && t.closes == s.closes && t.pool == s.pool
        else t.calls[c] == Holding(|s.position|, s.calls[c].offset) && t.position == s.position + [0]
      case Position(_, answer) => answer.Failed? ==> t.calls[c] == Finished(answer) && ClosedBy(s, t, s.calls[c].reader)
      case Seek(_, sought, landed) =>
        && t.seeks == s.seeks + 1 && t.closes == s.closes
        && t.calls[c] == if sought.Failed? then Returning(s.calls[c].reader, sought) else Reading(s.calls[c].reader)
      case ReadFull(_, read, _) =>
        if read.Failed? then t.calls[c] == Finished(read) && ClosedBy(s, t, s.calls[c].reader)
        else t.calls[c] == Returning(s.calls[c].reader, read) && t.closes == s.closes
      case ReturnReader(_, _) => t.calls[c] == Finished(s.calls[c].reply)
  {
    if (step.Position? && step.answer.Failed?) || (step.ReadFull? && step.read.Failed?) {
      HolderCloses(s, Apply(s, maxReaders, step), s.calls[step.c].reader, step.c);
    }
  }

  lemma HolderCloses(s: State, t: State, r: Reader, c: CallId)
    requires Inv(s) && s.HeldBy(r, c) && t.pool == s.pool && t.closes == Hand(s.closes, Some(r))
    ensures ClosedBy(s, t, r)
  {
    assert s.closes[r] == 0;
    assert forall k :: t.PooledUnder(r, k) <==> s.PooledUnder(r, k);
  }

  /** The reader has been closed for the first time, and nobody else's. */
  ghost predicate ClosedBy(s: State, t: State, r: Reader) {
    && r < |s.closes| && s.closes[r] == 0 && t.closes == s.closes[r := 1]
    && t.pool == s.pool && forall k :: !t.PooledUnder(r, k)
  }

  /** Steps a call still has before it, at most. */
  function Remaining(p: Phase): nat {
    match p
    case Entered(_) => 6
    case Opening(_) => 5
    case Holding(_, _) => 4
    case Seeking(_, _) => 3
    case Reading(_) => 2
    case Returning(_, _) => 1
    case Finished(_) => 0
  }

  lemma SomeKey<V>(m: map<int, V>) returns (key: int)
    requires m != map[]
    ensures key in m
  {
    assert !(forall k :: k !in m) by {
      assert (forall k :: k !in m) ==> m == map[];
    }
    key :| key in m;
  }

  /**
   No call waits for another: an unfinished call always has an enabled step; whatever its steps meet,
   each brings it nearer its end; and no step of another call, and no Close, sets it back.
   */
  lemma NoCallWaits(s: State, c: CallId) returns (step: Step)
    requires Inv(s) && c in s.calls && !s.calls[c].Finished?
    ensures !step.Close? && step.c == c && Enabled(s, step)
    ensures forall maxReaders: nat, t: Step | Enabled(s, t) && !t.Close? && t.c == c ::
              Remaining(Apply(s, maxReaders, t).calls[c]) < Remaining(s.calls[c])
    ensures forall maxReaders: nat, t: Step | Enabled(s, t) && (t.Close? || t.c != c) ::
              c in Apply(s, maxReaders, t).calls && Apply(s, maxReaders, t).calls[c] == s.calls[c]
  {
    match s.calls[c]
    case Entered(offset) =>
      var pick := offset;
      if s.pool.Some? && s.pool.value != map[] && offset !in s.pool.value {
        pick := SomeKey(s.pool.value);
      }
      step := TakeReader(c, pick);
    case Opening(_) => step := OpenRead(c, Ok);
    case Holding(_, _) => step := Position(c, Ok);
    case Seeking(_, offset) => step := Seek(c, Ok, offset);
    case Reading(_) => step := ReadFull(c, Ok, 0);
    case Returning(_, _) => step := ReturnReader(c, Ok);
  }

  /** A pooled reader stands at its key, so an exact hit goes straight to reading, without a Seek. */
  lemma ExactHitNeedsNoSeek(run: Run, n: nat, take: Step, ask: Step)
    requires run.Valid() && n < |run.states|
    requires var s := run.states[n];
      take.TakeReader? && Enabled(s, take) && s.pool.Some? && s.calls[take.c].offset in s.pool.value
    requires ask == Position(take.c, Ok)
    ensures var s := run.states[n];
      && Typed(s)
      && (var t := Apply(s, run.maxReaders, take);
          && Typed(t) && Enabled(t, ask)
          && (var u := Apply(t, run.maxReaders, ask);
              u.calls[take.c] == Reading(s.pool.value[s.calls[take.c].offset]) && u.seeks == s.seeks))
  {
    ReachableInv(run, n);
    StepKeepsInv(run.states[n], run.maxReaders, take);
  }

  // ---------------------------------------------------------------- one caller alone

  predicate ErrorFree(step: Step) {
    match step
    case OpenRead(_, outcome) => outcome.Ok?
    case Position(_, answer) => answer.Ok?
    case Seek(_, sought, _) => sought.Ok?
    case ReadFull(_, read, _) => read.Ok?
    case ReturnReader(_, answer) => answer.Ok?
    case Close => false
    case _ => true
  }

  /** Error-free steps only, and a call begins only when all earlier ones are over. */
  ghost predicate LoneCaller(run: Run)
    requires run.Valid()
  {
    forall i | 0 <= i < |run.steps| ::
      && ErrorFree(run.steps[i])
      && (run.steps[i].Enter? ==> forall c | c in run.states[i].calls :: run.states[i].calls[c].Finished?)
  }

  /** Where the last of these steps' reads ended; a fresh reader stands at 0. */
  function EndOf(steps: seq<Step>, n: nat): int
    requires n <= |steps|
  {
    if n == 0 then 0
    else if steps[n - 1].ReadFull? then steps[n - 1].landed
    else EndOf(steps, n - 1)
  }

  /** How many calls begin elsewhere than where the read before them ended. */
  function Discontinuities(steps: seq<Step>, n: nat): nat
    requires n <= |steps|
  {
    if n == 0 then 0
    else Discontinuities(steps, n - 1) +
         if steps[n - 1].Enter? && steps[n - 1].offset != EndOf(steps, n - 1) then 1 else 0
  }

  /** At most one reader, resting in the pool at `end`. */
  ghost predicate Resting(s: State, end: int) {
    if s.position == [] then s.pool == Some(map[]) && s.closes == [] && end == 0
    else s.pool == Some(map[end := 0]) && s.position == [end] && s.closes == [0]
  }

  /** The only reader is out. */
  ghost predicate Out(s: State) {
    s.pool == Some(map[]) && |s.position| == 1 && s.closes == [0]
  }

  /** The one unfinished call's phase fits the reader; a pending Seek is not yet in the count. */
  ghost predicate PhaseFits(s: State, phase: Phase, end: int, gaps: nat) {
    match phase
    case Entered(offset) => Resting(s, end) && s.seeks + Gap(offset, end) == gaps
    case Opening(offset) => Resting(s, end) && s.position == [] && s.seeks + Gap(offset, end) == gaps
    case Holding(r, offset) => Out(s) && r == 0 && s.position == [end] && s.seeks + Gap(offset, end) == gaps
    case Seeking(r, offset) => Out(s) && r == 0 && s.position == [end] && s.seeks + 1 == gaps
    case Reading(r) => Out(s) && r == 0 && s.seeks == gaps
    case Returning(r, reply) => Out(s) && r == 0 && s.position == [end] && s.seeks == gaps
    case Finished(_) => true
  }

  function Gap(offset: int, end: int): nat {
    if offset == end then 0 else 1
  }

  ghost predicate LoneInv(s: State, end: int, gaps: nat) {
    && (forall c, d | c in s.calls && d in s.calls && !s.calls[c].Finished? && !s.calls[d].Finished? :: c == d)
    && (forall c | c in s.calls :: PhaseFits(s, s.calls[c], end, gaps))
    && ((forall c | c in s.calls :: s.calls[c].Finished?) ==> Resting(s, end) && s.seeks == gaps)
  }

  ghost predicate LoneStepFrom(s: State, step: Step, end: int, gaps: nat) {
    && Inv(s) && Enabled(s, step) && ErrorFree(step) && LoneInv(s, end, gaps)
    && (step.Enter? ==> forall c | c in s.calls :: s.calls[c].Finished?)
  }

  lemma LoneStep(s: State, maxReaders: nat, step: Step, end: int, gaps: nat)
    requires LoneStepFrom(s, step, end, gaps) && maxReaders > 0
    ensures var end' := if step.ReadFull? then step.landed else end;
      LoneInv(Apply(s, maxReaders, step), end', gaps + if step.Enter? then Gap(step.offset, end) else 0)
  {
    match step {
      case Enter(c, offset) =>
        var t := Apply(s, maxReaders, step);
        OnlyCall(s, t, c, end, gaps + Gap(offset, end));
      case TakeReader(_, _) => LoneTake(s, maxReaders, step, end, gaps);
      case ReturnReader(_, _) => LoneReturn(s, maxReaders, step, end, gaps);
      case _ => LoneMove(s, maxReaders, step, end, gaps);
    }
  }

  /** If the one call that moved fits, and every other call is over, the invariant holds. */
  lemma OnlyCall(s: State, t: State, c: CallId, end: int, gaps: nat)
    requires c in t.calls && t.calls == s.calls[c := t.calls[c]]
    requires forall d | d in s.calls && d != c :: s.calls[d].Finished?
    requires if t.calls[c].Finished? then Resting(t, end) && t.seeks == gaps else PhaseFits(t, t.calls[c], end, gaps)
    ensures LoneInv(t, end, gaps)
  {}

  lemma LoneTake(s: State, maxReaders: nat, step: Step, end: int, gaps: nat)
    requires LoneStepFrom(s, step, end, gaps) && step.TakeReader?
    ensures LoneInv(Apply(s, maxReaders, step), end, gaps)
  {
    assert PhaseFits(s, s.calls[step.c], end, gaps);
    if s.position != [] {
      assert s.pool.value - {end} == map[];
    }
    OnlyCall(s, Apply(s, maxReaders, step), step.c, end, gaps);
  }

  lemma LoneReturn(s: State, maxReaders: nat, step: Step, end: int, gaps: nat)
    requires LoneStepFrom(s, step, end, gaps) && step.ReturnReader? && maxReaders > 0
    ensures LoneInv(Apply(s, maxReaders, step), end, gaps)
  {}

  lemma LoneMove(s: State, maxReaders: nat, step: Step, end: int, gaps: nat)
    requires LoneStepFrom(s, step, end, gaps) && (step.OpenRead? || step.Position? || step.Seek? || step.ReadFull?)
    ensures LoneInv(Apply(s, maxReaders, step), if step.ReadFull? then step.landed else end, gaps)
  {
    assert PhaseFits(s, s.calls[step.c], end, gaps);
    OnlyCall(s, Apply(s, maxReaders, step), step.c, if step.ReadFull? then step.landed else end, gaps);
  }

  /** A lone error-free caller opens one reader for good and seeks exactly at the discontinuities. */
  lemma {:induction false} LoneCallerSeeksOnlyAtGaps(run: Run, n: nat)
    requires run.Valid() && run.maxReaders > 0 && LoneCaller(run) && n < |run.states|
    ensures |run.states[n].position| <= 1
    ensures LoneInv(run.states[n], EndOf(run.steps, n), Discontinuities(run.steps, n))
    ensures (forall c | c in run.states[n].calls :: run.states[n].calls[c].Finished?) ==>
              Resting(run.states[n], EndOf(run.steps, n)) && run.states[n].seeks == Discontinuities(run.steps, n)
  {
    if n > 0 {
      LoneCallerSeeksOnlyAtGaps(run, n - 1);
      ReachableInv(run, n - 1);
      LoneStep(run.states[n - 1], run.maxReaders, run.steps[n - 1],
               EndOf(run.steps, n - 1), Discontinuities(run.steps, n - 1));
    }
    LoneOpensOne(run.states[n], EndOf(run.steps, n), Discontinuities(run.steps, n));
  }

  lemma LoneOpensOne(s: State, end: int, gaps: nat)
    requires LoneInv(s, end, gaps)
    ensures |s.position| <= 1
  {}

  // ---------------------------------------------------------------- bounds

  /** Pooled readers plus calls past their take. */
  function Load(s: State): nat {
    s.PoolSize() + |s.ActiveCalls()|
  }

  lemma RecolourCall(s: State, t: State, c: CallId)
    requires c in t.calls && t.calls == s.calls[c := t.calls[c]]
    ensures t.ActiveCalls() == if t.calls[c].Active() then s.ActiveCalls() + {c} else s.ActiveCalls() - {c}
  {}

  /** Only a take that finds the pool empty raises the load, and then the load is the active calls alone. */
  lemma StepLoad(s: State, maxReaders: nat, step: Step)
    requires Inv(s) && Enabled(s, step)
    ensures var t := Apply(s, maxReaders, step);
      Load(t) <= Load(s) || Load(t) == |t.ActiveCalls()|
    ensures s.PoolSize() <= maxReaders ==> Apply(s, maxReaders, step).PoolSize() <= maxReaders
  {
    match step {
      case TakeReader(_, _) => TakeLoad(s, maxReaders, step);
      case ReturnReader(_, _) => ReturnLoad(s, maxReaders, step);
      case Close => CloseLoad(s, maxReaders);
      case _ => MoveLoad(s, maxReaders, step);
    }
  }

  lemma CloseLoad(s: State, maxReaders: nat)
    requires Inv(s)
    ensures Load(Apply(s, maxReaders, Close)) <= Load(s) && Apply(s, maxReaders, Close).PoolSize() == 0
  {
    assert Apply(s, maxReaders, Close).ActiveCalls() == s.ActiveCalls();
  }

  /** Steps that leave the pool alone and do not start a call's active part. */
  lemma MoveLoad(s: State, maxReaders: nat, step: Step)
    requires Inv(s) && Enabled(s, step) && !step.TakeReader? && !step.ReturnReader? && !step.Close?
    ensures Load(Apply(s, maxReaders, step)) <= Load(s) && Apply(s, maxReaders, step).PoolSize() == s.PoolSize()
  {
    MoveStaysActive(s, maxReaders, step);
    NoMoreActive(s, Apply(s, maxReaders, step), step.c);
  }

  lemma MoveStaysActive(s: State, maxReaders: nat, step: Step)
    requires Inv(s) && Enabled(s, step) && !step.TakeReader? && !step.ReturnReader? && !step.Close?
    ensures var t := Apply(s, maxReaders, step);
      && t.pool == s.pool && step.c in t.calls && t.calls == s.calls[step.c := t.calls[step.c]]
      && (t.calls[step.c].Active() ==> step.c in s.calls && s.calls[step.c].Active())
  {}

  lemma NoMoreActive(s: State, t: State, c: CallId)
    requires c in t.calls && t.calls == s.calls[c := t.calls[c]]
    requires t.calls[c].Active() ==> c in s.calls && s.calls[c].Active()
    ensures |t.ActiveCalls()| <= |s.ActiveCalls()|
  {
    RecolourCall(s, t, c);
    SubsetSize(t.ActiveCalls(), s.ActiveCalls());
  }

  lemma TakeLoad(s: State, maxReaders: nat, step: Step)
    requires Inv(s) && step.TakeReader? && Enabled(s, step)
    ensures var t := Apply(s, maxReaders, step);
      (Load(t) == Load(s) || Load(t) == |t.ActiveCalls()|) && t.PoolSize() <= s.PoolSize()
  {
    var t := Apply(s, maxReaders, step);
    RecolourCall(s, t, step.c);
    if s.pool.Some? && s.pool.value != map[] {
      var offset := s.calls[step.c].offset;
      var key := if offset in s.pool.value then offset else step.pick;
      assert t.pool.value.Keys == s.pool.value.Keys - {key};
    }
  }

  lemma ReturnLoad(s: State, maxReaders: nat, step: Step)
    requires Inv(s) && step.ReturnReader? && Enabled(s, step)
    ensures var t := Apply(s, maxReaders, step);
      Load(t) <= Load(s) && (s.PoolSize() <= maxReaders ==> t.PoolSize() <= maxReaders)
  {
    var t := Apply(s, maxReaders, step);
    RecolourCall(s, t, step.c);
    if t.pool.Some? {
      assert t.pool == s.pool || t.pool.value.Keys == s.pool.value.Keys + {s.At(s.calls[step.c].reader)};
    }
  }

  /**
   The pool never outgrows the concurrency seen so far: pooled readers plus calls in flight
   never exceed the number of calls that were in flight at once at some earlier moment,
   although the empty-pool test and the open are not one atomic step.
   */
  lemma {:induction false} PoolBoundedByPeak(run: Run, n: nat)
    requires run.Valid() && n < |run.states|
    ensures exists i :: 0 <= i <= n && Load(run.states[n]) <= |run.states[i].ActiveCalls()|
    ensures run.states[n].PoolSize() <= run.maxReaders
  {
    if n == 0 {
      assert INITIAL.ActiveCalls() == {};
    } else {
      PoolBoundedByPeak(run, n - 1);
      ReachableInv(run, n - 1);
      StepLoad(run.states[n - 1], run.maxReaders, run.steps[n - 1]);
    }
  }

  function OpenReaders(s: State): set<Reader> {
    set r | 0 <= r < |s.closes| && s.closes[r] == 0
  }

  /** Hence no more file handles are ever open than calls were once in flight together. */
  lemma OpenHandlesBoundedByPeak(run: Run, n: nat)
    requires run.Valid() && n < |run.states|
    ensures exists i :: 0 <= i <= n && |OpenReaders(run.states[n])| <= |run.states[i].ActiveCalls()|
  {
    PoolBoundedByPeak(run, n);
    ReachableInv(run, n);
    OpenIsPooledOrHeld(run.states[n]);
  }

  lemma OpenIsPooledOrHeld(s: State)
    requires Inv(s)
    ensures |OpenReaders(s)| <= Load(s)
  {
    var pooled := if s.pool.Some? then Image(s.pool.value) else {};
    var holders := map c | c in s.ActiveCalls() && s.calls[c].HasReader() :: s.calls[c].reader;
    var held := Image(holders);
    forall r | r in OpenReaders(s)
      ensures r in pooled + held
    {
      if c :| s.HeldBy(r, c) {
        assert c in holders.Keys && holders[c] == r;
      }
    }
    assert OpenReaders(s) <= pooled + held;
    SubsetSize(OpenReaders(s), pooled + held);
    assert |OpenReaders(s)| <= |pooled| + |held|;
    if s.pool.Some? {
      ImageSize(s.pool.value);
    }
    ImageSize(holders);
    SubsetSize(holders.Keys, s.ActiveCalls());
  }

  lemma {:induction false} SubsetSize<T>(a: set<T>, b: set<T>)
    requires a <= b
    ensures |a| <= |b|
  {
    assert |b| == |a| + |b - a|;
  }

  ghost function Image<K, V>(m: map<K, V>): set<V> {
    set k | k in m :: m[k]
  }

  lemma {:induction false} ImageSize<K, V>(m: map<K, V>)
    ensures |Image(m)| <= |m|
  {
    if m != map[] {
      var k :| k in m;
      ImageSize(m - {k});
      assert Image(m) == Image(m - {k}) + {m[k]};
    }
  }
}
