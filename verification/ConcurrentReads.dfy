/**
 Any number of ReadAt calls in flight over one RandomAccessReader, their sections and the closing of
 dropped readers interleaved at will: what one call sees of its reader and its buffer is not
 disturbed by the others.
 */
module ConcurrentReads {
  import opened Basics
  import opened HdfsBackend
  import opened FaultTolerantAccessors
  import opened FaultTolerantReaders
  import opened FileHandleStreams
  import opened RandomAccessReaders

  type CallId = int

  /** How far a call has come. */
  datatype Stage =
    | Entered   // past the pool's lock
    | Opened    // holds a reader
    | Placed    // the reader stands at the offset
    | Filled    // the buffer is filled
    | Dropped   // over, and a reader waits for its background Close

  /** A call and the reader it holds. */
  datatype Lease = Lease(reader: Reader, buf: array<Byte>, offset: nat, stage: Stage)

  type Leases = map<CallId, Lease>

  /** The request of a call that found the pool empty and holds nothing yet. */
  datatype Ask = Ask(offset: nat, size: nat)

  /** Who has entered so far, and who holds nothing yet. */
  datatype Book = Book(entered: set<CallId>, waiting: map<CallId, Ask>)

  /** A call without the objects it uses. */
  datatype Phase = Phase(offset: nat, size: nat, stage: Stage)

  /** What a schedule determines: whether the pool is open, who has entered, and how far everybody is. */
  datatype Outline = Outline(open: bool, entered: set<CallId>, phases: map<CallId, Phase>)

  /** What the scheduler may let happen next. */
  datatype Section =
    | Enter(call: CallId, offset: nat, size: nat)   // the locked lookup
    | Open(call: CallId)                            // the rest of getReaderFromPoolOrCreateNew
    | Place(call: CallId)                           // Position and Seek
    | Fill(call: CallId)                            // io.ReadFull
    | Leave(call: CallId)                           // returnReaderToPool, after a success
    | Discard(call: CallId)                         // the background Close
    | ClosePool

  /** A finished ReadAt: whose it was, where it read, and what it returned. */
  datatype Answer = Answer(call: CallId, offset: nat, data: seq<Byte>)

  ghost predicate Right(content: seq<Byte>, a: Answer) {
    a.offset + |a.data| <= |content| && a.data == content[a.offset..a.offset + |a.data|]
  }

  function Moved(o: Outline, c: CallId, from: Stage, to: Stage): Outline {
    if c in o.phases && o.phases[c].stage == from then o.(phases := o.phases[c := o.phases[c].(stage := to)]) else o
  }

  /** What a section does to the outline if it does not fail. Requests past the end are not made. */
  function Following(content: seq<Byte>, o: Outline, section: Section): Outline {
    match section
    case Enter(c, offset, size) =>
      if c in o.entered || offset + size > |content| then o
      else if o.open then o.(entered := o.entered + {c}, phases := o.phases[c := Phase(offset, size, Entered)])
      else o.(entered := o.entered + {c})
    case Open(c) => Moved(o, c, Entered, Opened)
    case Place(c) => Moved(o, c, Opened, Placed)
    case Fill(c) => Moved(o, c, Placed, Filled)
    case Leave(c) => if c in o.phases && o.phases[c].stage.Filled? then o.(phases := o.phases - {c}) else o
    case Discard(_) => o
    case ClosePool => o.(open := false)
  }

  /** Opening and reading can fail. */
  predicate MayFail(o: Outline, section: Section) {
    match section
    case Open(c) => c in o.phases && o.phases[c].stage.Entered?
    case Fill(c) => c in o.phases && o.phases[c].stage.Placed?
    case _ => false
  }

  /** What a section does to the outline: a call that fails is over, and nobody else notices. */
  function Next(content: seq<Byte>, o: Outline, section: Section, failed: bool): Outline {
    if failed && MayFail(o, section) then o.(phases := o.phases - {section.call}) else Following(content, o, section)
  }

  /** What a section should answer. */
  function Due(content: seq<Byte>, o: Outline, section: Section): seq<Answer> {
    if section.Leave? && section.call in o.phases && o.phases[section.call].stage.Filled? then
      var phase := o.phases[section.call];
      [Answer(section.call, phase.offset, Slice(content, phase.offset, phase.offset + phase.size))]
    else []
  }

  /** The outline after n sections of a schedule, some of which failed. */
  function OutlineAfter(content: seq<Byte>, schedule: seq<Section>, failed: seq<bool>, n: nat): Outline
    requires n <= |schedule| && n <= |failed|
  {
    if n == 0 then Outline(true, {}, map[])
    else Next(content, OutlineAfter(content, schedule, failed, n - 1), schedule[n - 1], failed[n - 1])
  }

  /** The answers of these sections: no reader, no pool, just the file and what failed. */
  function AnswersAfter(content: seq<Byte>, schedule: seq<Section>, failed: seq<bool>, n: nat): seq<Answer>
    requires n <= |schedule| && n <= |failed|
  {
    if n == 0 then []
    else
      AnswersAfter(content, schedule, failed, n - 1) +
      Due(content, OutlineAfter(content, schedule, failed, n - 1), schedule[n - 1])
  }

  /** Only sections that may fail do, and none over a reliable file. */
  ghost predicate Failures(file: RemoteFile, schedule: seq<Section>, failed: seq<bool>) {
    && |failed| <= |schedule|
    && forall i {:trigger failed[i]} | 0 <= i < |failed| && failed[i] ::
         !file.Reliable() && MayFail(OutlineAfter(file.content, schedule, failed, i), schedule[i])
  }

  /** What has happened so far is known from the schedule, the file and the failures. */
  ghost predicate Explained(file: RemoteFile, schedule: seq<Section>, failed: seq<bool>, o: Outline,
      answers: seq<Answer>) {
    && Failures(file, schedule, failed)
    && o == OutlineAfter(file.content, schedule, failed, |failed|)
    && answers == AnswersAfter(file.content, schedule, failed, |failed|)
  }

  lemma {:induction false} AfterMore(content: seq<Byte>, schedule: seq<Section>, failed: seq<bool>, more: bool, n: nat)
    requires n <= |failed| <= |schedule|
    ensures OutlineAfter(content, schedule, failed + [more], n) == OutlineAfter(content, schedule, failed, n)
    ensures AnswersAfter(content, schedule, failed + [more], n) == AnswersAfter(content, schedule, failed, n)
  {
    if n > 0 {
      AfterMore(content, schedule, failed, more, n - 1);
    }
  }

  lemma ExplainedMore(file: RemoteFile, schedule: seq<Section>, failed: seq<bool>, o: Outline, answers: seq<Answer>,
      more: bool)
    requires Explained(file, schedule, failed, o, answers) && |failed| < |schedule|
    requires more ==> !file.Reliable() && MayFail(o, schedule[|failed|])
    ensures Explained(file, schedule, failed + [more], Next(file.content, o, schedule[|failed|], more),
                      answers + Due(file.content, o, schedule[|failed|]))
  {
    forall i | 0 <= i <= |failed|
      ensures OutlineAfter(file.content, schedule, failed + [more], i) ==
              OutlineAfter(file.content, schedule, failed, i)
    {
      AfterMore(file.content, schedule, failed, more, i);
    }
    AfterMore(file.content, schedule, failed, more, |failed|);
  }

  // ---------------------------------------------------------------- every answer is somebody's

  /** The call has come in with this request, which lies inside the file. */
  ghost predicate Asked(content: seq<Byte>, schedule: seq<Section>, n: nat, c: CallId, offset: nat, size: nat)
    requires n <= |schedule|
  {
    offset + size <= |content| && exists i :: 0 <= i < n && schedule[i] == Enter(c, offset, size)
  }

  /** Calls in flight have asked, and so have those that were answered, who are not in flight. */
  ghost predicate Attributed(content: seq<Byte>, schedule: seq<Section>, n: nat, o: Outline, answers: seq<Answer>)
    requires n <= |schedule|
  {
    && (forall c | c in o.phases ::
          c in o.entered && Asked(content, schedule, n, c, o.phases[c].offset, o.phases[c].size))
    && (forall a | a in answers :: a.call in o.entered && a.call !in o.phases)
    && (forall a | a in answers :: Asked(content, schedule, n, a.call, a.offset, |a.data|) && Right(content, a))
    && (forall j, k | 0 <= j < |answers| && 0 <= k < |answers| && answers[j].call == answers[k].call :: j == k)
  }

  lemma AskedStays(content: seq<Byte>, schedule: seq<Section>, n: nat, o: Outline, answers: seq<Answer>)
    requires n < |schedule| && Attributed(content, schedule, n, o, answers)
    ensures Attributed(content, schedule, n + 1, o, answers)
  {}

  lemma AttributedNext(content: seq<Byte>, schedule: seq<Section>, n: nat, o: Outline, answers: seq<Answer>,
      failed: bool)
    requires n < |schedule| && Attributed(content, schedule, n, o, answers)
    ensures Attributed(content, schedule, n + 1, Next(content, o, schedule[n], failed),
                       answers + Due(content, o, schedule[n]))
  {
    AskedStays(content, schedule, n, o, answers);
    if Due(content, o, schedule[n]) == [] {
      AttributedMove(content, schedule, n, o, answers, failed);
    } else {
      AttributedAnswer(content, schedule, n, o, answers, schedule[n].call);
    }
  }

  /** A section that answers nobody. */
  lemma AttributedMove(content: seq<Byte>, schedule: seq<Section>, n: nat, o: Outline, answers: seq<Answer>,
      failed: bool)
    requires n < |schedule| && Attributed(content, schedule, n + 1, o, answers)
    requires Due(content, o, schedule[n]) == []
    ensures Attributed(content, schedule, n + 1, Next(content, o, schedule[n], failed), answers)
  {}

  /** A call that leaves with its answer. */
  lemma AttributedAnswer(content: seq<Byte>, schedule: seq<Section>, n: nat, o: Outline, answers: seq<Answer>,
      c: CallId)
    requires n < |schedule| && Attributed(content, schedule, n + 1, o, answers)
    requires c in o.phases && o.phases[c].stage.Filled?
    ensures Attributed(content, schedule, n + 1, o.(phases := o.phases - {c}), answers + Due(content, o, Leave(c)))
  {
    var phase := o.phases[c];
    var data := Slice(content, phase.offset, phase.offset + phase.size);
    assert |data| == phase.size && Asked(content, schedule, n + 1, c, phase.offset, |data|);
  }

  /** Every answer is that of one call, for what it asked, and no call is answered twice. */
  lemma {:induction false} AnswersAttributed(content: seq<Byte>, schedule: seq<Section>, failed: seq<bool>, n: nat)
    requires n <= |failed| <= |schedule|
    ensures Attributed(content, schedule, n, OutlineAfter(content, schedule, failed, n),
                       AnswersAfter(content, schedule, failed, n))
  {
    if n > 0 {
      AnswersAttributed(content, schedule, failed, n - 1);
      AttributedNext(content, schedule, n - 1, OutlineAfter(content, schedule, failed, n - 1),
                     AnswersAfter(content, schedule, failed, n - 1), failed[n - 1]);
    }
  }

  // ---------------------------------------------------------------- the outline of the calls

  function PhaseOf(a: Lease): Phase {
    Phase(a.offset, a.buf.Length, a.stage)
  }

  function Phases(m: Leases, waiting: map<CallId, Ask>): map<CallId, Phase> {
    map c | c in m.Keys + waiting.Keys && (c in m ==> !m[c].stage.Dropped?) ::
      if c in m then PhaseOf(m[c]) else Phase(waiting[c].offset, waiting[c].size, Entered)
  }

  /** Every call is in one place, and none asks for more than there is. */
  ghost predicate Booked(content: seq<Byte>, m: Leases, book: Book) {
    && m.Keys !! book.waiting.Keys && m.Keys + book.waiting.Keys <= book.entered
    && forall c | c in book.waiting :: book.waiting[c].offset + book.waiting[c].size <= |content|
  }

  lemma PhasesWith(m: Leases, waiting: map<CallId, Ask>, c: CallId, a: Lease)
    requires c !in waiting
    ensures Phases(m[c := a], waiting) ==
            if a.stage.Dropped? then Phases(m, waiting) - {c} else Phases(m, waiting)[c := PhaseOf(a)]
  {}

  lemma PhasesWithout(m: Leases, waiting: map<CallId, Ask>, c: CallId)
    requires c !in waiting
    ensures Phases(m - {c}, waiting) == Phases(m, waiting) - {c}
  {}

  lemma PhasesAsked(m: Leases, waiting: map<CallId, Ask>, c: CallId, ask: Ask)
    requires c !in m
    ensures Phases(m, waiting[c := ask]) == Phases(m, waiting)[c := Phase(ask.offset, ask.size, Entered)]
  {}

  lemma PhasesRefused(m: Leases, waiting: map<CallId, Ask>, c: CallId)
    requires c !in m
    ensures Phases(m, waiting - {c}) == Phases(m, waiting) - {c}
  {}

  lemma PhasesServed(m: Leases, waiting: map<CallId, Ask>, c: CallId, a: Lease)
    requires c in waiting && !a.stage.Dropped?
    ensures Phases(m[c := a], waiting - {c}) == Phases(m, waiting)[c := PhaseOf(a)]
  {}

  // ---------------------------------------------------------------- the readers of the calls and the pool

  /** The readers that calls hold, or have dropped, and those in the pool. */
  ghost function Known(m: Leases, held: map<int, Reader>): set<Reader> {
    (set c | c in m :: m[c].reader) + RandomAccessReader.Readers(held)
  }

  /** A call's way back, whatever becomes of its reader. */
  lemma KnownOver(m: Leases, held: map<int, Reader>, now: map<int, Reader>, c: CallId, at: int, dropped: Option<Reader>)
    requires c in m
    requires
      || (now == held && dropped == Some(m[c].reader))
      || (now == held[at := m[c].reader] && dropped == if at in held then Some(held[at]) else None)
    ensures Known(if dropped.None? then m - {c} else m[c := m[c].(reader := dropped.value, stage := Dropped)], now) ==
            Known(m, held)
  {
    if now == held && dropped == Some(m[c].reader) {
      KnownMoved(m, held, c, m[c].(stage := Dropped));
    } else if at in held {
      KnownReplaced(m, held, c, at, m[c].(reader := held[at], stage := Dropped));
    } else {
      KnownReturned(m, held, c, at);
    }
  }

  lemma KnownMoved(m: Leases, held: map<int, Reader>, c: CallId, b: Lease)
    requires c in m && b.reader == m[c].reader
    ensures Known(m[c := b], held) == Known(m, held)
  {
    var n := m[c := b];
    assert forall d | d in m :: n[d].reader == m[d].reader;
  }

  lemma KnownAdded(m: Leases, held: map<int, Reader>, c: CallId, a: Lease)
    requires c !in m
    ensures Known(m[c := a], held) == Known(m, held) + {a.reader}
  {
    var n := m[c := a];
    assert n[c] == a && forall d | d in m :: n[d] == m[d];
  }

  lemma KnownGone(m: Leases, held: map<int, Reader>, c: CallId)
    requires c in m
    ensures Known(m, held) == Known(m - {c}, held) + {m[c].reader}
  {
    assert forall d | d in m && d != c :: (m - {c})[d] == m[d];
  }

  /** A reader that comes out of the pool and goes to a call is not lost. */
  lemma KnownTaken(m: Leases, held: map<int, Reader>, offset: nat, rest: map<int, Reader>, c: CallId, a: Lease)
    requires c !in m && RandomAccessReader.TakenFrom(held, offset, a.reader, rest)
    ensures Known(m[c := a], rest) == Known(m, held)
  {
    var key :| key in held && a.reader == held[key] && rest == held - {key};
    forall k | k in held
      ensures held[k] in RandomAccessReader.Readers(rest) + {a.reader}
    {
      assert k != key ==> rest[k] == held[k];
    }
    KnownAdded(m, rest, c, a);
  }

  lemma ValuesWith(held: map<int, Reader>, at: int, r: Reader)
    ensures RandomAccessReader.Readers(held[at := r]) + (if at in held then {held[at]} else {}) ==
            RandomAccessReader.Readers(held) + {r}
  {
    var more := held[at := r];
    assert more[at] == r;
    forall k | k in held
      ensures held[k] in RandomAccessReader.Readers(more) + (if at in held then {held[at]} else {})
    {
      assert k != at ==> k in more && more[k] == held[k];
    }
  }

  /** Nor is one that goes back to a free place. */
  lemma KnownReturned(m: Leases, held: map<int, Reader>, c: CallId, at: int)
    requires c in m && at !in held
    ensures Known(m - {c}, held[at := m[c].reader]) == Known(m, held)
  {
    KnownGone(m, held, c);
    ValuesWith(held, at, m[c].reader);
  }

  /** Nor the one that makes room for it. */
  lemma KnownReplaced(m: Leases, held: map<int, Reader>, c: CallId, at: int, b: Lease)
    requires c in m && at in held && b.reader == held[at]
    ensures Known(m[c := b], held[at := m[c].reader]) == Known(m, held)
  {
    var rest, more := m - {c}, held[at := m[c].reader];
    KnownGone(m, held, c);
    ValuesWith(held, at, m[c].reader);
    assert m[c := b] == rest[c := b];
    KnownAdded(rest, more, c, b);
  }

  class Calls {
    const pool: RandomAccessReader
    var leases: Leases
    ghost var Repr: set<object>   // everything the calls, their buffers and the pool consist of

    constructor (pool: RandomAccessReader)
      requires pool.Valid() && pool.Held() == map[]
      ensures Valid() && this.pool == pool && leases == map[] && Repr == {this, pool}
    {
      this.pool, leases := pool, map[];
      Repr := {this, pool};
    }

    /**
     The call's reader is fit, its buffer its own; when filled, the buffer holds the file's bytes. A
     dropped reader can be closed, if nothing is retried.
     */
    ghost predicate Fit(a: Lease)
      reads this, a.reader, a.reader.Repr, a.buf
    {
      && (if a.stage.Dropped? then pool.Spent(a.reader) else pool.Usable(a.reader))
      && this !in a.reader.Repr && a.buf !in a.reader.Repr && a.reader.Repr <= Repr && a.buf in Repr
      && a.offset + a.buf.Length <= |pool.File().content|
      && (a.stage.Placed? ==> a.reader.offset == a.offset)
      && (a.stage.Filled? ==> Answered(a))
    }

    /** The buffer holds what the file has. */
    ghost predicate Answered(a: Lease)
      reads a.buf
    {
      a.buf[..] == Slice(pool.File().content, a.offset, a.offset + a.buf.Length)
    }

    /** Two calls share neither readers nor buffers. */
    static ghost predicate Foreign(a: Lease, b: Lease)
      reads a.reader, b.reader
    {
      && RandomAccessReader.Strangers(a.reader, b.reader)
      && a.buf != b.buf && a.buf !in b.reader.Repr && b.buf !in a.reader.Repr
    }

    /** A call shares nothing with a pooled reader. */
    static ghost predicate Aside(a: Lease, r: Reader)
      reads a.reader, r
    {
      RandomAccessReader.Strangers(r, a.reader) && a.buf !in r.Repr
    }

    ghost predicate AllFit(m: Leases)
      reads *
    {
      forall c {:trigger Fit(m[c])} | c in m :: Fit(m[c])
    }

    static ghost predicate AllForeign(m: Leases)
      reads set c | c in m :: m[c].reader
    {
      forall c, d {:trigger Foreign(m[c], m[d])} | c in m && d in m && c != d :: Foreign(m[c], m[d])
    }

    static ghost predicate AllAside(m: Leases, held: map<int, Reader>)
      reads (set c | c in m :: m[c].reader), (set k | k in held :: held[k])
    {
      forall c, k {:trigger Aside(m[c], held[k])} | c in m && k in held :: Aside(m[c], held[k])
    }

    /** No pooled reader owns this object. */
    ghost predicate Outside(held: map<int, Reader>)
      reads this, (set k | k in held :: held[k])
    {
      forall k {:trigger held[k].Repr} | k in held :: this !in held[k].Repr && held[k].Repr <= Repr
    }

    /** Nobody's objects are anybody else's. */
    ghost predicate Arranged()
      reads *
    {
      && this in Repr && pool in Repr && Outside(pool.Held())
      && AllFit(leases) && AllForeign(leases) && AllAside(leases, pool.Held())
    }

    ghost predicate Valid()
      reads *
    {
      pool.Valid() && Arranged()
    }

    // ---------------------------------------------------------------- what stays

    /** Nobody has touched these calls' readers and buffers. */
    twostate predicate Untouched(new m: Leases)
      requires old(allocated(m))
      reads *
    {
      forall c {:trigger m[c]} | c in m ::
        unchanged(m[c].reader) && unchanged(old(m[c].reader.Repr)) && unchanged(m[c].buf)
    }

    /** What was touched belongs to none of these calls. */
    twostate lemma Bystanders(new m: Leases, new touched: set<object>)
      requires old(allocated(m)) && old(AllFit(m))
      requires forall o: object | old(allocated(o)) && o !in touched :: unchanged(o)
      requires forall c | c in m :: m[c].buf !in touched && old(m[c].reader.Repr) !! touched
      ensures Untouched(m)
    {
      forall c | c in m
        ensures unchanged(m[c].reader) && unchanged(old(m[c].reader.Repr)) && unchanged(m[c].buf)
      {
        assert old(Fit(m[c]));
        forall o | o in old(m[c].reader.Repr)
          ensures unchanged(o)
        {}
      }
    }

    twostate lemma FitStays(new m: Leases)
      requires old(allocated(m)) && old(AllFit(m)) && Untouched(m) && old(Repr) <= Repr
      ensures AllFit(m)
    {
      forall c | c in m
        ensures Fit(m[c])
      {
        assert old(Fit(m[c])) && m[c].reader.Repr == old(m[c].reader.Repr);
      }
    }

    twostate lemma ForeignStays(new m: Leases)
      requires old(allocated(m)) && old(AllForeign(m)) && Untouched(m)
      ensures AllForeign(m)
    {
      forall c, d | c in m && d in m && c != d
        ensures Foreign(m[c], m[d])
      {
        assert old(Foreign(m[c], m[d]));
      }
    }

    lemma AddedFit(m: Leases, c: CallId, a: Lease)
      requires AllFit(m) && Fit(a)
      ensures AllFit(m[c := a])
    {}

    lemma AddedForeign(m: Leases, c: CallId, a: Lease)
      requires AllForeign(m) && forall d | d in m && d != c :: Foreign(a, m[d]) && Foreign(m[d], a)
      ensures AllForeign(m[c := a])
    {}

    lemma AddedAside(m: Leases, c: CallId, a: Lease, held: map<int, Reader>)
      requires AllAside(m, held) && forall k | k in held :: Aside(a, held[k])
      ensures AllAside(m[c := a], held)
    {}

    /** Calls that are as they were, and one that fits in beside them and the pool. */
    lemma AddedArranged(m: Leases, c: CallId, a: Lease)
      requires this in Repr && pool in Repr && Outside(pool.Held())
      requires AllFit(m) && AllForeign(m) && AllAside(m, pool.Held()) && leases == m[c := a]
      requires Fit(a) && forall d | d in m && d != c :: Foreign(a, m[d]) && Foreign(m[d], a)
      requires forall k | k in pool.Held() :: Aside(a, pool.Held()[k])
      ensures Arranged()
    {
      AddedFit(m, c, a);
      AddedForeign(m, c, a);
      AddedAside(m, c, a, pool.Held());
    }

    // ---------------------------------------------------------------- a call gets a reader

    /** A usable reader that is neither pooled nor any call's. */
    ghost predicate Beside(r: Reader)
      reads *
    {
      && pool.Usable(r) && this !in r.Repr && pool.Apart(r, pool.Held())
      && forall d {:trigger Aside(leases[d], r)} | d in leases :: Aside(leases[d], r)
    }

    /** Fewer readers in the pool. */
    twostate lemma AsideStays(new m: Leases, new was: map<int, Reader>, new held: map<int, Reader>)
      requires old(allocated(m)) && old(allocated(was)) && old(AllAside(m, was)) && Untouched(m)
      requires forall k | k in held :: k in was && was[k] == held[k] && held[k].Repr == old(was[k].Repr)
      ensures AllAside(m, held)
    {
      forall c, k | c in m && k in held
        ensures Aside(m[c], held[k])
      {
        assert old(Aside(m[c], was[k])) && m[c].reader.Repr == old(m[c].reader.Repr);
      }
    }

    /** Readers that were pooled have not been touched. */
    twostate lemma PooledUntouched(new touched: set<object>)
      requires old(Valid()) && touched == {pool, pool.accessor.connection} && Repr == old(Repr)
      requires forall o: object | old(allocated(o)) && o !in touched :: unchanged(o)
      ensures forall k | k in old(pool.Held()) :: unchanged(old(pool.Held())[k]) && unchanged(old(pool.Held()[k].Repr))
      ensures Outside(old(pool.Held()))
    {
      var was := old(pool.Held());
      forall k | k in was
        ensures unchanged(was[k]) && unchanged(old(was[k].Repr)) && this !in was[k].Repr && was[k].Repr <= Repr
      {
        assert old(pool.Usable(pool.Held()[k])) && this !in old(pool.Held()[k].Repr);
        assert old(pool.Held()[k].Repr) <= old(Repr);
        assert was[k] in old(was[k].Repr) && was[k] !in touched;
        assert forall o | o in old(was[k].Repr) :: o !in touched;
      }
    }

    /** The calls do not notice that the pool has been asked for a reader. */
    twostate lemma OthersArranged(new touched: set<object>)
      requires old(Valid()) && touched == {pool, pool.accessor.connection} && leases == old(leases) && Repr == old(Repr)
      requires forall o: object | old(allocated(o)) && o !in touched :: unchanged(o)
      requires forall k | k in pool.Held() :: k in old(pool.Held()) && old(pool.Held())[k] == pool.Held()[k]
      ensures Untouched(leases) && Arranged()
    {
      forall d | d in leases
        ensures old(leases[d].reader.Repr) !! touched && leases[d].buf !in touched
      {
        assert old(Fit(leases[d]));
      }
      Bystanders(leases, touched);
      FitStays(leases);
      ForeignStays(leases);
      PooledUntouched(touched);
      AsideStays(leases, old(pool.Held()), pool.Held());
    }

    /** Whoever was pooled is beside the calls once it is out of the pool. */
    twostate lemma PooledBeside(new r: Reader, new touched: set<object>)
      requires old(Valid()) && touched == {pool, pool.accessor.connection} && leases == old(leases) && Repr == old(Repr)
      requires forall o: object | old(allocated(o)) && o !in touched :: unchanged(o)
      requires exists k :: k in old(pool.Held()) && old(pool.Held())[k] == r
      requires Untouched(leases) && pool.Usable(r) && pool.Apart(r, pool.Held())
      ensures Beside(r) && r.Repr <= Repr
    {
      PooledUntouched(touched);
      var k :| k in old(pool.Held()) && old(pool.Held())[k] == r;
      forall d | d in leases
        ensures Aside(leases[d], r)
      {
        assert old(Aside(leases[d], pool.Held()[k]));
      }
    }

    twostate lemma NewBeside(new r: Reader)
      requires old(Valid()) && leases == old(leases) && Untouched(leases)
      requires fresh(r.Repr) && pool.Usable(r) && pool.Apart(r, pool.Held())
      ensures Beside(r)
    {
      forall d | d in leases
        ensures Aside(leases[d], r)
      {
        assert old(Fit(leases[d])) && leases[d].reader.Repr == old(leases[d].reader.Repr);
      }
    }

    /** The locked lookup. */
    method Look(offset: nat) returns (r: FileHandleAsReadSeekCloser?, st: Status)
      requires Valid()
      modifies pool`pool
      ensures Valid()
      ensures pool.pool.Some? == old(pool.pool).Some? && (st.Ok? <==> pool.pool.Some?)
      ensures r != null ==> st.Ok? && Beside(r) && r.Repr <= Repr
      ensures old(pool.Held()) != map[] ==>
                r != null && RandomAccessReader.TakenFrom(old(pool.Held()), offset, r, pool.Held())
      ensures old(pool.Held()) == map[] ==> r == null && pool.pool == old(pool.pool)
    {
      ghost var touched: set<object> := {pool, pool.accessor.connection};
      label looking:
      ghost var pick;
      r, st, pick := pool.GetReaderFromPool(offset);
      OthersArranged@looking(touched);
      if r != null {
        PooledBeside@looking(r, touched);
      }
    }

    /** A new reader. */
    method OpenNew() returns (r: FileHandleAsReadSeekCloser?, st: Status)
      requires Valid()
      modifies pool.accessor.connection
      ensures Valid() && (st.Ok? <==> r != null)
      ensures r != null ==> Beside(r) && fresh(r) && fresh(r.Repr)
      ensures pool.File().Healthy() ==> st.Ok?
    {
      ghost var touched: set<object> := {pool, pool.accessor.connection};
      label opening:
      r, st := OpenRead(pool.accessor);
      PooledUntouched@opening(touched);
      pool.SoundStays@opening(pool.Held());
      OthersArranged@opening(touched);
      if r != null {
        NewBeside@opening(r);
      }
    }

    /** Call c has come to this phase, and nothing else has changed. */
    predicate Comes(c: CallId, before: Leases, phase: Phase)
      reads this
    {
      c in leases && leases == before[c := leases[c]] && PhaseOf(leases[c]) == phase
    }

    /** Gives a call its reader and its buffer. */
    method Lend(c: CallId, r: Reader, offset: nat, size: nat, stage: Stage)
      requires Valid() && Beside(r) && c !in leases
      requires offset + size <= |pool.File().content| && stage in {Entered, Opened}
      modifies this
      ensures Valid() && Comes(c, old(leases), Phase(offset, size, stage)) && leases[c].reader == r
      ensures old(Repr) <= Repr && fresh(Repr - old(Repr) - r.Repr)
    {
      label lending:
      var buf := new Byte[size];
      leases, Repr := leases[c := Lease(r, buf, offset, stage)], Repr + r.Repr + {buf};
      Lent@lending(c, r, Lease(r, buf, offset, stage), {this});
    }

    twostate lemma Lent(new c: CallId, new r: Reader, new a: Lease, new touched: set<object>)
      requires old(Valid()) && old(allocated(r)) && old(Beside(r)) && a.reader == r && c !in old(leases)
      requires touched == {this} && forall o: object | old(allocated(o)) && o !in touched :: unchanged(o)
      requires fresh(a.buf) && leases == old(leases)[c := a] && Repr == old(Repr) + a.reader.Repr + {a.buf}
      requires a.offset + a.buf.Length <= |pool.File().content| && a.stage in {Entered, Opened}
      ensures Valid()
    {
      var m, was := old(leases), old(pool.Held());
      ThisUntouched(touched);
      assert old(pool.Usable(r)) && r !in touched;
      assert forall o | o in old(r.Repr) :: o !in touched;
      assert Fit(a);
      forall d | d in m
        ensures Foreign(a, m[d]) && Foreign(m[d], a)
      {
        assert old(Aside(m[d], r)) && old(Fit(m[d]));
      }
      forall k | k in was
        ensures Aside(a, was[k])
      {
        assert old(RandomAccessReader.Strangers(was[k], r)) && unchanged(was[k]) && unchanged(r);
      }
      AddedArranged(m, c, a);
    }

    /** Writing the list of calls touches none of them. */
    twostate lemma ThisUntouched(new touched: set<object>)
      requires old(Valid()) && old(Repr) <= Repr
      requires touched == {this} && forall o: object | old(allocated(o)) && o !in touched :: unchanged(o)
      ensures pool.Valid() && Outside(pool.Held()) && pool.Held() == old(pool.Held())
      ensures forall k | k in old(pool.Held()) :: unchanged(old(pool.Held())[k])
      ensures Untouched(old(leases)) && AllFit(old(leases)) && AllForeign(old(leases))
      ensures AllAside(old(leases), pool.Held())
    {
      var m, was := old(leases), old(pool.Held());
      forall d | d in m
        ensures old(m[d].reader.Repr) !! touched && m[d].buf !in touched
      {
        assert old(Fit(m[d]));
      }
      Bystanders(m, touched);
      FitStays(m);
      ForeignStays(m);
      forall k | k in was
        ensures unchanged(was[k]) && unchanged(old(was[k].Repr)) && this !in was[k].Repr && was[k].Repr <= Repr
      {
        assert old(pool.Usable(pool.Held()[k])) && this !in old(pool.Held()[k].Repr);
        assert old(pool.Held()[k].Repr) <= old(Repr);
        assert was[k] in old(was[k].Repr) && was[k] !in touched;
        assert forall o | o in old(was[k].Repr) :: o !in touched;
      }
      assert pool !in touched;
      pool.SoundStays(was);
      AsideStays(m, was, was);
    }

    // ---------------------------------------------------------------- a call uses its reader

    /** What call c may touch. */
    ghost function Reach(c: CallId): set<object>
      requires c in leases
      reads this, leases[c].reader
    {
      leases[c].reader.Repr + {leases[c].buf, pool.accessor.connection, this}
    }

    /** The other calls and the pool while call c uses what is its own. */
    twostate lemma OthersUntouched(new c: CallId, new touched: set<object>)
      requires old(Valid()) && c in old(leases) && touched == old(Reach(c)) && old(Repr) <= Repr
      requires forall o: object | old(allocated(o)) && o !in touched :: unchanged(o)
      ensures Untouched(old(leases) - {c}) && AllFit(old(leases) - {c}) && AllForeign(old(leases) - {c})
    {
      var m := old(leases) - {c};
      forall d | d in m
        ensures old(m[d].reader.Repr) !! touched && m[d].buf !in touched
      {
        assert old(Fit(leases[d])) && old(Foreign(leases[c], leases[d]));
      }
      OldSubset(c);
      Bystanders(m, touched);
      FitStays(m);
      ForeignStays(m);
    }

    twostate lemma OldSubset(new c: CallId)
      requires old(Valid()) && c in old(leases)
      ensures old(AllFit(leases - {c}) && AllForeign(leases - {c}) && AllAside(leases - {c}, pool.Held()))
    {
      var m := old(leases) - {c};
      forall d | d in m
        ensures old(Fit(m[d]))
      {
        assert old(Fit(leases[d]));
      }
      forall d, e | d in m && e in m && d != e
        ensures old(Foreign(m[d], m[e]))
      {
        assert old(Foreign(leases[d], leases[e]));
      }
      forall d, k | d in m && k in old(pool.Held())
        ensures old(Aside(m[d], pool.Held()[k]))
      {
        assert old(Aside(leases[d], pool.Held()[k]));
      }
    }

    twostate lemma PoolUntouched(new c: CallId, new touched: set<object>)
      requires old(Valid()) && c in old(leases) && touched == old(Reach(c)) && old(Repr) <= Repr
      requires forall o: object | old(allocated(o)) && o !in touched :: unchanged(o)
      requires pool.Held() == old(pool.Held())
      ensures pool.Valid() && Outside(pool.Held()) && forall k | k in pool.Held() :: unchanged(pool.Held()[k])
    {
      var was := old(pool.Held());
      forall k | k in was
        ensures unchanged(was[k]) && unchanged(old(was[k].Repr)) && this !in was[k].Repr && was[k].Repr <= Repr
      {
        assert old(pool.Usable(pool.Held()[k])) && this !in old(pool.Held()[k].Repr);
        assert old(pool.Held()[k].Repr) <= old(Repr);
        assert old(Aside(leases[c], pool.Held()[k]));
        assert was[k] in old(was[k].Repr) && was[k] !in touched;
        assert forall o | o in old(was[k].Repr) :: o !in touched;
      }
      pool.SoundStays(was);
    }

    /** The others are as they were. */
    twostate lemma OthersStay(new c: CallId, new touched: set<object>)
      requires old(Valid()) && c in old(leases) && touched == old(Reach(c)) && old(Repr) <= Repr
      requires forall o: object | old(allocated(o)) && o !in touched :: unchanged(o)
      requires pool.Held() == old(pool.Held())
      ensures pool.Valid() && Outside(pool.Held()) && forall k | k in pool.Held() :: unchanged(pool.Held()[k])
      ensures Untouched(old(leases) - {c}) && AllFit(old(leases) - {c}) && AllForeign(old(leases) - {c})
      ensures AllAside(old(leases) - {c}, pool.Held())
    {
      OthersUntouched(c, touched);
      PoolUntouched(c, touched);
      OldSubset(c);
      AsideStays(old(leases) - {c}, old(pool.Held()), pool.Held());
    }

    /** A call that has used its reader is still beside the others and the pool. */
    twostate lemma UserBeside(new c: CallId, new touched: set<object>, new b: Lease)
      requires old(Valid()) && c in old(leases) && touched == old(Reach(c)) && old(Repr) <= Repr
      requires forall o: object | old(allocated(o)) && o !in touched :: unchanged(o)
      requires pool.Held() == old(pool.Held())
      requires b.reader == old(leases)[c].reader && b.buf == old(leases)[c].buf
      requires fresh(b.reader.Repr - old(b.reader.Repr))
      ensures forall d | d in old(leases) && d != c :: Foreign(b, old(leases)[d]) && Foreign(old(leases)[d], b)
      ensures forall k | k in pool.Held() :: Aside(b, pool.Held()[k])
    {
      var m, was := old(leases), old(pool.Held());
      OthersStay(c, touched);
      forall d | d in m && d != c
        ensures Foreign(b, m[d]) && Foreign(m[d], b)
      {
        assert old(Foreign(leases[c], leases[d])) && old(Fit(leases[d])) && (m - {c})[d] == m[d];
        assert m[d].reader.Repr == old(leases[d].reader.Repr);
      }
      forall k | k in was
        ensures Aside(b, was[k])
      {
        assert old(Aside(leases[c], pool.Held()[k])) && was[k].Repr == old(pool.Held()[k].Repr);
      }
    }

    /** One call has come further with its reader. */
    twostate lemma Used(new c: CallId, new touched: set<object>, new b: Lease)
      requires old(Valid()) && c in old(leases) && touched == old(Reach(c)) && old(Repr) <= Repr
      requires forall o: object | old(allocated(o)) && o !in touched :: unchanged(o)
      requires pool.Held() == old(pool.Held())
      requires b.reader == old(leases)[c].reader && b.buf == old(leases)[c].buf
      requires fresh(b.reader.Repr - old(b.reader.Repr))
      requires leases == old(leases)[c := b] && Fit(b)
      ensures Valid()
    {
      var m := old(leases) - {c};
      OthersStay(c, touched);
      UserBeside(c, touched, b);
      assert leases == m[c := b];
      forall d | d in m
        ensures Foreign(b, m[d]) && Foreign(m[d], b)
      {
        assert m[d] == old(leases)[d];
      }
      AddedArranged(m, c, b);
    }

    /** One call is gone, with its reader. */
    twostate lemma Gone(new c: CallId, new touched: set<object>)
      requires old(Valid()) && c in old(leases) && touched == old(Reach(c)) && old(Repr) <= Repr
      requires forall o: object | old(allocated(o)) && o !in touched :: unchanged(o)
      requires pool.Held() == old(pool.Held()) && leases == old(leases) - {c}
      ensures Valid()
    {
      OthersStay(c, touched);
    }

    /** Lines 83-84: a pooled reader is kept. */
    method Keep(c: CallId)
      requires Valid() && c in leases && leases[c].stage.Entered?
      modifies this`leases
      ensures Valid() && leases == old(leases)[c := old(leases)[c].(stage := Opened)]
    {
      ghost var touched, b := Reach(c), leases[c].(stage := Opened);
      assert Fit(leases[c]);
      label keeping:
      leases := leases[c := leases[c].(stage := Opened)];
      Used@keeping(c, touched, b);
    }

    /** Lines 52-61. */
    method Place(c: CallId)
      requires Valid() && c in leases && leases[c].stage.Opened?
      modifies this`leases, leases[c].reader
      ensures Valid() && leases == old(leases)[c := old(leases)[c].(stage := Placed)]
    {
      var a := leases[c];
      ghost var touched := Reach(c);
      assert Fit(a);
      label placing:
      var st := pool.PlaceReader(a.reader, a.offset);
      leases := leases[c := a.(stage := Placed)];
      Used@placing(c, touched, a.(stage := Placed));
    }

    /** Line 62. A call that fails gives its reader to the background Close. */
    method Fill(c: CallId) returns (st: Status)
      requires Valid() && c in leases && leases[c].stage.Placed? && pool.File().SeeksInside()
      modifies this, leases[c].reader, leases[c].reader.Repr, leases[c].buf, pool.accessor.connection
      ensures Valid() && pool.pool == old(pool.pool) && old(Repr) <= Repr && fresh(Repr - old(Repr))
      ensures leases == old(leases)[c := old(leases)[c].(stage := if st.Ok? then Filled else Dropped)]
      ensures st.Failed? ==> pool.File().Reports(st.error)
      ensures pool.File().Reliable() ==> st.Ok?
    {
      var a := leases[c];
      ghost var touched := Reach(c);
      assert Fit(a);
      label filling:
      var b;
      st, b := FillOwn(a);
      Note(c, b);
      FilledFit@filling(c, touched, b);
    }

    /** Writes down how far the call has come. */
    method Note(c: CallId, b: Lease)
      requires this !in b.reader.Repr
      modifies this`leases, this`Repr
      ensures old(Answered(b)) ==> Answered(b)
      ensures leases == old(leases)[c := b] && Repr == old(Repr) + b.reader.Repr
      ensures old(pool.Usable(b.reader)) ==> pool.Usable(b.reader)
      ensures old(pool.Spent(b.reader)) ==> pool.Spent(b.reader)
    {
      leases, Repr := leases[c := b], Repr + b.reader.Repr;
    }

    twostate lemma FilledFit(new c: CallId, new touched: set<object>, new b: Lease)
      requires old(Valid()) && c in old(leases) && touched == old(Reach(c))
      requires forall o: object | old(allocated(o)) && o !in touched :: unchanged(o)
      requires pool.Held() == old(pool.Held()) && leases == old(leases)[c := b] && Repr == old(Repr) + b.reader.Repr
      requires b == old(leases)[c].(stage := b.stage) && b.stage in {Filled, Dropped}
      requires fresh(b.reader.Repr - old(b.reader.Repr)) && this !in b.reader.Repr && b.buf !in b.reader.Repr
      requires if b.stage.Filled? then pool.Usable(b.reader) else pool.Spent(b.reader)
      requires b.stage.Filled? ==> Answered(b)
      ensures Valid()
    {
      assert old(Fit(leases[c]));
      Used(c, touched, b);
    }

    /** What the call reads stays its own. */
    method FillOwn(a: Lease) returns (st: Status, b: Lease)
      requires Fit(a) && a.stage.Placed? && pool.File().SeeksInside()
      modifies a.reader, a.reader.Repr, a.buf, pool.accessor.connection
      ensures unchanged(this) && unchanged(pool)
      ensures fresh(a.reader.Repr - old(a.reader.Repr)) && this !in a.reader.Repr && a.buf !in a.reader.Repr
      ensures b == a.(stage := if st.Ok? then Filled else Dropped)
      ensures if st.Ok? then pool.Usable(a.reader) else pool.Spent(a.reader) && pool.File().Reports(st.error)
      ensures st.Ok? ==> Answered(b)
      ensures pool.File().Reliable() ==> st.Ok?
    {
      var n;
      n, st := pool.FillBuffer(a.reader, a.buf);
      assert st.Ok? ==> a.buf[..n] == a.buf[..];
      b := a.(stage := if st.Ok? then Filled else Dropped);
    }

    /** The background Close of a dropped reader. Without a stream it dereferences nil, and all is over. */
    method CloseDropped(c: CallId) returns (crashed: bool)
      requires Valid() && c in leases && leases[c].stage.Dropped?
      modifies this`leases, leases[c].reader, leases[c].reader.Repr
      ensures Valid() && pool.pool == old(pool.pool)
      ensures crashed <==> !old(leases[c].reader.Closable())
      ensures crashed ==> leases == old(leases)
      ensures !crashed ==>
                && leases == old(leases) - {c}
                && old(leases[c].reader.Closable()) && !old(leases[c].reader.Stream()).open
      ensures Sturdy(pool.accessor.policy, pool.File()) ==> !crashed
    {
      var a := leases[c];
      ghost var touched := Reach(c);
      assert Fit(a);
      if a.reader.fileHandle.reader.hdfsReader.impl == null {
        return true;
      }
      label closing:
      crashed := false;
      a.reader.Close();
      leases := leases - {c};
      Gone@closing(c, touched);
    }

    // ---------------------------------------------------------------- a call leaves

    /** The others after call c has given its reader back. */
    twostate lemma OthersAfterReturn(new c: CallId, new touched: set<object>)
      requires old(Valid()) && c in old(leases) && touched == {this, pool} && Repr == old(Repr)
      requires forall o: object | old(allocated(o)) && o !in touched :: unchanged(o)
      requires forall k | k in pool.Held() :: pool.Held()[k] == old(leases)[c].reader ||
                 (k in old(pool.Held()) && old(pool.Held())[k] == pool.Held()[k])
      ensures Untouched(old(leases) - {c}) && AllFit(old(leases) - {c}) && AllForeign(old(leases) - {c})
      ensures Outside(pool.Held()) && AllAside(old(leases) - {c}, pool.Held())
    {
      var a, m, held := old(leases)[c], old(leases) - {c}, pool.Held();
      OldSubset(c);
      assert old(Fit(leases[c]));
      forall d | d in m
        ensures old(m[d].reader.Repr) !! touched && m[d].buf !in touched
      {
        assert old(Fit(leases[d]));
      }
      Bystanders(m, touched);
      FitStays(m);
      ForeignStays(m);
      HeldAfterReturn(c, touched);
      forall d, k | d in m && k in held
        ensures Aside(m[d], held[k])
      {
        assert m[d].reader.Repr == old(m[d].reader.Repr);
        if held[k] == a.reader {
          assert old(Foreign(leases[c], leases[d]));
        } else {
          assert old(Aside(leases[d], pool.Held()[k]));
        }
      }
    }

    twostate lemma HeldAfterReturn(new c: CallId, new touched: set<object>)
      requires old(Valid()) && c in old(leases) && touched == {this, pool} && Repr == old(Repr)
      requires forall o: object | old(allocated(o)) && o !in touched :: unchanged(o)
      requires forall k | k in pool.Held() :: pool.Held()[k] == old(leases)[c].reader ||
                 (k in old(pool.Held()) && old(pool.Held())[k] == pool.Held()[k])
      ensures Outside(pool.Held()) && forall k | k in pool.Held() :: unchanged(pool.Held()[k])
    {
      var a, held := old(leases)[c], pool.Held();
      assert old(Fit(leases[c]));
      forall k | k in held
        ensures unchanged(held[k]) && this !in held[k].Repr && held[k].Repr <= Repr
      {
        if held[k] != a.reader {
          assert old(pool.Usable(pool.Held()[k])) && this !in old(pool.Held()[k].Repr);
          assert old(pool.Held()[k].Repr) <= old(Repr);
        }
        assert held[k] in old(held[k].Repr) && held[k] !in touched;
      }
    }

    /** The reader that was not pooled, or had to make room, is beside the others. */
    twostate lemma DroppedBeside(new c: CallId, new touched: set<object>, new b: Lease)
      requires old(Valid()) && c in old(leases) && touched == {this, pool} && Repr == old(Repr)
      requires forall o: object | old(allocated(o)) && o !in touched :: unchanged(o)
      requires forall k | k in pool.Held() :: pool.Held()[k] == old(leases)[c].reader ||
                 (k in old(pool.Held()) && old(pool.Held())[k] == pool.Held()[k])
      requires b == old(leases)[c].(reader := b.reader, stage := Dropped)
      requires b.reader == old(leases)[c].reader || exists k :: k in old(pool.Held()) && old(pool.Held())[k] == b.reader
      requires pool.Usable(b.reader) && pool.Apart(b.reader, pool.Held())
      ensures Fit(b)
      ensures forall d | d in old(leases) && d != c :: Foreign(b, old(leases)[d]) && Foreign(old(leases)[d], b)
      ensures forall k | k in pool.Held() :: Aside(b, pool.Held()[k])
    {
      var m, was, r := old(leases), old(pool.Held()), b.reader;
      assert old(Fit(m[c]));
      OthersAfterReturn(c, touched);
      HeldAfterReturn(c, touched);
      DroppedOwn(c, touched, r);
      forall d | d in m && d != c
        ensures Foreign(b, m[d]) && Foreign(m[d], b)
      {
        assert old(Foreign(m[c], m[d])) && (m - {c})[d] == m[d] && m[d].reader.Repr == old(m[d].reader.Repr);
        if r != m[c].reader {
          var k :| k in was && was[k] == r;
          assert old(Aside(m[d], was[k]));
        }
      }
      forall k | k in pool.Held()
        ensures Aside(b, pool.Held()[k])
      {
        assert RandomAccessReader.Strangers(pool.Held()[k], r);
        assert unchanged(pool.Held()[k]);
        assert pool.Held()[k] != m[c].reader ==> old(Aside(m[c], was[k]));
      }
    }

    twostate lemma DroppedOwn(new c: CallId, new touched: set<object>, new r: Reader)
      requires old(Valid()) && c in old(leases) && touched == {this, pool} && Repr == old(Repr)
      requires forall o: object | old(allocated(o)) && o !in touched :: unchanged(o)
      requires r == old(leases)[c].reader || exists k :: k in old(pool.Held()) && old(pool.Held())[k] == r
      ensures old(allocated(r)) && r.Repr == old(r.Repr) && this !in r.Repr && r.Repr <= Repr
      ensures old(leases)[c].buf !in r.Repr
    {
      var a, was := old(leases)[c], old(pool.Held());
      assert old(Fit(leases[c])) && a.reader in old(a.reader.Repr) && a.reader !in touched;
      if r != a.reader {
        var k :| k in was && was[k] == r;
        assert old(pool.Usable(was[k])) && this !in old(was[k].Repr) && old(Aside(leases[c], was[k]));
        assert was[k] in old(was[k].Repr) && was[k] !in touched;
      }
    }

    /** returnReaderToPool. The buffer holds the answer. */
    method Return(c: CallId) returns (offset: nat, data: seq<Byte>, ghost dropped: Option<Reader>)
      requires Valid() && c in leases && leases[c].stage.Filled?
      modifies this`leases, pool`pool
      ensures Valid() && pool.pool.Some? == old(pool.pool).Some?
      ensures if pool.pool.Some? then pool.Settled(old(pool.Held()), old(leases)[c].reader, dropped, true)
              else dropped == Some(old(leases)[c].reader)
      ensures leases == if dropped.None? then old(leases) - {c}
                        else old(leases)[c := old(leases)[c].(reader := dropped.value, stage := Dropped)]
      ensures offset == old(leases)[c].offset && |data| == old(leases)[c].buf.Length
      ensures Right(pool.File().content, Answer(c, offset, data))
    {
      var a := leases[c];
      ghost var touched: set<object> := {this, pool};
      assert Fit(a);
      offset, data := a.offset, a.buf[..];
      assert Right(pool.File().content, Answer(c, offset, data));
      label returning:
      var rejected := GiveBack(c);
      dropped := rejected;
      HeldAfterReturn@returning(c, touched);
      if rejected.None? {
        Rewrite(leases - {c}, None);
        OthersAfterReturn@returning(c, touched);
        return;
      }
      var b := a.(reader := rejected.value, stage := Dropped);
      DroppedOwn@returning(c, touched, rejected.value);
      Rewrite(leases[c := b], rejected);
      DroppedArranged@returning(c, touched, b);
    }

    twostate lemma DroppedArranged(new c: CallId, new touched: set<object>, new b: Lease)
      requires old(Valid()) && c in old(leases) && touched == {this, pool} && Repr == old(Repr)
      requires forall o: object | old(allocated(o)) && o !in touched :: unchanged(o)
      requires forall k | k in pool.Held() :: pool.Held()[k] == old(leases)[c].reader ||
                 (k in old(pool.Held()) && old(pool.Held())[k] == pool.Held()[k])
      requires b == old(leases)[c].(reader := b.reader, stage := Dropped)
      requires b.reader == old(leases)[c].reader || exists k :: k in old(pool.Held()) && old(pool.Held())[k] == b.reader
      requires pool.Usable(b.reader) && pool.Apart(b.reader, pool.Held()) && leases == old(leases)[c := b]
      ensures Arranged()
    {
      var m := old(leases) - {c};
      OthersAfterReturn(c, touched);
      DroppedBeside(c, touched, b);
      assert leases == m[c := b];
      forall d | d in m
        ensures Foreign(b, m[d]) && Foreign(m[d], b)
      {
        assert m[d] == old(leases)[d];
      }
      AddedArranged(m, c, b);
    }

    /** Writing the list of calls touches neither the pool nor the dropped reader. */
    method Rewrite(m: Leases, ghost dropped: Option<Reader>)
      requires pool.Valid() && Outside(pool.Held())
      requires dropped.Some? ==>
                pool.Usable(dropped.value) && pool.Apart(dropped.value, pool.Held()) && this !in dropped.value.Repr
      modifies this`leases
      ensures leases == m && pool.Valid() && pool.pool == old(pool.pool)
      ensures dropped.Some? ==> pool.Usable(dropped.value) && pool.Apart(dropped.value, pool.Held())
    {
      label rewriting:
      leases := m;
      pool.SoundStays@rewriting(pool.Held());
    }

    /** The pool afterwards holds the call's reader or not, and otherwise readers that it held before. */
    method GiveBack(c: CallId) returns (dropped: Option<Reader>)
      requires Valid() && c in leases && leases[c].stage.Filled?
      modifies pool`pool
      ensures pool.Valid() && pool.pool.Some? == old(pool.pool).Some?
      ensures if pool.pool.Some? then pool.Settled(old(pool.Held()), leases[c].reader, dropped, true)
              else dropped == Some(leases[c].reader)
      ensures forall k | k in pool.Held() :: pool.Held()[k] == leases[c].reader ||
                (k in old(pool.Held()) && old(pool.Held())[k] == pool.Held()[k])
      ensures dropped.Some? ==> pool.Usable(dropped.value) && pool.Apart(dropped.value, pool.Held())
      ensures dropped.Some? ==>
                || dropped.value == leases[c].reader
                || exists k :: k in old(pool.Held()) && old(pool.Held())[k] == dropped.value
    {
      assert Fit(leases[c]);
      forall k | k in pool.Held()
        ensures RandomAccessReader.Strangers(pool.Held()[k], leases[c].reader)
      {
        assert Aside(leases[c], pool.Held()[k]);
      }
      dropped := pool.ReturnReaderToPool(leases[c].reader);
    }

    // ---------------------------------------------------------------- the pool is closed

    /** The calls after the pool has been closed: they still have their readers. */
    twostate lemma ClosedUnder(new touched: set<object>)
      requires old(Valid()) && leases == old(leases) && Repr == old(Repr) && pool.pool.None?
      requires touched == old(RandomAccessReader.Footprint(pool.Held())) + {pool}
      requires forall o: object | old(allocated(o)) && o !in touched :: unchanged(o)
      ensures Valid()
    {
      var m := old(leases);
      forall d | d in m
        ensures old(m[d].reader.Repr) !! touched && m[d].buf !in touched
      {
        assert old(Fit(leases[d]));
        forall o | o in touched && o != pool
          ensures o !in old(m[d].reader.Repr) && o != m[d].buf
        {
          var k :| k in old(pool.Held()) && o in old(pool.Held()[k].Repr);
          assert old(Aside(leases[d], pool.Held()[k]));
        }
      }
      Bystanders(m, touched);
      FitStays(m);
      ForeignStays(m);
    }

    /** Close, while calls are in flight. */
    method Close()
      requires Valid()
      modifies pool`pool, RandomAccessReader.Readers(pool.Held()), RandomAccessReader.Footprint(pool.Held())
      ensures Valid() && leases == old(leases) && Repr == old(Repr) && pool.pool.None?
      ensures forall k | k in old(pool.Held()) ::
                old(pool.Held()[k].Closable()) && !old(pool.Held()[k].Stream()).open
    {
      ghost var touched := RandomAccessReader.Footprint(pool.Held()) + {pool};
      forall k | k in pool.Held()
        ensures pool.Held()[k] in touched && this !in pool.Held()[k].Repr
      {
        assert pool.Usable(pool.Held()[k]) && pool.Held()[k] in pool.Held()[k].Repr;
        assert pool.Held()[k] in RandomAccessReader.Readers(pool.Held());
      }
      label closing:
      ghost var streams := pool.Close();
      ClosedUnder@closing(touched);
    }

    // ---------------------------------------------------------------- sections, as a scheduler sees them

    ghost predicate InOrder(book: Book)
      reads *
    {
      Valid() && Booked(pool.File().content, leases, book)
    }

    /** How far everybody is. */
    function Shape(book: Book): Outline
      reads this, pool
    {
      Outline(pool.pool.Some?, book.entered, Phases(leases, book.waiting))
    }

    ghost function Readers(): set<Reader>
      reads this, pool
    {
      Known(leases, pool.Held())
    }

    /** No reader is lost unless its stream has been closed, and none comes in unless it is new. */
    twostate predicate Conserved()
      reads *
    {
      && (forall r | r in old(Readers()) && r !in Readers() :: old(r.Closable()) && !old(r.Stream()).open)
      && (forall r | r in Readers() && r !in old(Readers()) :: fresh(r))
    }

    /** The locked lookup, for a new call inside the file. */
    method EnterCall(book: Book, c: CallId, offset: nat, size: nat) returns (now: Book)
      requires InOrder(book)
      modifies this, pool`pool
      ensures InOrder(now) && fresh(Repr - old(Repr)) && Readers() == old(Readers())
      ensures Shape(now) == Following(pool.File().content, old(Shape(book)), Enter(c, offset, size))
      // a reader that is pooled is used, and none is opened
      ensures c !in book.entered && offset + size <= |pool.File().content| && old(pool.Held()) != map[] ==>
                c in leases && RandomAccessReader.TakenFrom(old(pool.Held()), offset, leases[c].reader, pool.Held())
    {
      now := book;
      if c in book.entered || offset + size > |pool.File().content| {
        return;
      }
      now := Book(book.entered + {c}, book.waiting);
      ghost var m, held := leases, pool.Held();
      var r, st := Look(offset);
      if r != null {
        Lend(c, r, offset, size, Entered);
        PhasesWith(m, book.waiting, c, leases[c]);
        KnownTaken(m, held, offset, pool.Held(), c, leases[c]);
      } else if st.Ok? {
        now := Book(now.entered, book.waiting[c := Ask(offset, size)]);
        PhasesAsked(m, book.waiting, c, Ask(offset, size));
      }
    }

    /** A call that has found none opens a new reader. */
    method OpenCall(book: Book, c: CallId) returns (now: Book, ghost failed: bool)
      requires InOrder(book)
      modifies this, pool.accessor.connection
      ensures InOrder(now) && fresh(Repr - old(Repr)) && Conserved()
      ensures Shape(now) == Next(pool.File().content, old(Shape(book)), Open(c), failed)
      ensures failed ==> !pool.File().Reliable() && MayFail(old(Shape(book)), Open(c))
      ensures if c in book.waiting && !failed then c in leases && Readers() == old(Readers()) + {leases[c].reader}
              else Readers() == old(Readers())
    {
      now, failed := book, false;
      if c in book.waiting {
        now, failed := OpenWaiting(book, c);
      } else if c in leases && leases[c].stage.Entered? {
        ghost var m := leases;
        Keep(c);
        PhasesWith(m, book.waiting, c, leases[c]);
        KnownMoved(m, pool.Held(), c, leases[c]);
      }
    }

    method OpenWaiting(book: Book, c: CallId) returns (now: Book, ghost failed: bool)
      requires InOrder(book) && c in book.waiting
      modifies this, pool.accessor.connection
      ensures InOrder(now) && fresh(Repr - old(Repr))
      ensures Shape(now) == Next(pool.File().content, old(Shape(book)), Open(c), failed)
      ensures failed ==> !pool.File().Reliable() && Readers() == old(Readers())
      ensures !failed ==>
                c in leases && fresh(leases[c].reader) && Readers() == old(Readers()) + {leases[c].reader}
    {
      ghost var m := leases;
      now := Book(book.entered, book.waiting - {c});
      var r, st := OpenNew();
      failed := r == null;
      if r != null {
        Lend(c, r, book.waiting[c].offset, book.waiting[c].size, Opened);
        PhasesServed(m, book.waiting, c, leases[c]);
        KnownAdded(m, pool.Held(), c, leases[c]);
      } else {
        PhasesRefused(m, book.waiting, c);
      }
    }

    method PlaceCall(ghost book: Book, c: CallId)
      requires InOrder(book)
      modifies Repr
      ensures InOrder(book) && Repr == old(Repr) && Readers() == old(Readers())
      ensures Shape(book) == Following(pool.File().content, old(Shape(book)), Section.Place(c))
    {
      if c in leases && leases[c].stage.Opened? {
        assert Fit(leases[c]) && leases[c].reader in leases[c].reader.Repr;
        ghost var m := leases;
        Place(c);
        PhasesWith(m, book.waiting, c, leases[c]);
        KnownMoved(m, pool.Held(), c, leases[c]);
      }
    }

    method FillCall(ghost book: Book, c: CallId) returns (ghost failed: bool)
      requires InOrder(book) && pool.File().SeeksInside()
      modifies Repr, pool.accessor.connection
      ensures InOrder(book) && fresh(Repr - old(Repr)) && Readers() == old(Readers())
      ensures Shape(book) == Next(pool.File().content, old(Shape(book)), Section.Fill(c), failed)
      ensures failed ==> !pool.File().Reliable() && MayFail(old(Shape(book)), Section.Fill(c))
      ensures failed ==> c in leases && leases[c].stage.Dropped? && leases[c].reader == old(leases)[c].reader
    {
      failed := false;
      if c in leases && leases[c].stage.Placed? {
        assert Fit(leases[c]) && leases[c].reader in leases[c].reader.Repr;
        ghost var m := leases;
        var st := Fill(c);
        failed := st.Failed?;
        PhasesWith(m, book.waiting, c, leases[c]);
        KnownMoved(m, pool.Held(), c, leases[c]);
      }
    }

    method LeaveCall(ghost book: Book, c: CallId) returns (answers: seq<Answer>)
      requires InOrder(book)
      modifies this`leases, pool`pool
      ensures InOrder(book) && Readers() == old(Readers())
      ensures Shape(book) == Following(pool.File().content, old(Shape(book)), Leave(c))
      ensures answers == Due(pool.File().content, old(Shape(book)), Leave(c))
    {
      answers := [];
      if c in leases && leases[c].stage.Filled? {
        ghost var m, held, at := leases, pool.Held(), leases[c].reader.offset;
        ghost var dropped;
        var offset, data;
        offset, data, dropped := Return(c);
        answers := [Answer(c, offset, data)];
        KnownOver(m, held, pool.Held(), c, at, dropped);
        if dropped.None? {
          PhasesWithout(m, book.waiting, c);
        } else {
          PhasesWith(m, book.waiting, c, leases[c]);
        }
      }
    }

    method CloseAll(ghost book: Book)
      requires InOrder(book)
      modifies Repr
      ensures InOrder(book) && Repr == old(Repr) && Conserved() && leases == old(leases)
      ensures Shape(book) == Following(pool.File().content, old(Shape(book)), ClosePool)
    {
      forall k | k in pool.Held()
        ensures pool.Held()[k] in Repr && pool.Held()[k].Repr <= Repr
      {
        assert pool.Usable(pool.Held()[k]) && pool.Held()[k] in pool.Held()[k].Repr;
      }
      Close();
      PoolConserved();
    }

    twostate lemma PoolConserved()
      requires leases == old(leases) && pool.pool.None?
      requires forall k | k in old(pool.Held()) ::
                 old(pool.Held()[k].Closable()) && !old(pool.Held()[k].Stream()).open
      ensures Conserved()
    {
      forall r | r in old(Readers()) && r !in Readers()
        ensures old(r.Closable()) && !old(r.Stream()).open
      {
        assert r in RandomAccessReader.Readers(old(pool.Held()));
        var k :| k in old(pool.Held()) && old(pool.Held())[k] == r;
      }
    }

    method DiscardCall(ghost book: Book, c: CallId) returns (crashed: bool)
      requires InOrder(book)
      modifies Repr
      ensures InOrder(book) && Repr == old(Repr) && Shape(book) == old(Shape(book)) && Conserved()
      ensures crashed <==> c in old(leases) && old(leases[c].stage.Dropped? && !leases[c].reader.Closable())
      ensures c in old(leases) && old(leases)[c].stage.Dropped? && !crashed ==> c !in leases
      ensures Sturdy(pool.accessor.policy, pool.File()) ==> !crashed
    {
      crashed := false;
      if c in leases && leases[c].stage.Dropped? {
        assert Fit(leases[c]) && leases[c].reader in leases[c].reader.Repr;
        ghost var m := leases;
        crashed := CloseDropped(c);
        PhasesWithout(m, book.waiting, c);
        KnownGone(m, pool.Held(), c);
      }
    }
  }

  /** One section, if it is that call's turn for it. Only the background Close can crash. */
  method Step(calls: Calls, book: Book, section: Section)
      returns (now: Book, answers: seq<Answer>, crashed: bool, ghost failed: bool)
    requires calls.InOrder(book) && calls.pool.File().SeeksInside()
    modifies calls.Repr, calls.pool.accessor.connection
    ensures calls.InOrder(now) && fresh(calls.Repr - old(calls.Repr)) && calls.Conserved()
    ensures calls.Shape(now) == Next(calls.pool.File().content, old(calls.Shape(book)), section, failed)
    ensures answers == Due(calls.pool.File().content, old(calls.Shape(book)), section)
    ensures failed ==> !calls.pool.File().Reliable() && MayFail(old(calls.Shape(book)), section)
    ensures crashed ==> section.Discard? && !Sturdy(calls.pool.accessor.policy, calls.pool.File())
  {
    now, answers, crashed, failed := book, [], false, false;
    match section {
      case Enter(c, offset, size) => now := calls.EnterCall(book, c, offset, size);
      case Open(c) => now, failed := calls.OpenCall(book, c);
      case Place(c) => calls.PlaceCall(book, c);
      case Fill(c) => failed := calls.FillCall(book, c);
      case Leave(c) => answers := calls.LeaveCall(book, c);
      case Discard(c) => crashed := calls.DiscardCall(book, c);
      case ClosePool => calls.CloseAll(book);
    }
  }

  /** The sections of a schedule, one after the other, until one crashes. */
  method Play(calls: Calls, schedule: seq<Section>)
      returns (answers: seq<Answer>, crashed: bool, ghost failed: seq<bool>, ghost o: Outline)
    requires calls.InOrder(Book({}, map[])) && calls.pool.File().SeeksInside()
    requires calls.Shape(Book({}, map[])) == Outline(true, {}, map[])
    modifies calls.Repr, calls.pool.accessor.connection
    ensures Explained(calls.pool.File(), schedule, failed, o, answers)
    ensures if crashed then |failed| > 0 && schedule[|failed| - 1].Discard? else |failed| == |schedule|
    ensures crashed ==> !Sturdy(calls.pool.accessor.policy, calls.pool.File())
  {
    answers, crashed, failed := [], false, [];
    var book := Book({}, map[]);
    o := calls.Shape(book);
    for i := 0 to |schedule|
      invariant calls.InOrder(book) && fresh(calls.Repr - old(calls.Repr)) && !crashed && |failed| == i
      invariant o == calls.Shape(book) && Explained(calls.pool.File(), schedule, failed, o, answers)
    {
      var more;
      ghost var lost;
      book, more, crashed, lost := Step(calls, book, schedule[i]);
      ExplainedMore(calls.pool.File(), schedule, failed, o, answers, lost);
      answers, failed, o := answers + more, failed + [lost], calls.Shape(book);
      if crashed {
        return;
      }
    }
  }

  /**
   Any schedule of any number of ReadAt calls, with the pool closed at any moment and dropped readers
   closed whenever it pleases. Which calls are answered, and with what, follows from the schedule, the
   file and the failures alone: readers, pool and cache do not show. Every answer is that of one call,
   exactly the file's bytes for what it asked, and no call is answered twice. Nothing crashes if nothing
   is retried, and over a reliable file nothing fails.
   */
  method Interleave(accessor: FaultTolerantHdfsAccessor, schedule: seq<Section>)
      returns (answers: seq<Answer>, crashed: bool, ghost failed: seq<bool>, ghost o: Outline)
    requires accessor.impl.file.SeeksInside()
    modifies accessor.connection
    ensures Explained(accessor.impl.file, schedule, failed, o, answers)
    ensures Attributed(accessor.impl.file.content, schedule, |failed|, o, answers)
    ensures if crashed then |failed| > 0 && schedule[|failed| - 1].Discard? else |failed| == |schedule|
    ensures crashed ==> !Sturdy(accessor.policy, accessor.impl.file)
  {
    var pool := new RandomAccessReader(accessor);
    var calls := new Calls(pool);
    answers, crashed, failed, o := Play(calls, schedule);
    AnswersAttributed(accessor.impl.file.content, schedule, failed, |failed|);
  }
}
