/** FaultTolerantHdfsReader.go: a stream that reopens and repositions itself after failures. */
module FaultTolerantReaders {
  import opened Basics
  import opened HdfsBackend
  import opened RetryPolicies

  /** What one turn of Read's loop met, and whether another follows. */
  datatype Event =
    | NotOpened(error: Error, again: bool)   // a new stream could not be opened
    | NotSought                              // a new stream refused Offset
    | NotRead(error: Error, again: bool)     // an error worth retrying
    | Done(st: Status)                       // bytes, or an error that is not retried
  {
    /** What the caller would be told. */
    function Says(file: RemoteFile): Status {
      match this
      case NotOpened(e, _) => Failed(e)
      case NotSought => Failed(file.refusal)
      case NotRead(e, _) => Failed(e)
      case Done(st) => st
    }

    /** What the file can do to a turn, with or without a stream at first. */
    predicate Meets(file: RemoteFile, wasLive: bool, at: nat) {
      match this
      case NotOpened(e, _) => !wasLive && e in file.errors
      case NotSought => !wasLive && !file.seekable(at)
      case NotRead(e, _) => e in file.errors && e !in {Eof, Exists, NotExist, Permission}
      case Done(st) =>
        st.Failed? ==> st.error == Eof || (st.error in file.errors && st.error in {Exists, NotExist, Permission})
    }
  }

  /** The turns of one Read so far. */
  datatype History = Begun(live: bool) | Then(earlier: History, event: Event)
  {
    /** Whether Impl was there when Read was called. */
    function Start(): bool {
      if Begun? then live else earlier.Start()
    }

    /** Whether Impl is there now: an error closes the stream only when there is a next turn. */
    predicate Live() {
      if Begun? then live else event.Done? || (event.NotRead? && !event.again)
    }

    function Count(): nat {
      if Begun? then 0 else earlier.Count() + 1
    }

    predicate Again() {
      Begun? || ((event.NotOpened? || event.NotRead?) && event.again)
    }

    /** Turns that can follow one another. */
    predicate Possible(policy: RetryPolicy, file: RemoteFile, offset: nat) {
      Then? ==>
        && earlier.Possible(policy, file, offset) && earlier.Again()
        && (Again() ==> Count() < policy.maxAttempts && policy.timeLimit >= 0)
        && event.Meets(file, earlier.Live(), offset)
    }

    /** What the last turn met is what Read returns. */
    function Says(file: RemoteFile): Status {
      if Begun? then Ok else event.Says(file)
    }

    /** A whole Read. */
    predicate Whole(policy: RetryPolicy, file: RemoteFile, offset: nat) {
      Possible(policy, file, offset) && !Again()
    }
  }

  /**
   Nothing is retried, because one attempt is all, or the deadline is past from the start, or no error
   is worth it.
   */
  predicate Sturdy(policy: RetryPolicy, file: RemoteFile) {
    policy.maxAttempts <= 1 || policy.timeLimit < 0 || file.errors <= {Exists, NotExist, Permission}
  }

  lemma {:induction false} SturdyKeepsStream(policy: RetryPolicy, file: RemoteFile, offset: nat, h: History)
    requires Sturdy(policy, file) && h.Possible(policy, file, offset) && h.Start()
    ensures h.Live() && (h.Again() ==> h.Begun?)
  {
    if h.Then? {
      SturdyKeepsStream(policy, file, offset, h.earlier);
    }
  }

  /**
   When a Read that begins with a stream also ends with one, so that Seek and Close may follow: if
   and only if nothing is retried. Otherwise the stream that failed is closed, and the next one may
   not open.
   */
  lemma StreamSurvivesIffSturdy(policy: RetryPolicy, file: RemoteFile, offset: nat)
    ensures (forall h: History | h.Whole(policy, file, offset) && h.Start() :: h.Live()) <==> Sturdy(policy, file)
  {
    if Sturdy(policy, file) {
      forall h: History | h.Whole(policy, file, offset) && h.Start()
        ensures h.Live()
      {
        SturdyKeepsStream(policy, file, offset, h);
      }
    } else {
      var e :| e in file.errors && e !in {Exists, NotExist, Permission};
      var failed := Then(Begun(true), NotRead(e, true));
      assert failed.Count() == 1 && failed.Start() && failed.Possible(policy, file, offset);
      var lost := Then(failed, NotOpened(e, false));
      assert lost.Whole(policy, file, offset) && lost.Start() && !lost.Live();
    }
  }

  class FaultTolerantHdfsReader {
    const accessor: HdfsAccessor
    const policy: RetryPolicy
    var impl: HdfsStream?
    var offset: nat
    ghost var fetched: nat           // bytes returned by all successful Reads
    ghost var chunks: seq<nat>       // and by each of them
    ghost var seekCalls: nat         // Seeks asked of this reader

    ghost function Repr(): set<object>
      reads this
    {
      if impl == null then {this} else {this, impl}
    }

    /** The live stream stands at Offset. */
    ghost predicate Valid()
      reads this, Repr()
    {
      impl != null ==> impl.open && impl.file == accessor.file && impl.pos == offset
    }

    constructor (impl: HdfsStream, accessor: HdfsAccessor, policy: RetryPolicy)
      requires impl.open && impl.pos == 0 && impl.file == accessor.file
      ensures Valid() && this.impl == impl && this.accessor == accessor && this.policy == policy
      ensures offset == 0 && fetched == 0 && seekCalls == 0 && chunks == []
    {
      this.impl, this.accessor, this.policy := impl, accessor, policy;
      offset, fetched, seekCalls, chunks := 0, 0, 0, [];
    }

    /**
     Whatever pattern of failures, reopenings and repositionings happens inside, a successful
     Read returns the next bytes of the file; a failed one moves nothing. An error worth retrying
     is returned only when the attempts or the time have run out, or when a new stream refuses Offset.
     */
    method Read(buf: array<Byte>, lo: nat, hi: nat) returns (nr: nat, st: Status, ghost op: Op, ghost history: History)
      requires Valid() && lo < hi <= buf.Length
      modifies Repr(), buf
      ensures Valid() && fresh(Repr() - old(Repr()))
      ensures forall i | 0 <= i < buf.Length && !(lo <= i < hi) :: buf[i] == old(buf[i])
      ensures offset == old(offset) + nr && fetched == old(fetched) + nr
      ensures seekCalls == old(seekCalls) && chunks == old(chunks) + if nr > 0 then [nr] else []
      ensures st.Ok? ==> 1 <= nr <= hi - lo && offset <= |accessor.file.content| && impl != null
      ensures st.Ok? ==> buf[lo..lo + nr] == accessor.file.content[old(offset)..offset]
      ensures st.Ok? && accessor.file.prompt ==> nr == Min(hi - lo, |accessor.file.content| - old(offset))
      ensures st.Failed? ==> nr == 0 && accessor.file.Reports(st.error)
      ensures st == Failed(Eof) ==> offset >= |accessor.file.content| && impl != null
      ensures accessor.file.Reliable() && old(offset) <= |accessor.file.content| ==> st.Ok? || st == Failed(Eof)
      ensures fresh(op) && op.Valid() && op.policy == policy && op.attempt == history.Count()
      ensures IsSuccessOrBenign(st) || op.GivenUp() || !accessor.file.seekable(offset)
      ensures st == history.Says(accessor.file)
      ensures history.Whole(policy, accessor.file, old(offset)) && history.Start() == (old(impl) != null)
      ensures impl != null <==> history.Live()
      ensures old(impl) != null && impl != old(impl) ==> !old(impl).open
      ensures old(impl) != null && Sturdy(policy, accessor.file) ==> impl != null
    {
      var start := *;
      var retries := new Op(policy, start);
      op := retries;
      var again := true;
      nr, st, history := 0, Ok, Begun(impl != null);
      while again
        invariant Valid() && fresh(Repr() - old(Repr())) && fresh(op) && op == retries && op.Valid()
        invariant op.policy == policy
        invariant !again ==> IsSuccessOrBenign(st) || op.GivenUp() || !accessor.file.seekable(offset)
        invariant forall i | 0 <= i < buf.Length && !(lo <= i < hi) :: buf[i] == old(buf[i])
        invariant nr <= hi - lo && (if again then nr == 0 else Outcome(buf, lo, hi, nr, st))
        invariant Recorded(history, old(impl) != null, old(offset), again, op.attempt)
        invariant again || st == history.Says(accessor.file)
        invariant old(impl) != null && impl != old(impl) ==> !old(impl).open
        invariant chunks == old(chunks) + if nr > 0 then [nr] else []
        invariant seekCalls == old(seekCalls) && offset == old(offset) + nr && fetched == old(fetched) + nr
        decreases again, policy.maxAttempts - op.attempt
      {
        ghost var event, last;
        again, nr, st, event, last := Attempt(retries, buf, lo, hi);
        history := Then(history, event);
      }
      if history.Start() && Sturdy(policy, accessor.file) {
        SturdyKeepsStream(policy, accessor.file, old(offset), history);
      }
    }

    /** The turns so far, and what they left. */
    ghost predicate Recorded(history: History, wasLive: bool, at: nat, again: bool, attempt: nat)
      reads this
    {
      && history.Possible(policy, accessor.file, at) && history.Start() == wasLive
      && (impl != null <==> history.Live()) && (again <==> history.Again())
      && attempt == history.Count() + if again then 1 else 0
    }

    /** What a finished Read leaves behind. */
    ghost predicate Outcome(buf: array<Byte>, lo: nat, hi: nat, nr: nat, st: Status)
      reads this, buf
    {
      && lo < hi <= buf.Length && nr <= hi - lo && nr <= offset
      && (st.Ok? ==> 1 <= nr && offset <= |accessor.file.content| && impl != null)
      && (st.Ok? ==> buf[lo..lo + nr] == accessor.file.content[offset - nr..offset])
      && (st.Ok? && accessor.file.prompt ==> nr == Min(hi - lo, |accessor.file.content| - (offset - nr)))
      && (st.Failed? ==> nr == 0 && accessor.file.Reports(st.error))
      && (st == Failed(Eof) ==> offset >= |accessor.file.content| && impl != null)
      && (accessor.file.Reliable() && offset - nr <= |accessor.file.content| ==> st.Ok? || st == Failed(Eof))
    }

    /** One turn of the retry loop; `last` is the stream that it has done with. */
    method Attempt(op: Op, buf: array<Byte>, lo: nat, hi: nat)
        returns (again: bool, nr: nat, st: Status, ghost event: Event, ghost last: HdfsStream?)
      requires Valid() && lo < hi <= buf.Length && op.Valid() && op.policy == policy
      modifies Repr(), buf, op
      ensures Valid() && fresh(Repr() - old(Repr())) && op.Valid()
      ensures forall i | 0 <= i < buf.Length && !(lo <= i < hi) :: buf[i] == old(buf[i])
      ensures seekCalls == old(seekCalls) && chunks == old(chunks) + if nr > 0 then [nr] else []
      ensures offset == old(offset) + nr && fetched == old(fetched) + nr
      ensures again ==> nr == 0 && op.attempt == old(op.attempt) + 1 <= policy.maxAttempts && policy.timeLimit >= 0
      ensures !again ==> op.attempt == old(op.attempt)
      ensures !again ==> Outcome(buf, lo, hi, nr, st)
      ensures !again ==> IsSuccessOrBenign(st) || op.GivenUp() || !accessor.file.seekable(offset)
      ensures Met(event, again, old(impl) != null, old(offset)) && st == event.Says(accessor.file)
      ensures last != null <==> event.NotSought? || (event.NotRead? && again)
      ensures last != null ==> !last.open && (if old(impl) != null then last == old(impl) else fresh(last))
      ensures impl == null || impl == old(impl) || (old(impl) == null && fresh(impl))
      ensures old(impl) != null && impl == null ==> last == old(impl)
    {
      last := null;
      if impl == null {
        var opening, seeking;
        opening, seeking, last := Reopen();
        if opening.Failed? {
          again := op.ShouldRetry();
          return again, 0, opening, NotOpened(opening.error, again), null;
        }
        if seeking.Failed? {
          return false, 0, seeking, NotSought, last;
        }
      }
      ghost var stream := impl;
      again, nr, st, event := AttemptRead(op, buf, lo, hi);
      last := if again then stream else null;
    }

    /** What a turn met, and what it left. */
    ghost predicate Met(event: Event, again: bool, wasLive: bool, at: nat)
      reads this
    {
      && (again <==> (event.NotOpened? || event.NotRead?) && event.again)
      && (impl != null <==> event.Done? || (event.NotRead? && !event.again))
      && event.Meets(accessor.file, wasLive, at)
    }

    /** The part of a turn that has a live stream. */
    method AttemptRead(op: Op, buf: array<Byte>, lo: nat, hi: nat)
        returns (again: bool, nr: nat, st: Status, ghost event: Event)
      requires Valid() && impl != null && lo < hi <= buf.Length && op.Valid() && op.policy == policy
      modifies Repr(), buf, op
      ensures Valid() && (impl == null || impl == old(impl)) && op.Valid()
      ensures forall i | 0 <= i < buf.Length && !(lo <= i < hi) :: buf[i] == old(buf[i])
      ensures seekCalls == old(seekCalls) && chunks == old(chunks) + if nr > 0 then [nr] else []
      ensures offset == old(offset) + nr && fetched == old(fetched) + nr
      ensures again ==> nr == 0 && op.attempt == old(op.attempt) + 1 <= policy.maxAttempts && policy.timeLimit >= 0
      ensures !again ==> op.attempt == old(op.attempt)
      ensures !again ==> Outcome(buf, lo, hi, nr, st)
      ensures !again ==> IsSuccessOrBenign(st) || op.GivenUp()
      ensures if again then impl == null && !old(impl).open else impl == old(impl)
      ensures (event.Done? || event.NotRead?) && Met(event, again, true, old(offset))
      ensures st == event.Says(accessor.file)
    {
      nr, st := impl.Read(buf, lo, hi);
      if IsSuccessOrBenign(st) {
        if st.Ok? {
          offset, fetched, chunks := offset + nr, fetched + nr, chunks + [nr];
        }
        return false, nr, st, Done(st);
      }
      again := op.ShouldRetry();
      event := NotRead(st.error, again);
      if again {
        Close();
      }
    }

    /** Opens a new stream and moves it to Offset; a stream that cannot be moved there is closed again. */
    method Reopen() returns (opening: Status, seeking: Status, ghost refused: HdfsStream?)
      requires Valid() && impl == null
      modifies this`impl
      ensures Valid() && (impl != null ==> fresh(impl))
      ensures refused != null <==> seeking.Failed?
      ensures refused != null ==> fresh(refused) && !refused.open
      ensures impl != null <==> opening.Ok? && seeking.Ok?
      ensures seeking.Failed? ==> !accessor.file.seekable(offset)
      ensures opening.Failed? ==> opening.error in accessor.file.errors
      ensures seeking.Failed? ==> seeking == Failed(accessor.file.refusal)
      ensures accessor.file.Reliable() && offset <= |accessor.file.content| ==> opening.Ok? && seeking.Ok?
    {
      seeking, refused := Ok, null;
      impl, opening := accessor.OpenRead();
      if opening.Ok? {
        seeking := impl.Seek(offset);
        if seeking.Failed? {
          refused := impl;
          Close();
        }
      }
    }

    method Seek(pos: nat) returns (st: Status)
      requires Valid() && impl != null   // the source dereferences Impl
      modifies Repr()
      ensures Valid() && impl == old(impl)
      ensures st.Ok? <==> accessor.file.seekable(pos)
      ensures st.Ok? ==> offset == pos
      ensures st.Failed? ==> offset == old(offset)
      ensures st.Failed? ==> st == Failed(accessor.file.refusal)
      ensures seekCalls == old(seekCalls) + 1 && fetched == old(fetched)
    {
      seekCalls := seekCalls + 1;
      st := impl.Seek(pos);
      if st.Ok? {
        offset := pos;
      }
    }

    method Close()
      requires impl != null && impl.open   // the source dereferences Impl
      modifies this`impl, impl
      ensures impl == null && !old(impl).open
    {
      impl.Close();
      impl := null;
    }
  }

  /** One Read request of a run: the room the caller offers. */
  type Room = n: nat | n > 0 witness 1

  /** The stretch delivered since Seek(p). */
  ghost predicate Delivered(content: seq<Byte>, p: nat, at: nat, out: seq<Byte>) {
    at == p + |out| && (out == [] || (at <= |content| && out == content[p..at]))
  }

  /** One more Read of such a run. */
  method ReadMore(r: FaultTolerantHdfsReader, ghost p: nat, out: seq<Byte>, room: Room) returns (longer: seq<Byte>)
    requires r.Valid() && Delivered(r.accessor.file.content, p, r.offset, out)
    modifies r.Repr()
    ensures r.Valid() && fresh(r.Repr() - old(r.Repr()))
    ensures Delivered(r.accessor.file.content, p, r.offset, longer)
  {
    var buf := new Byte[room];
    ghost var op, history;
    var nr, st;
    nr, st, op, history := r.Read(buf, 0, room);
    longer := if st.Ok? then out + buf[..nr] else out;
  }

  /**
   Any run of Reads after a successful Seek(p), some failing, some succeeding: together the
   successful ones returned one contiguous stretch of the file starting at p.
   */
  method ReadRun(r: FaultTolerantHdfsReader, p: nat, rooms: seq<Room>) returns (st: Status, out: seq<Byte>)
    requires r.Valid() && r.impl != null
    modifies r.Repr()
    ensures r.Valid()
    ensures st.Ok? <==> r.accessor.file.seekable(p)
    ensures st.Ok? ==> r.offset == p + |out|
    ensures st.Ok? && out != [] ==>
              r.offset <= |r.accessor.file.content| && out == r.accessor.file.content[p..p + |out|]
  {
    out := [];
    st := r.Seek(p);
    if st.Failed? {
      return;
    }
    for k := 0 to |rooms|
      invariant r.Valid() && fresh(r.Repr() - old(r.Repr()))
      invariant Delivered(r.accessor.file.content, p, r.offset, out)
    {
      out := ReadMore(r, p, out, rooms[k]);
    }
  }
}
