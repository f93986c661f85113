/**
 The two-fragment read cache as a value: what FileHandleReader's fields say, which requests need
 a Seek, what one step of the read loop does to them, and what every step keeps.
 */
module ReadCache {
  import opened Basics
  import opened HdfsBackend

  const BLOCKSIZE: nat := 65536

  const EMPTY_FILE := RemoteFile([], p => true, {}, NotExist, true)

  /** A stretch of bytes labelled with a file offset. */
  datatype Fragment = Fragment(offset: nat, data: seq<Byte>)
  {
    function End(): nat {
      offset + |data|
    }

    predicate Covers(f: nat) {
      offset <= f < End()
    }

    /** The part of a request for `size` bytes at f that the fragment holds. */
    function Serve(f: nat, size: nat): (r: seq<Byte>)
      ensures |r| == if Covers(f) then Min(size, End() - f) else 0
    {
      if Covers(f) then data[f - offset..Min(f - offset + size, |data|)] else []
    }

    /** The label is right: these are the bytes the file has there. */
    predicate Truthful(content: seq<Byte>) {
      data == [] || (End() <= |content| && data == content[offset..End()])
    }
  }

  datatype View = View(
    offset: nat,       // where the backend is believed to stand
    position: nat,     // where it stands
    newer: Fragment,   // Buffer1
    older: Fragment,   // Buffer2
    seeks: nat,
    holes: nat,
    cacheHits: nat,
    fetched: nat       // bytes read from the backend so far
  )
  {
    predicate Truthful(content: seq<Byte>) {
      offset == position && newer.Truthful(content) && older.Truthful(content)
    }

    predicate Cached(f: nat) {
      newer.Covers(f) || older.Covers(f)
    }

    /** A miss that neither continues the stream nor is a hole small enough to read over. */
    predicate NeedsSeek(f: nat) {
      !Cached(f) && (f < offset || f > offset + 2 * BLOCKSIZE)
    }

    /** The forward Seek that a request at f may need is one the stream accepts. */
    predicate Safe(file: RemoteFile, f: nat) {
      NeedsSeek(f) && f > offset ==> file.seekable(f)
    }

    /** A backward Seek the stream does not accept: the one failed Seek the code reports. */
    predicate Refused(file: RemoteFile, f: nat) {
      NeedsSeek(f) && f < offset && !file.seekable(f)
    }

    /** The older fragment ends where the newer begins, and that one ends at Offset. */
    predicate Contiguous() {
      older.End() == newer.offset && newer.End() == offset
    }

    /** The window in which requests may come in any order without a Seek. */
    predicate InWindow(f: nat) {
      Contiguous() && older.offset <= f <= offset + 2 * BLOCKSIZE
    }

    /**
     No Seek comes up in a request for `size` bytes at f: its first byte that is not cached, if it
     has one, can be read where the backend stands.
     */
    ghost predicate ServedWithoutSeek(f: nat, size: nat) {
      forall m | f <= m < f + size && NeedsSeek(m) :: exists k :: f <= k < m && !Cached(k)
    }

    /** Offset has run ahead of the backend, and nothing from Offset on is cached. */
    predicate Astray() {
      && position < offset
      && (newer.data == [] || newer.End() <= offset)
      && (older.data == [] || older.End() <= offset)
    }
  }

  const FRESH := View(0, 0, Fragment(0, []), Fragment(0, []), 0, 0, 0, 0)

  /** Which fragment answers a hit: the newer one first. */
  function Hit(v: View, f: nat, size: nat): seq<Byte> {
    if v.newer.Covers(f) then v.newer.Serve(f, size) else v.older.Serve(f, size)
  }

  /**
   After a miss at f, before the refill: the fragments have changed places, and the code has
   sought or decided to read over a hole. Offset moves even if a forward Seek failed.
   */
  function Approached(v: View, file: RemoteFile, f: nat): View {
    v.(newer := v.older, older := v.newer,
       offset := if v.NeedsSeek(f) && !v.Refused(file, f) then f else v.offset,
       position := if v.NeedsSeek(f) && file.seekable(f) then f else v.position,
       seeks := v.seeks + if v.NeedsSeek(f) then 1 else 0,
       holes := v.holes + if !v.NeedsSeek(f) && f > v.offset then 1 else 0)
  }

  /** The refill: `data` comes from the backend's position but is labelled with Offset. */
  function Refilled(u: View, data: seq<Byte>): View {
    u.(newer := Fragment(u.offset, data), offset := u.offset + |data|, position := u.position + |data|,
       fetched := u.fetched + |data|)
  }

  /** The nearest multiple of BLOCKSIZE that is not below n. */
  function Ceiling(n: nat): (m: nat)
    ensures m % 65536 == 0 && n <= m < n + 65536
  {
    (n + BLOCKSIZE - 1) / BLOCKSIZE * BLOCKSIZE
  }

  /**
   What a miss at f does: the refill is what was asked for and a hole before it, rounded up to whole
   blocks, or less.
   */
  ghost predicate Missed(file: RemoteFile, v: View, f: nat, size: nat, st: Status, w: View) {
    var u := Approached(v, file, f);
    if v.Refused(file, f) then
      st == Failed(file.refusal) && w == u
    else
      && w.newer.data == Slice(file.content, u.position, u.position + |w.newer.data|)
      && w == Refilled(u, w.newer.data) && u.offset <= f
      && Asked(file, u.position, Ceiling(f - u.offset + size), |w.newer.data|, st)
      && (st.Ok? <==> w.newer.Covers(f))
      && (st.Failed? ==> w.offset <= f && file.Reports(st.error))
      && (st == Failed(Eof) ==> w.position >= |file.content|)
      && (file.Reliable() && u.position <= |file.content| ==> st.Ok? || st == Failed(Eof))
  }

  /** No more than `most` bytes were fetched, and exactly that, or up to the end, from a prompt file. */
  predicate Asked(file: RemoteFile, from: nat, most: nat, got: nat, st: Status) {
    got <= most && (file.prompt && st.Ok? ==> got == Min(most, |file.content| - from))
  }

  /** One ReadPartial call: the request at f, the reply and the state after it. */
  ghost predicate Partial(file: RemoteFile, v: View, f: nat, size: nat, reply: seq<Byte>, st: Status, w: View) {
    if v.Cached(f) then
      st.Ok? && reply == Hit(v, f, size) && w == v.(cacheHits := v.cacheHits + 1)
    else
      Missed(file, v, f, size, st, w) && reply == if st.Ok? then w.newer.Serve(f, size) else []
  }

  // ---------------------------------------------------------------- one step

  lemma HitIsContent(v: View, content: seq<Byte>, f: nat, size: nat)
    requires v.Truthful(content) && v.Cached(f)
    ensures f + |Hit(v, f, size)| <= |content| && Hit(v, f, size) == content[f..f + |Hit(v, f, size)|]
  {
    ServeIsContent(if v.newer.Covers(f) then v.newer else v.older, content, f, size);
  }

  lemma ServeIsContent(g: Fragment, content: seq<Byte>, f: nat, size: nat)
    requires g.Truthful(content) && g.Covers(f)
    ensures f + |g.Serve(f, size)| <= |content| && g.Serve(f, size) == content[f..f + |g.Serve(f, size)|]
  {
    var lo := f - g.offset;
    SliceOfSlice(content, g.offset, g.End(), lo, Min(lo + size, |g.data|));
  }

  lemma SliceOfSlice(s: seq<Byte>, a: nat, b: nat, lo: nat, hi: nat)
    requires lo <= hi && a + hi <= b <= |s|
    ensures s[a..b][lo..hi] == s[a + lo..a + hi]
  {
    assert |s[a..b][lo..hi]| == |s[a + lo..a + hi]|;
    forall i | 0 <= i < hi - lo
      ensures s[a..b][lo..hi][i] == s[a + lo..a + hi][i]
    {}
  }

  /** At least one byte or an error, and never more than was asked for. */
  ghost predicate Delivers(file: RemoteFile, size: nat, reply: seq<Byte>, st: Status) {
    |reply| <= size && (st.Ok? <==> reply != []) && (st.Failed? ==> file.Reports(st.error))
  }

  /**
   A forward Seek that fails is ignored by the code, so a truthful cache stays truthful exactly
   when the request was safe. Then the reply is what the file has at f, and end-of-file is
   reported only at or past the end. An unsafe request is answered from the old backend position.
   */
  ghost predicate TruthIffSafe(file: RemoteFile, v: View, f: nat, reply: seq<Byte>, st: Status, w: View) {
    v.Truthful(file.content) ==>
      && (w.Truthful(file.content) <==> v.Safe(file, f))
      && (v.Safe(file, f) ==>
            reply == Slice(file.content, f, f + |reply|) && (st == Failed(Eof) ==> f >= |file.content|))
      && (!v.Safe(file, f) && reply != [] ==> v.offset < |file.content| && reply[0] == file.content[v.offset])
  }

  predicate LeadsAstray(file: RemoteFile, v: View, f: nat) {
    (v.Astray() && f == v.offset) || (v.Truthful(file.content) && !v.Safe(file, f) && f > |file.content|)
  }

  /** A request past the end whose Seek is refused leads astray, and reading on never leads back. */
  ghost predicate AstrayStays(file: RemoteFile, v: View, f: nat, size: nat, reply: seq<Byte>, w: View) {
    LeadsAstray(file, v, f) ==> w.Astray() && (0 < |reply| < size ==> f + |reply| == w.offset)
  }

  /** Inside the window there is no Seek, and the window moves along with the request. */
  ghost predicate WindowMoves(v: View, f: nat, reply: seq<Byte>, w: View) {
    v.InWindow(f) ==>
      && w.InWindow(f + |reply|) && w.seeks == v.seeks && w.fetched - v.fetched == w.offset - v.offset
      && (f <= v.offset ==> w.holes == v.holes && f + |reply| <= w.offset)
  }

  /** The backend stays inside the file, and if the file is reliable only its end stops a request. */
  ghost predicate Steady(file: RemoteFile, v: View, f: nat, st: Status, w: View) {
    v.position <= |file.content| && f <= |file.content| ==>
      w.position <= |file.content| && (file.Reliable() ==> st.Ok? || st == Failed(Eof))
  }

  /** What one ReadPartial call promises. */
  ghost predicate Outcome(file: RemoteFile, v: View, f: nat, size: nat, reply: seq<Byte>, st: Status, w: View) {
    && Delivers(file, size, reply, st)
    && TruthIffSafe(file, v, f, reply, st, w)
    && AstrayStays(file, v, f, size, reply, w)
    && WindowMoves(v, f, reply, w)
    && Steady(file, v, f, st, w)
  }

  /** What a call costs. */
  lemma PartialCosts(file: RemoteFile, v: View, f: nat, size: nat, reply: seq<Byte>, st: Status, w: View)
    requires Partial(file, v, f, size, reply, st, w) && size > 0
    ensures v.Cached(f) ==> w == v.(cacheHits := v.cacheHits + 1)
    // more than 128K ahead, or behind, means a Seek; in between there is a hole to read over
    ensures !v.Cached(f) ==>
              && w.cacheHits == v.cacheHits
              && w.seeks == v.seeks + (if f < v.offset || f > v.offset + 131072 then 1 else 0)
              && w.holes == v.holes + (if v.offset < f <= v.offset + 131072 then 1 else 0)
    // at most the request and the hole are fetched, and not a whole block more
    ensures !v.Cached(f) ==>
              w.fetched - v.fetched < 65536 + size + if v.offset < f <= v.offset + 131072 then f - v.offset else 0
    ensures w.fetched >= v.fetched
  {}

  /** From a prompt file a miss fetches whole blocks, or all there is. */
  lemma PromptMissFetchesBlocks(file: RemoteFile, v: View, f: nat, size: nat, reply: seq<Byte>, st: Status, w: View)
    requires Partial(file, v, f, size, reply, st, w) && size > 0 && !v.Cached(f) && st.Ok? && file.prompt
    ensures w.position == |file.content| || ((w.fetched - v.fetched) % 65536 == 0 && w.fetched - v.fetched >= size)
  {}

  lemma PartialDelivers(file: RemoteFile, v: View, f: nat, size: nat, reply: seq<Byte>, st: Status, w: View)
    requires Partial(file, v, f, size, reply, st, w) && size > 0
    ensures Delivers(file, size, reply, st)
  {}

  lemma PartialTruth(file: RemoteFile, v: View, f: nat, size: nat, reply: seq<Byte>, st: Status, w: View)
    requires Partial(file, v, f, size, reply, st, w) && size > 0
    ensures TruthIffSafe(file, v, f, reply, st, w)
  {
    if v.Truthful(file.content) {
      if v.Cached(f) {
        HitIsContent(v, file.content, f, size);
      } else if v.Safe(file, f) {
        SafeMissTruth(file, v, f, size, reply, st, w);
      }
    }
  }

  /** A safe miss: the refilled fragment is labelled with where it was read. */
  lemma SafeMissTruth(file: RemoteFile, v: View, f: nat, size: nat, reply: seq<Byte>, st: Status, w: View)
    requires Partial(file, v, f, size, reply, st, w) && v.Truthful(file.content) && !v.Cached(f) && v.Safe(file, f)
    ensures w.Truthful(file.content) && reply == Slice(file.content, f, f + |reply|)
    ensures st == Failed(Eof) ==> f >= |file.content|
  {
    SafeApproach(file, v, f);
    if !v.Refused(file, f) {
      RefillTruth(Approached(v, file, f), file.content, w.newer.data);
    }
    if w.newer.Covers(f) {
      ServeIsContent(w.newer, file.content, f, size);
    }
  }

  lemma SafeApproach(file: RemoteFile, v: View, f: nat)
    requires v.Truthful(file.content) && !v.Cached(f) && v.Safe(file, f)
    ensures Approached(v, file, f).Truthful(file.content)
  {}

  lemma RefillTruth(u: View, content: seq<Byte>, data: seq<Byte>)
    requires u.Truthful(content) && data == Slice(content, u.position, u.position + |data|)
    ensures Refilled(u, data).Truthful(content)
  {}

  lemma PartialAstray(file: RemoteFile, v: View, f: nat, size: nat, reply: seq<Byte>, st: Status, w: View)
    requires Partial(file, v, f, size, reply, st, w) && size > 0
    ensures AstrayStays(file, v, f, size, reply, w)
  {}

  lemma PartialWindow(file: RemoteFile, v: View, f: nat, size: nat, reply: seq<Byte>, st: Status, w: View)
    requires Partial(file, v, f, size, reply, st, w) && size > 0
    ensures WindowMoves(v, f, reply, w)
  {}

  /** In the window no Seek comes up. */
  lemma WindowServed(v: View, f: nat, size: nat)
    requires v.InWindow(f)
    ensures v.ServedWithoutSeek(f, size)
  {
    forall m | f <= m < f + size && v.NeedsSeek(m)
      ensures exists k :: f <= k < m && !v.Cached(k)
    {
      assert !v.Cached(Max(f, v.offset));
    }
  }

  /** After a hit none comes up either. */
  lemma HitServed(v: View, f: nat, size: nat, reply: seq<Byte>, w: View)
    requires v.Cached(f) && v.ServedWithoutSeek(f, size) && |reply| <= size
    requires reply == Hit(v, f, size) && w == v.(cacheHits := v.cacheHits + 1)
    ensures w.ServedWithoutSeek(f + |reply|, size - |reply|)
  {
    forall m | f + |reply| <= m < f + size && w.NeedsSeek(m)
      ensures exists k :: f + |reply| <= k < m && !w.Cached(k)
    {
      assert v.NeedsSeek(m);
      var k :| f <= k < m && !v.Cached(k);
      assert k >= f + |reply| && !w.Cached(k);
    }
  }

  /** A request that is not served without a Seek: what is cached ends at a byte that needs one. */
  lemma {:induction false} SeekComesUp(v: View, f: nat, size: nat) returns (m: nat)
    requires !v.ServedWithoutSeek(f, size)
    ensures f <= m < f + size && v.NeedsSeek(m) && forall k | f <= k < m :: v.Cached(k)
  {
    m :| f <= m < f + size && v.NeedsSeek(m) && !exists k :: f <= k < m && !v.Cached(k);
    forall k | f <= k < m
      ensures v.Cached(k)
    {}
  }

  /** A hit does not reach past that byte. */
  lemma HitNotServed(v: View, f: nat, size: nat, reply: seq<Byte>, w: View)
    requires v.Cached(f) && !v.ServedWithoutSeek(f, size) && size > 0
    requires reply == Hit(v, f, size) && w == v.(cacheHits := v.cacheHits + 1)
    ensures |reply| < size && !w.ServedWithoutSeek(f + |reply|, size - |reply|)
  {
    var m := SeekComesUp(v, f, size);
    assert forall k | f <= k < f + |reply| :: v.Cached(k);
    assert f + |reply| <= m && w.NeedsSeek(m);
    forall k | f + |reply| <= k < m
      ensures w.Cached(k)
    {
      assert v.Cached(k);
    }
  }

  /** After a miss that failed, unless a Seek was refused, the same request needs no Seek any more. */
  lemma FailedMissServed(file: RemoteFile, v: View, f: nat, size: nat, st: Status, w: View)
    requires Missed(file, v, f, size, st, w) && !v.Cached(f) && st.Failed? && !v.Refused(file, f)
    ensures w.ServedWithoutSeek(f, size)
  {
    assert !w.Cached(f) && !w.NeedsSeek(f);
  }

  lemma PartialSteady(file: RemoteFile, v: View, f: nat, size: nat, reply: seq<Byte>, st: Status, w: View)
    requires Partial(file, v, f, size, reply, st, w) && size > 0
    ensures Steady(file, v, f, st, w)
  {}

  lemma PartialOutcome(file: RemoteFile, v: View, f: nat, size: nat, reply: seq<Byte>, st: Status, w: View)
    requires Partial(file, v, f, size, reply, st, w) && size > 0
    ensures Outcome(file, v, f, size, reply, st, w)
  {
    PartialDelivers(file, v, f, size, reply, st, w);
    PartialTruth(file, v, f, size, reply, st, w);
    PartialAstray(file, v, f, size, reply, st, w);
    PartialWindow(file, v, f, size, reply, st, w);
    PartialSteady(file, v, f, size, reply, st, w);
  }

  /** A ReadPartial call that kept its promises. */
  datatype Exchange = Exchange(file: RemoteFile, v: View, f: nat, size: nat, reply: seq<Byte>, st: Status, w: View)

  type Kept = e: Exchange | Outcome(e.file, e.v, e.f, e.size, e.reply, e.st, e.w)
    ghost witness Exchange(EMPTY_FILE, FRESH, 0, 0, [], Failed(Eof), FRESH)

  lemma PartialKept(file: RemoteFile, v: View, f: nat, size: nat, reply: seq<Byte>, st: Status, w: View)
      returns (e: Kept)
    requires Partial(file, v, f, size, reply, st, w) && size > 0
    ensures e == Exchange(file, v, f, size, reply, st, w)
  {
    PartialOutcome(file, v, f, size, reply, st, w);
    e := Exchange(file, v, f, size, reply, st, w);
  }

  // ---------------------------------------------------------------- one request

  /** End-of-file is not an error for FUSE. */
  function Reported(st: Status): Status {
    if st == Failed(Eof) then Ok else st
  }

  /** The length of an answer and its status: end-of-file is not an error, and an error cuts the answer short. */
  ghost predicate AnswerShape(file: RemoteFile, size: nat, reply: seq<Byte>, st: Status) {
    |reply| <= size && (st.Failed? ==> file.Reports(st.error) && st.error != Eof && |reply| < size)
  }

  /**
   The contents, from a truthful cache: exactly what the file has there, or a correct prefix of it
   and an error. That holds, and the cache stays truthful, exactly for the safe requests: after any
   other the reader is astray, and what it returned for a request past the end of the file are
   bytes from where the backend stood.
   */
  ghost predicate AnswerContents(file: RemoteFile, v: View, off: nat, size: nat, reply: seq<Byte>, st: Status,
      w: View) {
    && (w.Truthful(file.content) <==> size == 0 || v.Safe(file, off))
    && (v.Safe(file, off) ==> reply == Slice(file.content, off, off + |reply|))
    && (v.Safe(file, off) && st.Ok? ==> |reply| == Min(size, Max(0, |file.content| - off)))
    && (!v.Safe(file, off) && reply != [] ==> off > |file.content| > v.offset && reply[0] == file.content[v.offset])
  }

  /** The cache holds what the file has, and the stream seeks within it. */
  ghost predicate Trusted(file: RemoteFile, v: View) {
    v.Truthful(file.content) && file.SeeksInside()
  }

  /** What Read promises for a request of `size` bytes at `off`. */
  ghost predicate Answer(file: RemoteFile, v: View, off: nat, size: nat, reply: seq<Byte>, st: Status, w: View) {
    && AnswerShape(file, size, reply, st)
    && (Trusted(file, v) ==> AnswerContents(file, v, off, size, reply, st, w) && Steady(file, v, off, st, w))
    && WindowMoves(v, off, reply, w)
  }

  /** The part of the answer given so far is right, and the cache is fit to go on. */
  ghost predicate RightSoFar(file: RemoteFile, off: nat, reply: seq<Byte>, u: View) {
    && u.Truthful(file.content)
    && reply == Slice(file.content, off, off + |reply|)
    && (reply != [] ==> off + |reply| <= |file.content|)
  }

  /** The answer began at the wrong place, and the cache is astray. */
  ghost predicate WrongSoFar(file: RemoteFile, v: View, off: nat, size: nat, reply: seq<Byte>, u: View) {
    && off > |file.content|
    && (reply == [] ==> u == v)
    && (reply != [] ==> u.Astray() && |file.content| > v.offset && reply[0] == file.content[v.offset])
    && (reply != [] && |reply| < size ==> off + |reply| == u.offset)
  }

  ghost predicate ContentsSoFar(file: RemoteFile, v: View, off: nat, size: nat, reply: seq<Byte>, u: View) {
    if v.Safe(file, off) then RightSoFar(file, off, reply, u) && (reply == [] ==> u == v)
    else WrongSoFar(file, v, off, size, reply, u)
  }

  /** What Read's loop keeps: `reply` has been delivered, the cache went from v to u. */
  ghost predicate Midway(file: RemoteFile, v: View, off: nat, size: nat, reply: seq<Byte>, u: View) {
    && |reply| <= size
    && (Trusted(file, v) ==> ContentsSoFar(file, v, off, size, reply, u) && Steady(file, v, off, Ok, u))
    && WindowMoves(v, off, reply, u)
  }

  lemma MidwayBegins(file: RemoteFile, v: View, off: nat, size: nat)
    ensures Midway(file, v, off, size, [], v)
  {}

  /** One turn of Read's loop. */
  lemma TurnOfLoop(file: RemoteFile, v: View, off: nat, size: nat, reply: seq<Byte>, u: View,
      more: seq<Byte>, st: Status, w: View)
    requires Midway(file, v, off, size, reply, u) && |reply| < size
    requires Outcome(file, u, off + |reply|, size - |reply|, more, st, w)
    ensures st.Ok? ==> Midway(file, v, off, size, reply + more, w)
    ensures st.Failed? ==> Answer(file, v, off, size, reply + more, Reported(st), w)
  {
    if Trusted(file, v) {
      if v.Safe(file, off) {
        TurnRight(file, v, off, size, reply, u, more, st, w);
      } else {
        TurnWrong(file, v, off, size, reply, u, more, st, w);
      }
    }
  }

  /** Such a turn after a safe request. */
  lemma TurnRight(file: RemoteFile, v: View, off: nat, size: nat, reply: seq<Byte>, u: View,
      more: seq<Byte>, st: Status, w: View)
    requires Midway(file, v, off, size, reply, u) && |reply| < size
    requires Outcome(file, u, off + |reply|, size - |reply|, more, st, w)
    requires Trusted(file, v) && v.Safe(file, off)
    ensures st.Ok? ==> ContentsSoFar(file, v, off, size, reply + more, w) && Steady(file, v, off, Ok, w)
    ensures st.Failed? ==> AnswerContents(file, v, off, size, reply + more, Reported(st), w)
    ensures st.Failed? ==> Steady(file, v, off, Reported(st), w)
  {}

  /** And after one that was not safe. */
  lemma TurnWrong(file: RemoteFile, v: View, off: nat, size: nat, reply: seq<Byte>, u: View,
      more: seq<Byte>, st: Status, w: View)
    requires Midway(file, v, off, size, reply, u) && |reply| < size
    requires Outcome(file, u, off + |reply|, size - |reply|, more, st, w)
    requires Trusted(file, v) && !v.Safe(file, off)
    ensures st.Ok? ==> ContentsSoFar(file, v, off, size, reply + more, w) && Steady(file, v, off, Ok, w)
    ensures st.Failed? ==> AnswerContents(file, v, off, size, reply + more, Reported(st), w)
    ensures st.Failed? ==> Steady(file, v, off, Reported(st), w)
  {}

  lemma MidwayEnds(file: RemoteFile, v: View, off: nat, size: nat, reply: seq<Byte>, u: View)
    requires Midway(file, v, off, size, reply, u) && |reply| == size
    ensures Answer(file, v, off, size, reply, Ok, u)
  {}

  /** One request and the ReadPartial calls it has made so far, starting from the cache v. */
  datatype Turns =
    | Begin(file: RemoteFile, off: nat, size: nat, v: View)
    | Turn(earlier: Turns, more: seq<Byte>, st: Status, w: View)
  {
    function Start(): Turns
      ensures Start().Begin?
    {
      if Begin? then this else earlier.Start()
    }

    function Last(): View {
      if Begin? then v else w
    }

    function Reply(): seq<Byte> {
      if Begin? then [] else earlier.Reply() + more
    }

    function End(): Status {
      if Begin? then Ok else st
    }

    /** Each call asks for what is still missing, and does what ReadPartial promises. */
    ghost predicate Linked() {
      Turn? ==> earlier.Linked() && earlier.End().Ok? && Follows(earlier, more, st, w)
    }

    predicate Got(reply: seq<Byte>, st: Status, w: View) {
      Reply() == reply && End() == st && Last() == w
    }
  }

  ghost predicate Follows(t: Turns, more: seq<Byte>, st: Status, w: View) {
    var request, n := t.Start(), |t.Reply()|;
    n < request.size && Outcome(request.file, t.Last(), request.off + n, request.size - n, more, st, w)
  }

  type LinkedTurns = t: Turns | t.Linked() ghost witness Begin(EMPTY_FILE, 0, 0, FRESH)

  lemma NextTurn(turns: LinkedTurns, e: Kept) returns (longer: LinkedTurns)
    requires turns.End().Ok? && turns.Last() == e.v && turns.Start().file == e.file
    requires e.f == turns.Start().off + |turns.Reply()| && |turns.Reply()| + e.size == turns.Start().size && e.size > 0
    ensures longer.Got(turns.Reply() + e.reply, e.st, e.w) && longer.Start() == turns.Start()
  {
    longer := Turn(turns, e.reply, e.st, e.w);
  }

  /** What a request has told its caller so far: part of an answer, or all of it. */
  ghost predicate Told(turns: Turns) {
    var request := turns.Start();
    if turns.End().Ok? then
      Midway(request.file, request.v, request.off, request.size, turns.Reply(), turns.Last())
    else
      Answer(request.file, request.v, request.off, request.size, turns.Reply(), Reported(turns.End()), turns.Last())
  }

  lemma ToldNext(turns: LinkedTurns)
    requires turns.Turn? && turns.earlier.End().Ok? && Told(turns.earlier)
    ensures Told(turns)
  {
    var request, earlier := turns.Start(), turns.earlier;
    TurnOfLoop(request.file, request.v, request.off, request.size, earlier.Reply(), earlier.Last(),
               turns.more, turns.st, turns.w);
  }

  lemma {:induction false} TurnsTold(turns: LinkedTurns)
    ensures Told(turns)
  {
    if turns.Turn? {
      TurnsTold(turns.earlier);
      ToldNext(turns);
    } else {
      MidwayBegins(turns.file, turns.v, turns.off, turns.size);
    }
  }

  /** A request that has got all it asked for, or has met an error, has its answer. */
  lemma TurnsAnswer(turns: LinkedTurns, request: Turns)
    requires request == turns.Start()
    requires turns.End().Failed? || |turns.Reply()| == request.size
    ensures Answer(request.file, request.v, request.off, request.size,
                   turns.Reply(), Reported(turns.End()), turns.Last())
  {
    TurnsTold(turns);
    if turns.End().Ok? {
      MidwayEnds(request.file, request.v, request.off, request.size, turns.Reply(), turns.Last());
    }
  }

  /** Inside the file an answer is all that was asked for, or a correct part and an error. */
  lemma AnswerInside(file: RemoteFile, v: View, off: nat, size: nat, reply: seq<Byte>, st: Status, w: View)
    requires Trusted(file, v) && off + size <= |file.content| && Answer(file, v, off, size, reply, st, w)
    ensures |reply| <= size && reply == file.content[off..off + |reply|]
    ensures st.Ok? ==> |reply| == size
    ensures st.Failed? ==> file.Reports(st.error)
    ensures v.position <= |file.content| ==> w.position <= |file.content| && (file.Reliable() ==> st.Ok?)
  {}

  /**
   A request that reaches beyond the end of a reliable file gets the rest of the file and no error: at
   the end nothing, and the next answer will be the same.
   */
  lemma AnswerToTheEnd(file: RemoteFile, v: View, off: nat, size: nat, reply: seq<Byte>, st: Status, w: View)
    requires Trusted(file, v) && file.Reliable() && v.position <= |file.content|
    requires off <= |file.content| < off + size && Answer(file, v, off, size, reply, st, w)
    ensures st.Ok? && reply == file.content[off..] && Trusted(file, w) && w.position <= |file.content|
  {}

  // ---------------------------------------------------------------- runs of requests

  /** How many bytes the first n requests of a run ask for. */
  function Total(sizes: seq<nat>, n: nat): nat
    requires n <= |sizes|
  {
    if n == 0 then 0 else Total(sizes, n - 1) + sizes[n - 1]
  }

  /** A run of reads: what they returned together, and the cache they left. */
  datatype Pass = Pass(file: RemoteFile, out: seq<Byte>, v: View)
  {
    /** Only read sequentially from 0: no Seek, no hole, no byte fetched twice, and the right bytes. */
    ghost predicate Streamed() {
      && v.Truthful(file.content) && v.InWindow(|out|) && |out| <= v.offset
      && v.seeks == 0 && v.holes == 0 && v.fetched == v.offset
      && out <= file.content
    }
  }

  type StreamedPass = p: Pass | p.Streamed() ghost witness Pass(EMPTY_FILE, [], FRESH)

  lemma StreamOn(p: StreamedPass, size: nat, reply: seq<Byte>, w: View) returns (q: StreamedPass)
    requires p.file.SeeksInside() && Answer(p.file, p.v, |p.out|, size, reply, Ok, w)
    ensures q == Pass(p.file, p.out + reply, w) && |q.out| == Min(|p.out| + size, |p.file.content|)
  {
    assert p.v.Safe(p.file, |p.out|);
    assert reply == p.file.content[|p.out|..|p.out| + |reply|];
    q := Pass(p.file, p.out + reply, w);
  }

  /**
   A forward Seek that fails is ignored: a request past the end of a two-byte file, after its
   first byte has been read by a fresh reader, is answered with the second byte as if it stood there.
   */
  lemma SwallowedSeekGivesWrongBytes(far: nat)
    requires far > 2 * BLOCKSIZE + 1
    ensures var file := RemoteFile([7, 8], p => p <= 2, {}, NotExist, false);
      var v := View(1, 1, Fragment(0, [7]), Fragment(0, []), 0, 0, 0, 1);
      var w := View(far + 1, 2, Fragment(far, [8]), Fragment(0, [7]), 1, 0, 0, 2);
      && file.SeeksInside() && Partial(file, FRESH, 0, 1, [7], Ok, v) && v.Truthful(file.content) && !v.Safe(file, far)
      && Partial(file, v, far, 1, [8], Ok, w) && !w.Truthful(file.content)
  {}
}
