/**
 FileHandleReader.go: reads of one file through two fragments that are swapped on a miss, so that
 requests which arrive slightly out of order still read the backend sequentially. The class is
 proved against the steps of ReadCache.
 */
module FileHandleReaders {
  import opened Basics
  import opened HdfsBackend
  import opened FaultTolerantReaders
  import opened FileFragments
  import opened ReadCache

  /** What is written behind a stretch of a buffer makes it longer. */
  lemma Appended(before: seq<Byte>, after: seq<Byte>, lo: nat, mid: nat, hi: nat)
    requires |before| == |after| && lo <= mid <= hi <= |after|
    requires forall i | lo <= i < mid :: after[i] == before[i]
    ensures after[lo..hi] == before[lo..mid] + after[mid..hi]
  {}

  /** The turn that a call has made, between the buffer's contents before and after it. */
  lemma OneMoreTurn(turns: LinkedTurns, kept: Kept, before: seq<Byte>, after: seq<Byte>, lo: nat, n: nat)
      returns (longer: LinkedTurns)
    requires |before| == |after| && lo + n + |kept.reply| <= |after|
    requires forall i | lo <= i < lo + n :: after[i] == before[i]
    requires turns.Got(before[lo..lo + n], Ok, kept.v) && kept.reply == after[lo + n..lo + n + |kept.reply|]
    requires turns.Start().file == kept.file && kept.f == turns.Start().off + n
    requires n + kept.size == turns.Start().size && kept.size > 0
    ensures longer.Got(after[lo..lo + n + |kept.reply|], kept.st, kept.w) && longer.Start() == turns.Start()
  {
    Appended(before, after, lo, lo + n, lo + n + |kept.reply|);
    longer := NextTurn(turns, kept);
  }

  class FileHandleReader {
    const hdfsReader: FaultTolerantHdfsReader
    var offset: nat
    var buffer1: FileFragment    // most recent fragment
    var buffer2: FileFragment    // least recent fragment
    var holes: nat
    var cacheHits: nat
    var seeks: nat
    var closed: bool             // HdfsReader has been set to nil
    ghost var Repr: set<object>

    ghost function File(): RemoteFile {
      hdfsReader.accessor.file
    }

    /** Open; the two fragments never share storage, and Seeks counts the Seeks asked of the backend. */
    ghost predicate Valid()
      reads this, Repr
    {
      && !closed
      && this in Repr && buffer1 in Repr && buffer2 in Repr && buffer1.data in Repr && buffer2.data in Repr
      && hdfsReader in Repr && hdfsReader.Repr() <= Repr
      && buffer1 != buffer2 && buffer1.data != buffer2.data
      && buffer1.Valid() && buffer2.Valid()
      && hdfsReader.Valid()
      && seeks == hdfsReader.seekCalls
    }

    ghost function View(): View
      requires Valid()
      reads this, Repr
    {
      ReadCache.View(offset, hdfsReader.offset, buffer1.Value(), buffer2.Value(),
                     seeks, holes, cacheHits, hdfsReader.fetched)
    }

    constructor (hdfsReader: FaultTolerantHdfsReader)
      requires hdfsReader.Valid() && hdfsReader.offset == 0 && hdfsReader.seekCalls == 0 && hdfsReader.fetched == 0
      ensures Valid() && View() == FRESH && fresh(Repr - hdfsReader.Repr()) && this.hdfsReader == hdfsReader
    {
      this.hdfsReader := hdfsReader;
      offset, holes, cacheHits, seeks, closed := 0, 0, 0, 0, false;
      buffer1 := new FileFragment();
      buffer2 := new FileFragment();
      new;
      Repr := {this, buffer1, buffer2, buffer1.data, buffer2.data} + hdfsReader.Repr();
    }

    /** A stream that was there is still there, unless the request failed and retrying may lose it. */
    twostate predicate StreamKept(new st: Status)
      reads hdfsReader
    {
      (old(hdfsReader.impl) != null && (st.Ok? || Sturdy(hdfsReader.policy, File()))) || st == Failed(Eof) ==>
        hdfsReader.impl != null
    }

    /** Lines 79-106: swap the fragments, then read over the hole or seek. Returns how much to read. */
    method Approach(f: nat, size: nat) returns (minBytesToRead: nat, maxBytesToRead: nat, st: Status)
      requires Valid() && size > 0 && !View().Cached(f)
      requires hdfsReader.impl != null || !View().NeedsSeek(f)
      modifies this, hdfsReader.Repr()
      ensures Valid() && Repr == old(Repr) && hdfsReader.impl == old(hdfsReader.impl)
      ensures View() == Approached(old(View()), File(), f)
      ensures st.Failed? <==> old(View()).Refused(File(), f)
      ensures st.Failed? ==> st == Failed(File().refusal)
      ensures st.Ok? ==> offset <= f && 1 <= minBytesToRead == f - offset + 1 <= maxBytesToRead
      ensures st.Ok? ==> maxBytesToRead == Ceiling(f - offset + size)
    {
      buffer2, buffer1 := buffer1, buffer2;
      st := Ok;
      minBytesToRead, maxBytesToRead := 1, size;
      if f != offset {
        if f > offset && f - offset <= BLOCKSIZE * 2 {
          var holeSize := f - offset;
          holes := holes + 1;
          maxBytesToRead := maxBytesToRead + holeSize;
          minBytesToRead := holeSize + 1;
        } else {
          st := SeekTo(f);
          if st.Failed? {
            return 0, 0, st;
          }
        }
      }
      // ceiling to the nearest BLOCKSIZE
      maxBytesToRead := (maxBytesToRead + BLOCKSIZE - 1) / BLOCKSIZE * BLOCKSIZE;
    }

    /** Lines 94-101: a forward Seek that fails is ignored. */
    method SeekTo(f: nat) returns (st: Status)
      requires Valid() && hdfsReader.impl != null
      modifies this`seeks, this`offset, hdfsReader.Repr()
      ensures Valid() && hdfsReader.impl == old(hdfsReader.impl)
      ensures st.Failed? <==> f < old(offset) && !File().seekable(f)
      ensures st.Failed? ==> st == Failed(File().refusal)
      ensures View() == old(View()).(
                offset := if st.Failed? then old(offset) else f,
                position := if File().seekable(f) then f else old(hdfsReader.offset),
                seeks := old(seeks) + 1)
    {
      seeks := seeks + 1;
      st := hdfsReader.Seek(f);
      if st.Failed? && offset > f {
        return;
      }
      st := Ok;
      offset := f;
    }

    /** Lines 79-115: swap the fragments and refill the older one. */
    method Refill(f: nat, size: nat) returns (st: Status)
      requires Valid() && size > 0 && !View().Cached(f)
      requires hdfsReader.impl != null || !View().NeedsSeek(f)
      modifies this, Repr
      ensures Valid() && fresh(Repr - old(Repr))
      ensures Missed(File(), old(View()), f, size, st, View())
      ensures StreamKept(st) && (st.Ok? ==> hdfsReader.impl != null)
      ensures old(View()).Refused(File(), f) ==> hdfsReader.impl == old(hdfsReader.impl)
    {
      var minBytesToRead, maxBytesToRead;
      minBytesToRead, maxBytesToRead, st := Approach(f, size);
      if st.Ok? {
        st := Reload(minBytesToRead, maxBytesToRead);
      }
    }

    /** Lines 108-115. */
    method Reload(minBytesToRead: nat, maxBytesToRead: nat) returns (st: Status)
      requires Valid() && 0 < minBytesToRead <= maxBytesToRead
      modifies this, Repr
      ensures Valid() && fresh(Repr - old(Repr))
      ensures View() == Refilled(old(View()), View().newer.data)
      ensures View().newer.data == Slice(File().content, old(View()).position, View().position)
      ensures st.Ok? <==> |View().newer.data| >= minBytesToRead
      ensures Asked(File(), old(View()).position, maxBytesToRead, |View().newer.data|, st)
      ensures st.Failed? ==> File().Reports(st.error)
      ensures st == Failed(Eof) ==> View().position >= |File().content|
      ensures File().Reliable() && old(View()).position <= |File().content| ==> st.Ok? || st == Failed(Eof)
      ensures StreamKept(st) && (st.Ok? ==> hdfsReader.impl != null)
    {
      ghost var sizes;
      offset, st, sizes := buffer1.ReadFromBackend(hdfsReader, offset, minBytesToRead, maxBytesToRead);
      Repr := Repr + {buffer1.data} + hdfsReader.Repr();
    }

    /** Lines 70-75: the fragments are asked in order. */
    method FromBuffers(f: nat, buf: array<Byte>, lo: nat, size: nat) returns (hit: bool, nr: nat)
      requires Valid() && size > 0 && lo + size <= buf.Length && buf !in Repr
      modifies this`cacheHits, buf
      ensures Valid() && nr <= size
      ensures hit == old(View()).Cached(f)
      ensures hit ==> Partial(File(), old(View()), f, size, buf[lo..lo + nr], Ok, View())
      ensures old(View()).newer.Covers(f) ==> buf[lo..lo + nr] == old(View()).newer.Serve(f, size)   // Buffer1 first
      ensures !hit ==> View() == old(View()) && nr == 0
      ensures forall i | 0 <= i < buf.Length && !(lo <= i < lo + nr) :: buf[i] == old(buf[i])
    {
      hit, nr := buffer1.ReadFromBuffer(f, buf, lo, lo + size);
      if !hit {
        hit, nr := buffer2.ReadFromBuffer(f, buf, lo, lo + size);
      }
      if hit {
        cacheHits := cacheHits + 1;
      }
    }

    /** Lines 117-121: the refilled fragment must hold the requested byte, or the code reports an internal error. */
    method FromRefill(f: nat, buf: array<Byte>, lo: nat, size: nat) returns (nr: nat, st: Status)
      requires Valid() && size > 0 && lo + size <= buf.Length && buf !in Repr
      modifies buf
      ensures Valid() && View() == old(View()) && nr <= size
      ensures st == if View().newer.Covers(f) then Ok else Failed(FragmentInvariant)
      ensures buf[lo..lo + nr] == View().newer.Serve(f, size)
      ensures forall i | 0 <= i < buf.Length && !(lo <= i < lo + nr) :: buf[i] == old(buf[i])
    {
      var hit;
      hit, nr := buffer1.ReadFromBuffer(f, buf, lo, lo + size);
      st := if hit then Ok else Failed(FragmentInvariant);
    }

    /** Lines 77-121: a miss. */
    method ReadMiss(f: nat, buf: array<Byte>, lo: nat, size: nat) returns (nr: nat, st: Status)
      requires Valid() && size > 0 && lo + size <= buf.Length && buf !in Repr
      requires !View().Cached(f) && (hdfsReader.impl != null || !View().NeedsSeek(f))
      modifies this, Repr, buf
      ensures Valid() && fresh(Repr - old(Repr)) && nr <= size
      ensures Partial(File(), old(View()), f, size, buf[lo..lo + nr], st, View())
      ensures forall i | 0 <= i < buf.Length && !(lo <= i < lo + nr) :: buf[i] == old(buf[i])
      ensures StreamKept(st) && (st.Ok? ==> hdfsReader.impl != null)
      ensures st.Failed? ==> CanServe(f, size)
    {
      nr := 0;
      ghost var v := View();
      st := Refill(f, size);
      if st.Ok? {
        nr, st := FromRefill(f, buf, lo, size);
      } else if !v.Refused(File(), f) {
        FailedMissServed(File(), v, f, size, st, View());
      }
    }

    /** Serves at least one byte of a request at f into buf[lo..hi], or fails: the exact step. */
    method ReadStep(f: nat, buf: array<Byte>, lo: nat, size: nat) returns (nr: nat, st: Status)
      requires Valid() && size > 0 && lo + size <= buf.Length && buf !in Repr
      requires hdfsReader.impl != null || !View().NeedsSeek(f)   // else the source dereferences a nil Impl
      modifies this, Repr, buf
      ensures Valid() && fresh(Repr - old(Repr)) && nr <= size
      ensures Partial(File(), old(View()), f, size, buf[lo..lo + nr], st, View())
      ensures forall i | 0 <= i < buf.Length && !(lo <= i < lo + nr) :: buf[i] == old(buf[i])
      ensures StreamKept(st) && (st.Ok? && !old(View()).Cached(f) ==> hdfsReader.impl != null)
      ensures st.Failed? ==> CanServe(f, size)
    {
      var hit;
      hit, nr := FromBuffers(f, buf, lo, size);
      if hit {
        return nr, Ok;
      }
      nr, st := ReadMiss(f, buf, lo, size);
    }

    /** There is a live stream, or no Seek comes up, which would dereference a nil Impl. */
    ghost predicate CanServe(f: nat, size: nat)
      requires Valid()
      reads this, Repr
    {
      hdfsReader.impl != null || View().ServedWithoutSeek(f, size)
    }

    /**
     What Read does with any other request: it serves what is cached, and then needs a Seek without a
     stream, where the source dereferences a nil Impl.
     */
    method ReadToNil(off: nat, buf: array<Byte>, lo: nat, size: nat) returns (read: nat)
      requires Valid() && !CanServe(off, size) && lo + size <= buf.Length && buf !in Repr
      modifies this`cacheHits, buf
      ensures Valid() && hdfsReader.impl == null && read < size && View().NeedsSeek(off + read)
    {
      read := 0;
      var hit := true;
      while hit
        invariant Valid() && hdfsReader.impl == null && read < size
        invariant if hit then !CanServe(off + read, size - read) else View().NeedsSeek(off + read)
        decreases size - read, hit
      {
        var nr;
        hit, nr := HitOrNil(off + read, buf, lo + read, size - read);
        read := read + nr;
      }
    }

    /** One turn of that: a hit, or a byte that needs a Seek. */
    method HitOrNil(f: nat, buf: array<Byte>, lo: nat, size: nat) returns (hit: bool, nr: nat)
      requires Valid() && size > 0 && !CanServe(f, size) && lo + size <= buf.Length && buf !in Repr
      modifies this`cacheHits, buf
      ensures Valid() && hdfsReader.impl == null && nr < size
      ensures if hit then nr > 0 && !CanServe(f + nr, size - nr) else nr == 0 && View().NeedsSeek(f)
    {
      ghost var v := View();
      hit, nr := FromBuffers(f, buf, lo, size);
      if hit {
        PartialDelivers(File(), v, f, size, buf[lo..lo + nr], Ok, View());
        HitNotServed(v, f, size, buf[lo..lo + nr], View());
      } else {
        ghost var m := SeekComesUp(v, f, size);
        assert m == f;
      }
    }

    /** ReadPartial, by what it promises: `kept` is the call as a value, whose type says so. */
    method ReadPartial(f: nat, buf: array<Byte>, lo: nat, size: nat) returns (nr: nat, st: Status, ghost kept: Kept)
      requires Valid() && size > 0 && lo + size <= buf.Length && buf !in Repr
      requires CanServe(f, size)
      modifies this, Repr, buf
      ensures Valid() && fresh(Repr - old(Repr)) && nr <= size && (st.Ok? <==> nr > 0)
      ensures kept == Exchange(File(), old(View()), f, size, buf[lo..lo + nr], st, View())
      ensures forall i | 0 <= i < buf.Length && !(lo <= i < lo + nr) :: buf[i] == old(buf[i])
      ensures CanServe(f + nr, size - nr) && StreamKept(st)
    {
      ghost var v := View();
      nr, st := ReadStep(f, buf, lo, size);
      kept := PartialKept(File(), v, f, size, buf[lo..lo + nr], st, View());
      PartialDelivers(File(), v, f, size, buf[lo..lo + nr], st, View());
      if v.Cached(f) && v.ServedWithoutSeek(f, size) {
        HitServed(v, f, size, buf[lo..lo + nr], View());
      }
    }

    /** One turn of Read's loop. */
    method Advance(ghost turns: LinkedTurns, off: nat, buf: array<Byte>, lo: nat, n: nat, size: nat)
        returns (nr: nat, st: Status, ghost longer: LinkedTurns)
      requires Valid() && n < size && CanServe(off + n, size - n)
      requires lo + size <= buf.Length && buf !in Repr
      requires turns.Got(buf[lo..lo + n], Ok, View())
      requires turns.Start().file == File() && turns.Start().off == off && turns.Start().size == size
      modifies this, Repr, buf
      ensures Valid() && fresh(Repr - old(Repr)) && n + nr <= size && (st.Ok? ==> nr > 0)
      ensures forall i | 0 <= i < buf.Length && !(lo <= i < lo + size) :: buf[i] == old(buf[i])
      ensures CanServe(off + n + nr, size - n - nr) && StreamKept(st)
      ensures longer.Got(buf[lo..lo + n + nr], st, View()) && longer.Start() == turns.Start()
    {
      ghost var before, kept: Kept := buf[..], *;
      nr, st, kept := ReadPartial(off + n, buf, lo + n, size - n);
      longer := OneMoreTurn(turns, kept, before, buf[..], lo, n);
    }

    /** Read's loop. */
    method ReadLoop(ghost request: LinkedTurns, off: nat, buf: array<Byte>, lo: nat, size: nat)
        returns (totalRead: nat, st: Status, ghost turns: LinkedTurns)
      requires Valid() && CanServe(off, size)
      requires lo + size <= buf.Length && buf !in Repr
      requires request == Begin(File(), off, size, View())
      modifies this, Repr, buf
      ensures Valid() && fresh(Repr - old(Repr)) && totalRead <= size
      ensures turns.Got(buf[lo..lo + totalRead], st, View()) && turns.Start() == request
      ensures st.Failed? || totalRead == size
      ensures forall i | 0 <= i < buf.Length && !(lo <= i < lo + size) :: buf[i] == old(buf[i])
      ensures CanServe(off + totalRead, size - totalRead) && StreamKept(st)
    {
      turns, totalRead, st := request, 0, Ok;
      while totalRead < size && st.Ok?
        invariant Valid() && fresh(Repr - old(Repr)) && buf !in Repr
        invariant totalRead <= size && CanServe(off + totalRead, size - totalRead) && StreamKept(st)
        invariant turns.Got(buf[lo..lo + totalRead], st, View()) && turns.Start() == request
        invariant forall i | 0 <= i < buf.Length && !(lo <= i < lo + size) :: buf[i] == old(buf[i])
        decreases size - totalRead, st.Ok?
      {
        var nr;
        nr, st, turns := Advance(turns, off, buf, lo, totalRead, size);
        totalRead := totalRead + nr;
      }
    }

    /**
     Responds to a FUSE read of `size` bytes at `off`, into buf[lo..lo+size]. A stream lost in an
     earlier failure is no obstacle unless a Seek comes up, and none comes up when a failed request
     is made again for what is missing. What is answered is right as long as the cache is.
     */
    method Read(off: nat, buf: array<Byte>, lo: nat, size: nat) returns (totalRead: nat, st: Status)
      requires Valid() && CanServe(off, size)
      requires lo + size <= buf.Length && buf !in Repr
      modifies this, Repr, buf
      ensures Valid() && fresh(Repr - old(Repr)) && totalRead <= size
      ensures Answer(File(), old(View()), off, size, buf[lo..lo + totalRead], st, View())
      ensures forall i | 0 <= i < buf.Length && !(lo <= i < lo + size) :: buf[i] == old(buf[i])
      ensures CanServe(off + totalRead, size - totalRead) && StreamKept(st)
    {
      ghost var request := Begin(File(), off, size, View());
      ghost var turns;
      totalRead, st, turns := ReadLoop(request, off, buf, lo, size);
      TurnsAnswer(turns, request);
      st := Reported(st);
    }

    /** Lines 125-132: releases the backend stream, once. */
    method Close()
      requires closed || (Valid() && hdfsReader.impl != null)   // else the source dereferences a nil Impl
      modifies this`closed, hdfsReader, hdfsReader.impl
      ensures closed
      ensures !old(closed) ==> hdfsReader.impl == null && !old(hdfsReader.impl).open
      ensures old(closed) ==> hdfsReader.impl == old(hdfsReader.impl)
    {
      if !closed {
        hdfsReader.Close();
        closed := true;
      }
    }
  }

  /** One more read of such a run. */
  method ReadOn(r: FileHandleReader, size: nat, ghost pass: StreamedPass, out: seq<Byte>)
      returns (st: Status, longer: seq<Byte>, ghost pass': StreamedPass)
    requires r.Valid() && r.File().SeeksInside() && r.hdfsReader.impl != null && pass == Pass(r.File(), out, r.View())
    modifies r, r.Repr
    ensures r.Valid() && fresh(r.Repr - old(r.Repr))
    ensures st.Ok? ==> pass' == Pass(r.File(), longer, r.View()) && |longer| == Min(|out| + size, |r.File().content|)
    ensures st.Ok? ==> r.hdfsReader.impl != null
    ensures st.Failed? ==> r.File().Reports(st.error) && longer == out && pass' == pass
    ensures r.File().Reliable() ==> st.Ok?
  {
    var buf := new Byte[size];
    longer, pass' := out, pass;
    var n;
    n, st := r.Read(|out|, buf, 0, size);
    if st.Ok? {
      longer := out + buf[0..n];
      pass' := StreamOn(pass, size, buf[0..n], r.View());
    }
  }

  /**
   Any run of reads of a fresh reader, each starting where the last one ended: one pass over the
   backend without Seeks or holes, every byte fetched once, and the answers are the file's bytes.
   */
  method ReadSequentially(r: FileHandleReader, sizes: seq<nat>) returns (out: seq<Byte>, st: Status)
    requires r.Valid() && r.View() == FRESH && r.File().SeeksInside() && r.hdfsReader.impl != null
    modifies r, r.Repr
    ensures r.Valid() && fresh(r.Repr - old(r.Repr))
    ensures st.Ok? ==> Pass(r.File(), out, r.View()).Streamed()
    ensures st.Ok? ==> out == r.File().content[..Min(Total(sizes, |sizes|), |r.File().content|)]
    ensures st.Failed? ==> r.File().Reports(st.error) && out <= r.File().content
    ensures r.File().Reliable() ==> st.Ok?
  {
    out, st := [], Ok;
    ghost var pass: StreamedPass := Pass(r.File(), [], FRESH);
    for k := 0 to |sizes|
      invariant r.Valid() && fresh(r.Repr - old(r.Repr)) && r.hdfsReader.impl != null && st.Ok?
      invariant pass == Pass(r.File(), out, r.View()) && |out| == Min(Total(sizes, k), |r.File().content|)
    {
      st, out, pass := ReadOn(r, sizes[k], pass, out);
      if st.Failed? {
        return;
      }
    }
  }
}
