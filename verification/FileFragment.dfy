/** FileFragment.go: one buffered stretch of a file. */
module FileFragments {
  import opened Basics
  import opened HdfsBackend
  import opened FaultTolerantReaders
  import opened ReadCache

  function Sum(sizes: seq<nat>): nat {
    if sizes == [] then 0 else Sum(sizes[..|sizes| - 1]) + sizes[|sizes| - 1]
  }

  /** These reads gave so many bytes, and before the last of them fewer than `enough`. */
  ghost predicate JustEnough(sizes: seq<nat>, total: nat, enough: nat) {
    Sum(sizes) == total && (sizes != [] ==> Sum(sizes[..|sizes| - 1]) < enough)
  }

  /** The reads that came after `before`. */
  ghost predicate Since(before: seq<nat>, sizes: seq<nat>, chunks: seq<nat>) {
    chunks == before + sizes
  }

  lemma ReadOneMore(before: seq<nat>, sizes: seq<nat>, chunks: seq<nat>, n: nat, total: nat, enough: nat)
    requires Since(before, sizes, chunks) && JustEnough(sizes, total, enough) && total < enough
    ensures Since(before, sizes + [n], chunks + [n]) && JustEnough(sizes + [n], total + n, enough)
  {
    SumMore(sizes, n);
  }

  lemma SumMore(sizes: seq<nat>, n: nat)
    ensures (sizes + [n])[..|sizes|] == sizes && Sum(sizes + [n]) == Sum(sizes) + n
  {
    assert (sizes + [n])[..|sizes|] == sizes;
  }

  class FileFragment {
    var offset: nat          // where the fragment begins in the file
    var data: array<Byte>    // the backing array; its length is the slice's capacity
    var len: nat             // the length of the slice

    ghost predicate Valid()
      reads this
    {
      len <= data.Length
    }

    ghost function Value(): Fragment
      requires Valid()
      reads this, data
    {
      Fragment(offset, data[..len])
    }

    /** Reading from `start`, nothing but the end of a reliable file can stop the reader. */
    static ghost predicate Steady(reader: FaultTolerantHdfsReader, start: nat, st: Status) {
      reader.accessor.file.Reliable() && start <= |reader.accessor.file.content| ==> st.Ok? || st == Failed(Eof)
    }

    constructor ()
      ensures Valid() && Value() == Fragment(0, []) && fresh(data)
    {
      offset, len := 0, 0;
      data := new Byte[0];
    }

    /**
     Refills the fragment with what follows at the backend's position: at least minBytesToRead
     bytes, or fewer and an error. `from` labels the fragment, and newOffset is what the caller's
     offset becomes; both are right only if `from` is where the backend stands.
     */
    method ReadFromBackend(reader: FaultTolerantHdfsReader, from: nat, minBytesToRead: nat, maxBytesToRead: nat)
        returns (newOffset: nat, st: Status, ghost sizes: seq<nat>)
      requires Valid() && reader.Valid() && minBytesToRead <= maxBytesToRead
      modifies this, data, reader.Repr()
      ensures Valid() && (data == old(data) || fresh(data))
      ensures reader.Valid() && fresh(reader.Repr() - old(reader.Repr()))
      ensures newOffset == from + len && len <= maxBytesToRead
      ensures Since(old(reader.chunks), sizes, reader.chunks) && JustEnough(sizes, len, minBytesToRead)
      ensures reader.offset == old(reader.offset) + len && reader.fetched == old(reader.fetched) + len
      ensures reader.seekCalls == old(reader.seekCalls)
      ensures Value() == Fragment(from, Slice(reader.accessor.file.content, old(reader.offset), reader.offset))
      ensures st.Ok? <==> len >= minBytesToRead
      ensures minBytesToRead > 0 ==> Asked(reader.accessor.file, old(reader.offset), maxBytesToRead, len, st)
      ensures st.Failed? ==> reader.accessor.file.Reports(st.error)
      ensures st == Failed(Eof) ==> reader.offset >= |reader.accessor.file.content|
      ensures (st.Ok? && minBytesToRead > 0) || st == Failed(Eof) ==> reader.impl != null
      ensures old(reader.impl) != null && Sturdy(reader.policy, reader.accessor.file) ==> reader.impl != null
      ensures Steady(reader, old(reader.offset), st)
    {
      if data.Length < maxBytesToRead {
        data := new Byte[maxBytesToRead];
      }
      offset := from;
      len, st, sizes := Fill(reader, data, minBytesToRead, maxBytesToRead);
      newOffset := from + len;
    }

    /** The read loop, over the backing array. */
    static method Fill(reader: FaultTolerantHdfsReader, data: array<Byte>, minBytesToRead: nat, maxBytesToRead: nat)
        returns (totalRead: nat, st: Status, ghost sizes: seq<nat>)
      requires reader.Valid() && minBytesToRead <= maxBytesToRead <= data.Length
      modifies data, reader.Repr()
      ensures reader.Valid() && fresh(reader.Repr() - old(reader.Repr()))
      ensures Since(old(reader.chunks), sizes, reader.chunks) && JustEnough(sizes, totalRead, minBytesToRead)
      ensures totalRead <= maxBytesToRead && (st.Ok? <==> totalRead >= minBytesToRead)
      ensures minBytesToRead > 0 ==> Asked(reader.accessor.file, old(reader.offset), maxBytesToRead, totalRead, st)
      ensures st.Failed? ==> reader.accessor.file.Reports(st.error)
      ensures reader.offset == old(reader.offset) + totalRead && reader.fetched == old(reader.fetched) + totalRead
      ensures reader.seekCalls == old(reader.seekCalls)
      ensures data[..totalRead] == Slice(reader.accessor.file.content, old(reader.offset), reader.offset)
      ensures st == Failed(Eof) ==> reader.offset >= |reader.accessor.file.content|
      ensures (st.Ok? && minBytesToRead > 0) || st == Failed(Eof) ==> reader.impl != null
      ensures old(reader.impl) != null && Sturdy(reader.policy, reader.accessor.file) ==> reader.impl != null
      ensures Steady(reader, old(reader.offset), st)
    {
      ghost var content, start := reader.accessor.file.content, reader.offset;
      totalRead, st, sizes := 0, Ok, [];
      while totalRead < minBytesToRead
        invariant totalRead <= maxBytesToRead && st.Ok?
        invariant totalRead > 0 ==> Asked(reader.accessor.file, start, maxBytesToRead, totalRead, st)
        invariant reader.Valid() && fresh(reader.Repr() - old(reader.Repr()))
        invariant reader.offset == start + totalRead && reader.fetched == old(reader.fetched) + totalRead
        invariant reader.seekCalls == old(reader.seekCalls)
        invariant Since(old(reader.chunks), sizes, reader.chunks) && JustEnough(sizes, totalRead, minBytesToRead)
        invariant totalRead > 0 || old(reader.impl) != null ==> reader.impl != null
        invariant data[..totalRead] == Slice(content, start, start + totalRead)
        decreases minBytesToRead - totalRead
      {
        var nr;
        ghost var chunks := reader.chunks;
        nr, st := FillMore(reader, data, totalRead, maxBytesToRead, start);
        if st.Failed? {
          break;
        }
        ReadOneMore(old(reader.chunks), sizes, chunks, nr, totalRead, minBytesToRead);
        totalRead, sizes := totalRead + nr, sizes + [nr];
      }
    }

    /** One backend read behind the bytes already there; the slice passed on is never empty. */
    static method FillMore(reader: FaultTolerantHdfsReader, data: array<Byte>, totalRead: nat, maxBytesToRead: nat,
        ghost start: nat) returns (nr: nat, st: Status)
      requires reader.Valid() && totalRead < maxBytesToRead <= data.Length && reader.offset == start + totalRead
      requires data[..totalRead] == Slice(reader.accessor.file.content, start, reader.offset)
      modifies data, reader.Repr()
      ensures reader.Valid() && fresh(reader.Repr() - old(reader.Repr()))
      ensures st.Ok? ==> 1 <= nr <= maxBytesToRead - totalRead && reader.impl != null
      ensures st.Ok? && reader.accessor.file.prompt ==>
                nr == Min(maxBytesToRead - totalRead, |reader.accessor.file.content| - old(reader.offset))
      ensures st.Failed? ==> nr == 0 && reader.accessor.file.Reports(st.error)
      ensures reader.offset == old(reader.offset) + nr && reader.fetched == old(reader.fetched) + nr
      ensures reader.seekCalls == old(reader.seekCalls)
      ensures reader.chunks == old(reader.chunks) + if st.Ok? then [nr] else []
      ensures totalRead + nr <= data.Length
      ensures data[..totalRead + nr] == Slice(reader.accessor.file.content, start, reader.offset)
      ensures st == Failed(Eof) ==> reader.offset >= |reader.accessor.file.content| && reader.impl != null
      ensures old(reader.impl) != null && Sturdy(reader.policy, reader.accessor.file) ==> reader.impl != null
      ensures Steady(reader, old(reader.offset), st)
    {
      ghost var before := data[..totalRead];
      ghost var op, history;
      nr, st, op, history := reader.Read(data, totalRead, maxBytesToRead);
      assert data[..totalRead] == before;
      if st.Ok? {
        ghost var content := reader.accessor.file.content;
        assert data[..totalRead + nr] == before + data[totalRead..totalRead + nr];
        assert content[start..reader.offset] ==
               content[start..start + totalRead] + content[start + totalRead..reader.offset];
      }
    }

    /** Serves what the fragment has of a request at fileOffset into buf[lo..hi]. */
    method ReadFromBuffer(fileOffset: nat, buf: array<Byte>, lo: nat, hi: nat) returns (hit: bool, nr: nat)
      requires Valid() && lo <= hi <= buf.Length && buf != data
      modifies buf
      ensures hit == Value().Covers(fileOffset)
      ensures nr == |Value().Serve(fileOffset, hi - lo)| && lo + nr <= hi
      ensures buf[lo..lo + nr] == Value().Serve(fileOffset, hi - lo)
      ensures forall i | 0 <= i < buf.Length && !(lo <= i < lo + nr) :: buf[i] == old(buf[i])
    {
      var start := fileOffset - offset;
      if start < 0 || start >= len {
        return false, 0;
      }
      var end := start + (hi - lo);
      if end > len {
        end := len;
      }
      ghost var held := data[..len];
      forall i | 0 <= i < end - start {
        buf[lo + i] := data[start + i];
      }
      hit, nr := true, end - start;
      assert data[..len] == held && Value().Serve(fileOffset, hi - lo) == held[start..end];
      forall i | 0 <= i < nr
        ensures buf[lo..lo + nr][i] == held[start..end][i]
      {
        assert buf[lo + i] == held[start + i];
      }
    }
  }
}
