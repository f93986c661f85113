/**
 RandomAccessReader.go over the real readers: the locked sections and the unlocked part of ReadAt,
 proved against the steps of PoolProtocol.
 */
module RandomAccessReaders {
  import opened Basics
  import opened HdfsBackend
  import opened FaultTolerantAccessors
  import opened FaultTolerantReaders
  import opened ReadCache
  import opened FileHandles
  import opened FileHandleStreams
  import PoolProtocol

  type Reader = FileHandleAsReadSeekCloser

  const MAX_READERS: nat := 256

  /** Its backend stream has not been left beyond the end of the file. */
  ghost predicate Inside(r: Reader)
    requires r.Ready()
    reads r, r.Repr
  {
    r.fileHandle.View().position <= |r.File().content|
  }

  /** File.OpenRead: a fresh handle with its reader enabled. */
  method OpenRead(accessor: FaultTolerantHdfsAccessor) returns (reader: FileHandleAsReadSeekCloser?, st: Status)
    modifies accessor.connection
    ensures st.Ok? <==> reader != null
    ensures reader != null ==> reader.Ready() && reader.fileHandle.accessor == accessor && reader.offset == 0
    ensures reader != null ==> fresh(reader.Repr)
    ensures reader != null ==> Inside(reader)
    ensures st.Failed? ==> st.error in accessor.impl.file.errors
  {
    var handle := new FileHandle(accessor);
    st := handle.EnableRead();
    reader := null;
    if st.Ok? {
      reader := new FileHandleAsReadSeekCloser(handle);
    }
  }

  /**
   What io.ReadFull still does when n bytes are in: for a request inside the file it fills the
   buffer or reports an error.
   */
  method ReadFull(reader: Reader, buf: array<Byte>, n: nat) returns (total: nat, st: Status)
    requires reader.Ready() && Inside(reader) && reader.File().SeeksInside() && buf !in reader.Repr && n <= buf.Length
    requires reader.offset + buf.Length - n <= |reader.File().content|   // else the source reads on for ever
    modifies reader, reader.Repr, buf, reader.fileHandle.accessor.connection
    ensures fresh(reader.Repr - old(reader.Repr)) && n <= total <= buf.Length
    ensures reader.offset == old(reader.offset) + total - n
    ensures buf[..total] == old(buf[..n]) + reader.File().content[old(reader.offset)..reader.offset]
    ensures st.Ok? ==> total == buf.Length && reader.Ready() && Inside(reader)
    ensures reader.Valid() && (Sturdy(reader.fileHandle.accessor.policy, reader.File()) ==> reader.Closable())
    ensures st.Failed? ==> reader.File().Reports(st.error)
    ensures reader.File().Reliable() ==> st.Ok?
    decreases buf.Length - n
  {
    if n == buf.Length {
      return n, Ok;
    }
    ghost var head, content, from := buf[..n], reader.File().content, reader.offset;
    var nn;
    nn, st := ReadInside(reader, buf, n);
    total := n + nn;
    if st.Ok? {
      ghost var mid := reader.offset;
      total, st := ReadFull(reader, buf, total);
      SlicesJoin(head, content, from, mid, reader.offset);
    }
  }

  lemma SlicesJoin(head: seq<Byte>, content: seq<Byte>, a: nat, b: nat, c: nat)
    requires a <= b <= c <= |content|
    ensures (head + content[a..b]) + content[b..c] == head + content[a..c]
  {}

  /** One read of the rest of the buffer: all of it, or a correct part and an error. */
  method ReadInside(reader: Reader, buf: array<Byte>, n: nat) returns (nn: nat, st: Status)
    requires reader.Ready() && Inside(reader) && reader.File().SeeksInside() && buf !in reader.Repr && n < buf.Length
    requires reader.offset + buf.Length - n <= |reader.File().content|
    modifies reader, reader.Repr, buf, reader.fileHandle.accessor.connection
    ensures fresh(reader.Repr - old(reader.Repr)) && n + nn <= buf.Length && reader.offset == old(reader.offset) + nn
    ensures buf[..n + nn] == old(buf[..n]) + reader.File().content[old(reader.offset)..reader.offset]
    ensures st.Ok? ==> nn == buf.Length - n && reader.Ready() && Inside(reader)
    ensures reader.Valid() && (Sturdy(reader.fileHandle.accessor.policy, reader.File()) ==> reader.Closable())
    ensures st.Failed? ==> reader.File().Reports(st.error)
    ensures reader.File().Reliable() ==> st.Ok?
  {
    ghost var v, off := reader.fileHandle.View(), reader.offset;
    nn, st := reader.Read(buf, n, buf.Length);
    assert buf[..n + nn] == buf[..n] + buf[n..n + nn];
    assert buf[..n] == old(buf[..n]);
    AnswerInside(reader.File(), v, off, buf.Length - n, buf[n..n + nn], st, reader.fileHandle.View());
  }

  /**
   The first `turns` turns of io.ReadFull when the request reaches beyond the end of a reliable file:
   the buffer is not full, and there is no error either. As that holds for any number of turns, it
   never returns.
   */
  method ReadFullTurns(reader: Reader, buf: array<Byte>, turns: nat) returns (n: nat, st: Status)
    requires reader.Ready() && Inside(reader) && reader.File().Reliable() && buf !in reader.Repr
    requires reader.offset <= |reader.File().content| < reader.offset + buf.Length
    modifies reader, reader.Repr, buf, reader.fileHandle.accessor.connection
    ensures n < buf.Length && st.Ok? && reader.Ready() && Inside(reader)
    ensures turns > 0 ==> n == |reader.File().content| - old(reader.offset)
  {
    n, st := 0, Ok;
    for i := 0 to turns
      invariant reader.Ready() && Inside(reader) && buf !in reader.Repr && fresh(reader.Repr - old(reader.Repr))
      invariant n < buf.Length && st.Ok? && reader.offset == old(reader.offset) + n
      invariant reader.offset == if i == 0 then old(reader.offset) else |reader.File().content|
    {
      var nn;
      nn, st := ReadBeyond(reader, buf, n);
      n := n + nn;
    }
  }

  /** One such turn: what is left of the file, or nothing; and no error. */
  method ReadBeyond(reader: Reader, buf: array<Byte>, n: nat) returns (nn: nat, st: Status)
    requires reader.Ready() && Inside(reader) && reader.File().Reliable() && buf !in reader.Repr && n < buf.Length
    requires reader.offset <= |reader.File().content| < reader.offset + buf.Length - n
    modifies reader, reader.Repr, buf, reader.fileHandle.accessor.connection
    ensures reader.Ready() && Inside(reader) && fresh(reader.Repr - old(reader.Repr)) && st.Ok?
    ensures nn == |reader.File().content| - old(reader.offset) && reader.offset == |reader.File().content|
  {
    ghost var v, off := reader.fileHandle.View(), reader.offset;
    nn, st := reader.Read(buf, n, buf.Length);
    AnswerToTheEnd(reader.File(), v, off, buf.Length - n, buf[n..n + nn], st, reader.fileHandle.View());
  }

  class RandomAccessReader {
    const accessor: FaultTolerantHdfsAccessor   // opens the file
    const maxReaders: nat
    var pool: PoolProtocol.Pool<Reader>

    constructor (accessor: FaultTolerantHdfsAccessor)
      ensures Valid() && this.accessor == accessor && maxReaders == 256 && pool == Some(map[])
    {
      this.accessor, maxReaders, pool := accessor, MAX_READERS, Some(map[]);
    }

    function File(): RemoteFile {
      accessor.impl.file
    }

    /** A reader of this file, fit to serve any request inside it. */
    ghost predicate Usable(r: Reader)
      reads r, r.Repr
    {
      r.Ready() && Inside(r) && r.fileHandle.accessor == accessor && this !in r.Repr && accessor.connection !in r.Repr
    }

    /** A reader of this file that is to be closed: it can be, if nothing is retried. */
    ghost predicate Spent(r: Reader)
      reads r, r.Repr
    {
      && r.Valid() && r.fileHandle.accessor == accessor && this !in r.Repr && accessor.connection !in r.Repr
      && (Sturdy(accessor.policy, File()) ==> r.Closable())
    }

    /** They share nothing. */
    static ghost predicate Strangers(q: Reader, r: Reader)
      reads q, r
    {
      q.Repr !! r.Repr
    }

    static ghost function Readers(m: map<int, Reader>): set<Reader> {
      set k | k in m :: m[k]
    }

    static ghost function Footprint(m: map<int, Reader>): set<object>
      reads Readers(m)
    {
      set r, o | r in Readers(m) && o in r.Repr :: o
    }

    /** No pooled reader owns the buffer. */
    static ghost predicate Clear(buf: array<Byte>, m: map<int, Reader>)
      reads Readers(m)
    {
      forall k {:trigger m[k].Repr} | k in m :: buf !in m[k].Repr
    }

    /** Pooled readers are usable, stand at their keys and share nothing. */
    ghost predicate Sound(m: map<int, Reader>)
      reads Readers(m), Footprint(m)
    {
      && (forall k {:trigger Usable(m[k])} | k in m :: Usable(m[k]))
      && (forall k {:trigger m[k].offset} | k in m :: m[k].offset == k)
      && (forall j, k {:trigger Strangers(m[j], m[k])} | j in m && k in m && j != k :: Strangers(m[j], m[k]))
    }

    /** The reader shares nothing with any pooled one. */
    ghost predicate Apart(r: Reader, m: map<int, Reader>)
      reads r, Readers(m)
    {
      forall k {:trigger Strangers(m[k], r)} | k in m :: Strangers(m[k], r)
    }

    function Held(): map<int, Reader>
      reads this
    {
      if pool.None? then map[] else pool.value
    }

    ghost predicate Valid()
      reads this, Readers(Held()), Footprint(Held())
    {
      Sound(Held())
    }

    lemma SoundWithout(m: map<int, Reader>, key: int)
      requires Sound(m) && key in m
      ensures Sound(m - {key}) && Usable(m[key]) && Apart(m[key], m - {key})
      ensures forall k {:trigger m[k].Repr} | k in m :: this !in m[k].Repr
    {
      forall k | k in m
        ensures this !in m[k].Repr
      {
        assert Usable(m[k]);
      }
    }

    /** Readers that nobody touches stay as they are. */
    twostate lemma SoundStays(m: map<int, Reader>)
      requires old(Sound(m))
      requires forall k | k in m :: unchanged(m[k]) && unchanged(old(m[k].Repr))
      ensures Sound(m)
    {
      forall k | k in m
        ensures Usable(m[k]) && m[k].offset == k
      {
        assert old(Usable(m[k])) && m[k].Repr == old(m[k].Repr);
      }
    }

    /** While one call uses its reader, the pool stays as it is, and apart from the reader. */
    twostate lemma PoolStays(new m: map<int, Reader>, new r: Reader, new buf: array<Byte>)
      requires old(allocated(m) && allocated(r) && allocated(buf))
      requires old(Sound(m) && Usable(r) && Apart(r, m) && Clear(buf, m))
      requires forall o: object | old(allocated(o)) && o !in old(r.Repr) && o != buf && o != accessor.connection ::
                unchanged(o)
      requires fresh(r.Repr - old(r.Repr))
      ensures Sound(m) && Apart(r, m)
    {
      forall k | k in m
        ensures unchanged(m[k]) && m[k].Repr == old(m[k].Repr)
        ensures Usable(m[k]) && m[k].offset == k && Strangers(m[k], r)
      {
        assert old(Usable(m[k]) && Strangers(m[k], r)) && m[k] in old(m[k].Repr) && m[k] in Readers(m);
        assert buf !in old(m[k].Repr);
        forall o | o in old(m[k].Repr)
          ensures unchanged(o)
        {
          assert o !in old(r.Repr);
        }
      }
      forall j, k | j in m && k in m && j != k
        ensures Strangers(m[j], m[k])
      {
        assert old(Strangers(m[j], m[k]));
      }
    }

    /** One reader is out of the pool: the one that stands at the offset, if there is one. */
    static ghost predicate TakenFrom(before: map<int, Reader>, offset: nat, r: Reader, rest: map<int, Reader>) {
      exists key :: key in before && (offset in before ==> key == offset) && r == before[key] && rest == before - {key}
    }

    /** The locked section: an exact hit, or any pooled reader, leaves the pool and belongs to the caller. */
    method GetReaderFromPool(offset: nat) returns (reader: FileHandleAsReadSeekCloser?, st: Status, ghost pick: int)
      requires Valid()
      modifies this`pool
      ensures Valid()
      ensures old(pool).Some? && old(pool).value != map[] && offset !in old(pool).value ==> pick in old(pool).value
      ensures pool == PoolProtocol.Take(old(pool), offset, pick).1
      ensures |Held()| <= |old(Held())| && Readers(Held()) <= old(Readers(Held()))
      ensures forall k | k in Held() :: k in old(Held()) && Held()[k] == old(Held())[k]
      ensures reader != null ==> reader in old(Readers(Held()))
      ensures old(Held()) != map[] ==> reader != null && TakenFrom(old(Held()), offset, reader, Held())
      ensures old(Held()) == map[] ==> reader == null && pool == old(pool)
      ensures match PoolProtocol.Take(old(pool), offset, pick).0
        case Refused => st == Failed(Error.PoolClosed) && reader == null
        case Empty => st.Ok? && reader == null
        case Taken(r) => st.Ok? && reader == r && Usable(r) && Apart(r, Held())
    {
      pick := offset;
      if pool.None? {
        return null, Failed(Error.PoolClosed), pick;
      }
      if |pool.value| == 0 {
        return null, Ok, pick;
      }
      if offset in pool.value {
        pick := offset;
        reader := Withdraw(offset);
      } else {
        // Go's map order is random; any key may come up
        ghost var some := PoolProtocol.SomeKey(pool.value);
        var key :| key in pool.value;
        pick := key;
        reader := Withdraw(key);
      }
      st := Ok;
    }

    /** Takes the reader under that key out of the pool. */
    method Withdraw(key: int) returns (reader: Reader)
      requires Valid() && key in Held()
      modifies this`pool
      ensures Valid() && pool == Some(old(Held()) - {key}) && reader == old(Held())[key]
      ensures Usable(reader) && Apart(reader, Held())
      ensures |Held()| <= |old(Held())| && Readers(Held()) <= old(Readers(Held())) && reader in old(Readers(Held()))
    {
      reader := pool.value[key];
      SoundWithout(pool.value, key);
      ghost var rest := pool.value - {key};
      assert rest.Keys == pool.value.Keys - {key} && |rest| == |rest.Keys|;
      label taking:
      pool := Some(pool.value - {key});
      SoundStays@taking(rest);
    }

    method GetReaderFromPoolOrCreateNew(offset: nat) returns (reader: FileHandleAsReadSeekCloser?, st: Status)
      requires Valid()
      modifies this`pool, accessor.connection
      ensures Valid() && pool.Some? == old(pool).Some?
      ensures st.Ok? <==> reader != null
      ensures reader != null ==> Usable(reader) && Apart(reader, Held())
      ensures |Held()| <= |old(Held())|
      ensures forall k {:trigger Held()[k]} | k in Held() ::
                k in old(Held()) && Held()[k] == old(Held())[k] && Held()[k].Repr == old(Held()[k].Repr)
      ensures reader != null ==> reader in reader.Repr
      ensures reader != null && !fresh(reader.Repr) ==>
                exists k :: k in old(Held()) && old(Held())[k] == reader && old(Held()[k].Repr) == reader.Repr
      ensures old(Held()) != map[] ==> reader != null && TakenFrom(old(Held()), offset, reader, Held())
      ensures old(Held()) == map[] ==> pool == old(pool) && (reader != null ==> fresh(reader) && fresh(reader.Repr))
      ensures old(pool).None? <==> st == Failed(Error.PoolClosed)
      ensures st.Failed? ==> st.error.PoolClosed? || st.error in File().errors
    {
      ghost var pick;
      reader, st, pick := GetReaderFromPool(offset);
      if st.Ok? && reader == null {
        label opening:
        reader, st := OpenRead(accessor);
        SoundStays@opening(Held());
      }
    }

    /** The locked section: the reader is pooled under its position, unless the pool is closed or full. */
    method ReturnReaderToPool(reader: Reader) returns (dropped: Option<Reader>)
      requires Valid() && Usable(reader) && Apart(reader, Held())
      modifies this`pool
      ensures Valid()
      ensures pool == PoolProtocol.GiveBack(old(pool), maxReaders, reader, Some(reader.offset)).0
      ensures dropped == PoolProtocol.GiveBack(old(pool), maxReaders, reader, Some(reader.offset)).1
      ensures old(pool).Some? && |old(Held())| < maxReaders ==> pool == Some(old(Held())[reader.offset := reader])
      ensures dropped.Some? ==> Usable(dropped.value) && Apart(dropped.value, Held())
      ensures dropped.Some? && dropped.value != reader ==>
                exists k :: k in old(Held()) && old(Held())[k] == dropped.value
    {
      if pool.None? || |pool.value| >= maxReaders {
        return Some(reader);
      }
      var key, st := reader.Position();
      if st.Failed? {
        return Some(reader);
      }
      dropped := Deposit(reader);
    }

    /** Puts a reader under its position, in the place of one that was there. */
    method Deposit(reader: Reader) returns (dropped: Option<Reader>)
      requires Valid() && pool.Some? && Usable(reader) && Apart(reader, Held())
      modifies this`pool
      ensures Valid() && pool == Some(old(Held())[reader.offset := reader])
      ensures dropped == if reader.offset in old(Held()) then Some(old(Held())[reader.offset]) else None
      ensures dropped.Some? ==> Usable(dropped.value) && Apart(dropped.value, Held())
    {
      ghost var more := pool.value[reader.offset := reader];
      dropped := if reader.offset in pool.value then Some(pool.value[reader.offset]) else None;
      SoundWith(pool.value, reader);
      if dropped.Some? {
        Replaced(pool.value, reader);
      }
      label returning:
      pool := Some(pool.value[reader.offset := reader]);
      SoundStays@returning(more);
      if dropped.Some? {
        forall k | k in more
          ensures Strangers(more[k], dropped.value)
        {
          assert old@returning(Strangers(more[k], dropped.value));
        }
      }
    }

    lemma SoundWith(m: map<int, Reader>, r: Reader)
      requires Sound(m) && Usable(r) && Apart(r, m)
      ensures Sound(m[r.offset := r])
      ensures forall k {:trigger m[k].Repr} | k in m :: this !in m[k].Repr
    {
      var more := m[r.offset := r];
      forall k | k in m
        ensures this !in m[k].Repr && m[k].offset == k && Usable(m[k])
      {
        assert Usable(m[k]) && m[k].offset == k;
      }
      forall j, k | j in more && k in more && j != k
        ensures Strangers(more[j], more[k])
      {
        if j == r.offset {
          assert Strangers(m[k], r);
        } else if k == r.offset {
          assert Strangers(m[j], r);
        } else {
          assert Strangers(m[j], m[k]);
        }
      }
    }

    /** The reader that makes room. */
    lemma Replaced(m: map<int, Reader>, r: Reader)
      requires Sound(m) && Usable(r) && Apart(r, m) && r.offset in m
      ensures Usable(m[r.offset]) && Apart(m[r.offset], m[r.offset := r])
    {
      var more := m[r.offset := r];
      forall k | k in more
        ensures Strangers(more[k], m[r.offset])
      {
        assert if k == r.offset then Strangers(m[k], r) else Strangers(m[k], m[r.offset]);
      }
    }

    /** The unlocked part of ReadAt: position the reader, then fill the buffer. */
    method UseReader(reader: Reader, buf: array<Byte>, offset: nat) returns (n: nat, st: Status)
      requires Usable(reader) && File().SeeksInside() && buf !in reader.Repr
      requires offset + buf.Length <= |File().content|
      modifies reader, reader.Repr, buf, accessor.connection
      ensures fresh(reader.Repr - old(reader.Repr)) && n <= buf.Length
      ensures buf[..n] == File().content[offset..offset + n]
      ensures st.Ok? ==> n == buf.Length && Usable(reader) && reader.offset == offset + n
      ensures Spent(reader) && (st.Failed? ==> File().Reports(st.error))
      ensures File().Reliable() ==> st.Ok?
    {
      n := 0;
      st := PlaceReader(reader, offset);
      if st.Ok? {
        n, st := FillBuffer(reader, buf);
      }
    }

    /** Lines 52-61. */
    method PlaceReader(reader: Reader, offset: nat) returns (st: Status)
      requires Usable(reader)
      modifies reader
      ensures Usable(reader) && reader.Repr == old(reader.Repr) && st.Ok? && reader.offset == offset
    {
      var readerPos;
      readerPos, st := reader.Position();
      if st.Failed? {
        return;
      }
      if readerPos != offset {
        st := reader.Seek(offset);
        if st.Failed? {
          return;
        }
      }
    }

    /** Line 62. */
    method FillBuffer(reader: Reader, buf: array<Byte>) returns (n: nat, st: Status)
      requires Usable(reader) && File().SeeksInside() && buf !in reader.Repr
      requires reader.offset + buf.Length <= |File().content|
      modifies reader, reader.Repr, buf, accessor.connection
      ensures fresh(reader.Repr - old(reader.Repr)) && n <= buf.Length
      ensures buf[..n] == File().content[old(reader.offset)..old(reader.offset) + n]
      ensures st.Ok? ==> n == buf.Length && Usable(reader) && reader.offset == old(reader.offset) + n
      ensures Spent(reader) && (st.Failed? ==> File().Reports(st.error))
      ensures File().Reliable() ==> st.Ok?
    {
      ghost var head, from := buf[..0], reader.offset;
      n, st := ReadFull(reader, buf, 0);
      assert head + File().content[from..from + n] == File().content[from..from + n];
    }

    /** The first n bytes of the buffer are those the file has at the offset. */
    ghost predicate Delivered(buf: array<Byte>, n: nat, offset: nat)
      reads buf
    {
      n <= buf.Length && offset + n <= |File().content| && buf[..n] == File().content[offset..offset + n]
    }

    lemma NothingDelivered(buf: array<Byte>, offset: nat)
      requires offset <= |File().content|
      ensures Delivered(buf, 0, offset)
    {}

    /**
     What becomes of the reader that a call has used, and of the pool, which was `rest` then: after a
     success the reader is pooled where it stands, if there is room, in the place of one that stood
     there. Otherwise it is dropped.
     */
    ghost predicate Settled(rest: map<int, Reader>, used: Reader, dropped: Option<Reader>, success: bool)
      reads this, used
    {
      if success && |rest| < maxReaders then
        && Held() == rest[used.offset := used]
        && dropped == if used.offset in rest then Some(rest[used.offset]) else None
      else
        Held() == rest && dropped == Some(used)
    }

    /** ReadAt from the point where it holds a reader. */
    method UseAndReturn(reader: Reader, buf: array<Byte>, offset: nat)
        returns (n: nat, st: Status, dropped: Option<Reader>)
      requires Valid() && Usable(reader) && Apart(reader, Held()) && File().SeeksInside()
      requires offset + buf.Length <= |File().content|
      requires Clear(buf, Held()) && buf !in reader.Repr
      modifies this`pool, reader, reader.Repr, buf, accessor.connection
      ensures Valid() && Delivered(buf, n, offset)
      ensures st.Ok? ==> n == buf.Length
      ensures st.Ok? ==> reader.offset == offset + n
      ensures (pool.None? <==> old(pool).None?) && (pool.Some? ==> Settled(old(Held()), reader, dropped, st.Ok?))
      ensures pool.None? ==> dropped == Some(reader)
      ensures st.Failed? ==> File().Reports(st.error)
      ensures dropped.Some? ==> Spent(dropped.value) && (st.Ok? ==> Usable(dropped.value))
      ensures File().Reliable() ==> st.Ok?
    {
      ghost var rest := Held();
      label reading:
      n, st := UseReader(reader, buf, offset);
      PoolStays@reading(rest, reader, buf);
      assert pool == old(pool);
      dropped := Some(reader);
      if st.Ok? {
        dropped := ReturnReaderToPool(reader);
      }
    }

    /**
     A request inside the file, served by whichever reader the pool gives up or by a new one: success
     means the buffer holds exactly the file's bytes, failure leaves a correct prefix. The reader that
     `served` comes out of the pool, which leaves `rest`, and is new only if the pool is empty. After
     success it stands where the read ended and is pooled there, if there is room; `dropped` is the
     reader the source hands to a background Close. That finds a stream to close after every success,
     and after a failure if nothing is retried.
     */
    method ReadAt(buf: array<Byte>, offset: nat)
        returns (n: nat, st: Status, dropped: Option<Reader>,
                 ghost served: FileHandleAsReadSeekCloser?, ghost rest: map<int, Reader>)
      requires Valid() && File().SeeksInside()
      requires offset + buf.Length <= |File().content|   // else io.ReadFull spins: end-of-file is not reported
      requires Clear(buf, Held())
      modifies this`pool, Readers(Held()), Footprint(Held()), buf, accessor.connection
      ensures Valid() && Delivered(buf, n, offset)
      ensures st.Ok? ==> n == buf.Length && served != null && served.offset == offset + n
      ensures old(Held()) != map[] ==> served != null && TakenFrom(old(Held()), offset, served, rest)
      ensures old(Held()) == map[] ==> rest == map[] && (served != null ==> fresh(served))
      ensures pool.Some? == old(pool).Some? && (served != null ==> Settled(rest, served, dropped, st.Ok?))
      ensures served == null ==> st.Failed? && pool == old(pool) && dropped.None?
      ensures old(pool).None? ==> st == Failed(Error.PoolClosed)
      ensures old(pool).Some? && File().Reliable() ==> st.Ok?
      ensures st.Failed? ==> st.error.PoolClosed? || File().Reports(st.error)
      ensures dropped.Some? && (st.Ok? || Sturdy(accessor.policy, File())) ==> dropped.value.Closable()
    {
      n, dropped := 0, None;
      var reader;
      reader, st := GetReaderFromPoolOrCreateNew(offset);
      served, rest := reader, Held();
      if st.Failed? {
        NothingDelivered(buf, offset);
        return;
      }
      n, st, dropped := UseAndReturn(reader, buf, offset);
    }

    /** Each reader owns itself and its handle, and shares nothing with the others. */
    static ghost predicate Separate(m: map<int, Reader>)
      reads Readers(m)
    {
      && (forall k {:trigger m[k].Repr} | k in m :: m[k] in m[k].Repr && m[k].fileHandle in m[k].Repr)
      && (forall j, k {:trigger Strangers(m[j], m[k])} | j in m && k in m && j != k :: Strangers(m[j], m[k]))
    }

    lemma SoundIsSeparate(m: map<int, Reader>)
      requires Sound(m)
      ensures Separate(m)
    {
      forall k | k in m
        ensures m[k] in m[k].Repr && m[k].fileHandle in m[k].Repr
      {
        assert Usable(m[k]);
      }
    }

    /** Closing one reader leaves the others alone. */
    method CloseOne(ghost m: map<int, Reader>, key: int, r: Reader)
      requires Separate(m) && key in m && m[key] == r && r.Ready()
      modifies m[key], m[key].Repr
      ensures Separate(m) && r.fileHandle.reader == null && !old(r.Stream()).open
      ensures forall k | k in m :: m[k].Repr == old(m[k].Repr)
      ensures forall k | k in m && k != key ::
                unchanged(m[k]) && unchanged(old(m[k].Repr)) && unchanged(m[k].fileHandle)
    {
      r.Close();
      forall k | k in m && k != key
        ensures unchanged(m[k]) && unchanged(old(m[k].Repr)) && unchanged(m[k].fileHandle)
      {
        assert old(Strangers(m[k], m[key]));
      }
      forall j, k | j in m && k in m && j != k
        ensures Strangers(m[j], m[k])
      {
        assert old(Strangers(m[j], m[k]));
      }
    }

    /** These are the streams behind the readers. */
    ghost predicate Behind(m: map<int, Reader>, streams: map<int, HdfsStream>)
      reads Readers(m), Footprint(m)
    {
      forall k {:trigger streams[k]} | k in m ::
        k in streams && streams[k] in m[k].Repr && (Usable(m[k]) ==> m[k].Stream() == streams[k])
    }

    lemma StreamsOf(m: map<int, Reader>) returns (streams: map<int, HdfsStream>)
      requires Sound(m)
      ensures Behind(m, streams) && m.Keys <= streams.Keys
      ensures forall k | k in m ::
                k in streams && Usable(m[k]) && streams[k] == m[k].Stream() && streams[k] in m[k].Repr
    {
      assert forall k | k in m :: Usable(m[k]);
      streams := map k | k in m :: m[k].Stream();
      forall k | k in m
        ensures streams[k] in m[k].Repr
      {
        OwnsStream(m[k]);
      }
    }

    lemma OwnsStream(r: Reader)
      requires r.Ready()
      ensures r.Stream() in r.Repr
    {}

    /** Close is under way: `left` are still to be closed, the streams of the others are. */
    ghost predicate Closing(all: map<int, Reader>, left: map<int, Reader>, streams: map<int, HdfsStream>)
      reads Readers(all), Footprint(all), Readers(left), Footprint(left),
            (set k | k in all :: all[k].fileHandle), (set k | k in streams :: streams[k])
    {
      && Sound(left) && Separate(all) && Behind(left, streams)
      && all.Keys <= streams.Keys && left.Keys <= all.Keys
      && (forall k {:trigger left[k]} | k in left :: left[k] == all[k])
      && (forall k {:trigger streams[k]} | k in all :: streams[k] in all[k].Repr)
      && (forall k {:trigger streams[k]} | k in all && k !in left :: Closed(all[k], streams[k]))
    }

    static ghost predicate Closed(r: Reader, stream: HdfsStream)
      reads r, r.fileHandle, stream
    {
      r.fileHandle.reader == null && !stream.open
    }

    /** One turn of Close's loop. */
    method CloseNext(ghost all: map<int, Reader>, left: map<int, Reader>, ghost streams: map<int, HdfsStream>)
        returns (key: int)
      requires left != map[] && Closing(all, left, streams)
      modifies Readers(left), Footprint(left)
      ensures key in left && |left - {key}| < |left| && Closing(all, left - {key}, streams)
      ensures forall k | k in all :: all[k].Repr == old(all[k].Repr)
    {
      ghost var some := PoolProtocol.SomeKey(left);
      key :| key in left;
      ghost var rest := left - {key};
      assert rest.Keys == left.Keys - {key} && |rest| == |rest.Keys| && |left| == |left.Keys|;
      SoundWithout(left, key);
      assert streams[key] == left[key].Stream();
      label closing:
      CloseOne(all, key, left[key]);
      SoundStays@closing(rest);
      forall k | k in rest
        ensures k in streams && streams[k] in rest[k].Repr && (Usable(rest[k]) ==> rest[k].Stream() == streams[k])
      {
        assert old@closing(Usable(rest[k])) && streams[k] == old@closing(rest[k].Stream());
      }
      forall k | k in all && k !in rest
        ensures Closed(all[k], streams[k])
      {
        assert k != key ==> old@closing(Closed(all[k], streams[k]));
      }
    }

    /** Closes every pooled reader and the pool. */
    method Close() returns (ghost streams: map<int, HdfsStream>)
      requires Valid()
      modifies this`pool, Readers(Held()), Footprint(Held())
      ensures pool.None?
      ensures forall k | k in old(Held()) ::
                && k in streams && old(Usable(Held()[k])) && streams[k] == old(Held()[k].Stream())
                && Closed(old(Held())[k], streams[k])
    {
      ghost var all := Held();
      SoundIsSeparate(all);
      streams := StreamsOf(all);
      if pool.Some? {
        CloseReaders(pool.value, streams);
      }
      pool := None;
    }

    method CloseReaders(all: map<int, Reader>, ghost streams: map<int, HdfsStream>)
      requires Closing(all, all, streams)
      modifies Readers(all), Footprint(all)
      ensures forall k | k in all :: Closed(all[k], streams[k])
    {
      var left := all;
      while left != map[]
        invariant Closing(all, left, streams)
        invariant forall k | k in all :: all[k].Repr == old(all[k].Repr)
        decreases |left|
      {
        var k := CloseNext(all, left, streams);
        left := left - {k};
      }
    }
  }
}
