/**
 FileHandleWriter.go: writes go to a local staging file, which Flush publishes as the whole new
 content of the remote file.
 */
module FileHandleWriters {
  import opened Basics
  import opened HdfsBackend

  // ---------------------------------------------------------------- overlaying writes

  /** Bytes written at an offset. */
  datatype Patch = Patch(offset: nat, data: seq<Byte>)
  {
    predicate Covers(i: nat) {
      offset <= i < offset + |data|
    }
  }

  /** `content` made at least `size` bytes long with zeros. */
  function Extended(content: seq<Byte>, size: nat): (r: seq<Byte>)
    ensures |r| == Max(|content|, size) && r[..|content|] == content
    ensures forall i | |content| <= i < |r| :: r[i] == 0
  {
    content + seq(Max(0, size - |content|), i => 0)
  }

  /** What WriteAt makes of a file. Writing nothing does not extend it. */
  function Overlay(content: seq<Byte>, w: Patch): seq<Byte> {
    if w.data == [] then content
    else
      var room := Extended(content, w.offset + |w.data|);
      room[..w.offset] + w.data + room[w.offset + |w.data|..]
  }

  function OverlayAll(base: seq<Byte>, writes: seq<Patch>): seq<Byte> {
    if writes == [] then base
    else Overlay(OverlayAll(base, writes[..|writes| - 1]), writes[|writes| - 1])
  }

  lemma OverlayAt(content: seq<Byte>, w: Patch)
    ensures |Overlay(content, w)| == if w.data == [] then |content| else Max(|content|, w.offset + |w.data|)
    ensures forall i: nat | i < |Overlay(content, w)| ::
              Overlay(content, w)[i] ==
              if w.Covers(i) then w.data[i - w.offset] else if i < |content| then content[i] else 0
  {}

  lemma OverlayAllMore(base: seq<Byte>, writes: seq<Patch>, w: Patch)
    ensures OverlayAll(base, writes + [w]) == Overlay(OverlayAll(base, writes), w)
  {}

  /** The bytes a run of writes should give, byte by byte: the last write that covers the byte wins. */
  function ByteAfter(base: seq<Byte>, writes: seq<Patch>, i: nat): Byte {
    if writes == [] then (if i < |base| then base[i] else 0)
    else
      var last := writes[|writes| - 1];
      if last.Covers(i) then last.data[i - last.offset] else ByteAfter(base, writes[..|writes| - 1], i)
  }

  /** The size a run of writes should give: what the furthest of them reaches, gaps included. */
  function SizeAfter(base: seq<Byte>, writes: seq<Patch>): nat {
    if writes == [] then |base|
    else
      var last := writes[|writes| - 1];
      var before := SizeAfter(base, writes[..|writes| - 1]);
      if last.data == [] then before else Max(before, last.offset + |last.data|)
  }

  /** The staging file is what the writes describe. */
  lemma {:induction false} OverlayAllIsLastWriteWins(base: seq<Byte>, writes: seq<Patch>)
    ensures |OverlayAll(base, writes)| == SizeAfter(base, writes)
    ensures forall i: nat | i < |OverlayAll(base, writes)| :: OverlayAll(base, writes)[i] == ByteAfter(base, writes, i)
    ensures forall i: nat | i >= SizeAfter(base, writes) :: ByteAfter(base, writes, i) == 0
  {
    if writes != [] {
      var before := writes[..|writes| - 1];
      OverlayAllIsLastWriteWins(base, before);
      OverlayAt(OverlayAll(base, before), writes[|writes| - 1]);
    }
  }

  // ---------------------------------------------------------------- the local and the remote file

  /** The unlinked temporary file. */
  class StagingFile {
    const healthy: bool      // local reads and writes never fail
    const refusal: BackendError   // what a failing local operation says
    var data: seq<Byte>
    var pos: nat
    var fault: Option<nat>   // the position from which on local reads fail, this time

    constructor (healthy: bool, refusal: BackendError)
      ensures this.healthy == healthy && this.refusal == refusal && data == [] && pos == 0 && fault.None?
    {
      this.healthy, this.refusal, data, pos, fault := healthy, refusal, [], 0, None;
    }

    /** How much of the file can be read. */
    function Readable(): nat
      reads this
    {
      ReadableUpTo(|data|, fault)
    }

    /** Writes everything, or a part and reports an error. */
    method WriteAt(bytes: seq<Byte>, offset: nat) returns (nw: nat, st: Status)
      modifies this`data
      ensures nw <= |bytes| && data == Overlay(old(data), Patch(offset, bytes[..nw]))
      ensures st.Ok? ==> nw == |bytes|
      ensures st.Failed? ==> nw < |bytes| && st.error == refusal
      ensures healthy ==> st.Ok?
    {
      var broken: bool := *;
      if bytes != [] && broken && !healthy {
        nw :| nw < |bytes|;
        st := Failed(refusal);
      } else {
        nw, st := |bytes|, Ok;
      }
      data := Overlay(data, Patch(offset, bytes[..nw]));
    }

    /** The next reads start at the beginning, and they may fail anywhere. */
    method SeekStart()
      modifies this`pos, this`fault
      ensures pos == 0 && (healthy ==> fault.None?)
    {
      pos, fault := 0, None;
      if !healthy {
        fault := *;
      }
    }

    /**
     Reads 1..room bytes, as many as there are if nothing is wrong, or reports the end of the file or,
     at the fault, another error.
     */
    method Read(b: array<Byte>, room: nat) returns (nr: nat, st: Status)
      requires 0 < room <= b.Length && pos <= Readable()
      modifies this`pos, b
      ensures st.Ok? <==> old(pos) < Readable()
      ensures st.Ok? ==> 1 <= nr <= room && pos == old(pos) + nr <= Readable() && b[..nr] == data[old(pos)..pos]
      ensures st.Ok? && healthy ==> nr == Min(room, Readable() - old(pos))
      ensures st.Failed? ==> nr == 0 && pos == old(pos) && (st.error == Eof <==> fault.None? || fault.value > |data|)
    {
      if fault.Some? && pos >= fault.value {
        return 0, Failed(refusal);
      }
      if pos == |data| {
        return 0, Failed(Eof);
      }
      var most := Min(room, Readable() - pos);
      nr :| 1 <= nr <= most && (healthy ==> nr == most);
      forall i | 0 <= i < nr {
        b[i] := data[pos + i];
      }
      pos := pos + nr;
      st := Ok;
    }
  }

  /** How much can be read of a file of that size with that fault. */
  function ReadableUpTo(size: nat, fault: Option<nat>): nat {
    if fault.Some? then Min(size, fault.value) else size
  }

  /** A call that the backend has answered. */
  datatype Call =
    | Stating(st: Status)
    | Fetching(st: Status)
    | Removal(st: Status)
    | Creation(st: Status)
    | Appending(data: seq<Byte>, st: Status)
    | Closing(st: Status)

  lemma ReadableWhole(data: seq<Byte>, fault: Option<nat>)
    ensures data[..ReadableUpTo(|data|, fault)] == data <==> fault.None? || fault.value >= |data|
  {
    if ReadableUpTo(|data|, fault) == |data| {
      assert data[..|data|] == data;
    } else {
      assert |data[..ReadableUpTo(|data|, fault)]| < |data|;
    }
  }

  /** One path of HDFS as the writer uses it: the content, if the file exists. */
  class RemotePath {
    const healthy: bool      // HDFS refuses nothing it could do
    var content: Option<seq<Byte>>
    ghost var log: seq<Call>

    constructor (healthy: bool, content: Option<seq<Byte>>)
      ensures this.healthy == healthy && this.content == content && log == []
    {
      this.healthy, this.content, log := healthy, content, [];
    }

    method Stat() returns (st: Status)
      modifies this`log
      ensures log == old(log) + [Stating(st)]
      ensures st.Ok? ==> content.Some?
      ensures healthy ==> (st.Ok? <==> content.Some?)
    {
      var works: bool := *;
      var e := AnyError();
      st := if content.None? then Failed(NotExist) else if works || healthy then Ok else Failed(e);
      log := log + [Stating(st)];
    }

    /** Opens the file for reading and copies all of it. */
    method Fetch() returns (data: seq<Byte>, st: Status)
      modifies this`log
      ensures log == old(log) + [Fetching(st)]
      ensures st.Ok? ==> content == Some(data)
      ensures healthy && content.Some? ==> st.Ok?
    {
      var works: bool := *;
      var e := AnyError();
      data, st := [], Failed(e);
      if content.Some? && (works || healthy) {
        data, st := content.value, Ok;
      }
      log := log + [Fetching(st)];
    }

    method Remove() returns (st: Status)
      modifies this
      ensures st.Ok? ==> old(content).Some? && content.None?
      ensures st.Failed? ==> content == old(content)
      ensures healthy && old(content).Some? ==> st.Ok?
      ensures log == old(log) + [Removal(st)]
    {
      var works: bool := *;
      var e := AnyError();
      st := Failed(e);
      if content.Some? && (works || healthy) {
        content, st := None, Ok;
      }
      log := log + [Removal(st)];
    }

    /** A new empty file; never replaces one that exists. */
    method CreateFile() returns (st: Status)
      modifies this
      ensures st.Ok? ==> old(content).None? && content == Some([])
      ensures st.Failed? ==> content == old(content) && FromBackend(st.error) && st.error != Eof
      ensures healthy && old(content).None? ==> st.Ok?
      ensures log == old(log) + [Creation(st)]
    {
      var works: bool := *;
      var e := AnyError();
      st := Failed(if content.Some? then Exists else e);
      if content.None? && (works || healthy) {
        content, st := Some([]), Ok;
      }
      log := log + [Creation(st)];
    }

    /** HdfsWriter.Write: everything, or a part and an error (end-of-file, when the connection breaks). */
    method Append(bytes: seq<Byte>) returns (st: Status)
      requires content.Some?
      modifies this
      ensures content.Some? && old(content).value <= content.value <= old(content).value + bytes
      ensures st.Ok? ==> content.value == old(content).value + bytes
      ensures st.Failed? ==> FromBackend(st.error)
      ensures healthy ==> st.Ok?
      ensures log == old(log) + [Appending(bytes, st)]
    {
      var part: nat :| part <= |bytes|;
      var e := AnyError();
      st := Failed(e);
      if {
        case true => part, st := |bytes|, Ok;
        case !healthy => st := Failed(Eof);
        case !healthy =>
      }
      content, log := Some(content.value + bytes[..part]), log + [Appending(bytes, st)];
    }

    /** HdfsWriter.Close: on success everything written is there. */
    method CloseWriter() returns (st: Status)
      requires content.Some?
      modifies this
      ensures content.Some? && content.value <= old(content).value
      ensures st.Ok? ==> content == old(content)
      ensures st.Failed? ==> FromBackend(st.error)
      ensures healthy ==> st.Ok?
      ensures log == old(log) + [Closing(st)]
    {
      var kept: nat :| kept <= |content.value|;
      var e := AnyError();
      st := Failed(e);
      if {
        case true => kept, st := |content.value|, Ok;
        case !healthy => st := Failed(Eof);
        case !healthy =>
      }
      assert content.value[..|content.value|] == content.value;
      content, log := Some(content.value[..kept]), log + [Closing(st)];
    }
  }

  const CHUNK: nat := 65536

  ghost predicate IsAppend(call: Call) {
    call.Appending? && 0 < |call.data| <= 65536
  }

  /** After a successful append came another, of a read into the part of the buffer that the first had filled. */
  ghost predicate GoesOn(call: Call, next: Call) {
    call.Appending? && next.Appending? && call.st.Ok? && |next.data| <= |call.data|
  }

  ghost predicate IsCopy(calls: seq<Call>) {
    && (forall k {:trigger calls[k]} | 0 <= k < |calls| :: IsAppend(calls[k]))
    && (forall j, k {:trigger calls[j], calls[k]} | 0 <= j < k < |calls| :: GoesOn(calls[j], calls[k]))
  }

  /** All bytes handed over. */
  function Sent(calls: seq<Call>): seq<Byte> {
    if calls == [] then []
    else
      var last := calls[|calls| - 1];
      Sent(calls[..|calls| - 1]) + if last.Appending? then last.data else []
  }

  /** The outcome of the copy. */
  function Copied(calls: seq<Call>): Status {
    if calls == [] then Ok else calls[|calls| - 1].st
  }

  /** Every append is of 64K, or of the rest of `size` bytes. */
  ghost predicate WholeChunks(calls: seq<Call>, size: nat) {
    forall k {:trigger calls[k]} | 0 <= k < |calls| ::
      calls[k].Appending? && (|calls[k].data| == 65536 || (k == |calls| - 1 && |Sent(calls)| == size))
  }

  /** Appends of these bytes in order, up to the first failure. */
  ghost predicate CopyOf(calls: seq<Call>, bytes: seq<Byte>) {
    IsCopy(calls) && Sent(calls) <= bytes && (Copied(calls).Ok? ==> Sent(calls) == bytes)
  }

  /** A copy that goes on, with what it has sent and the length of its buffer. */
  ghost predicate Copying(calls: seq<Call>, sent: seq<Byte>, room: nat) {
    && IsCopy(calls) && Copied(calls).Ok? && Sent(calls) == sent && 0 < room <= 65536
    && (calls != [] ==> room == |calls[|calls| - 1].data|)
  }

  lemma CopyGoesOn(calls: seq<Call>, sent: seq<Byte>, room: nat, data: seq<Byte>, st: Status)
    requires Copying(calls, sent, room) && 0 < |data| <= room
    ensures var more := calls + [Appending(data, st)];
      && IsCopy(more) && Copied(more) == st && Sent(more) == sent + data
      && (st.Ok? ==> Copying(more, sent + data, |data|))
  {
    var call := Appending(data, st);
    var more := calls + [call];
    assert more[..|calls|] == calls && more[|calls|] == call;
    CopyLonger(calls, call);
  }

  lemma CopyLonger(calls: seq<Call>, call: Call)
    requires IsCopy(calls) && Copied(calls).Ok? && IsAppend(call)
    requires calls != [] ==> |call.data| <= |calls[|calls| - 1].data|
    ensures IsCopy(calls + [call])
  {
    var more := calls + [call];
    forall j, k | 0 <= j < k < |more|
      ensures GoesOn(more[j], more[k])
    {
      assert more[j] == calls[j] && IsAppend(calls[j]) && IsAppend(more[k]);
      if k == |calls| {
        var last := calls[|calls| - 1];
        assert j < |calls| - 1 ==> GoesOn(calls[j], last);
      } else {
        assert more[k] == calls[k];
      }
    }
  }

  /**
   One attempt to publish these bytes: the old file is removed, whatever comes of it; a new one is
   created; the bytes are appended up to the first failure; the file is closed in any case. The
   first failure after the removal is what is reported.
   */
  ghost predicate IsAttempt(calls: seq<Call>, bytes: seq<Byte>, st: Status) {
    && |calls| >= 2 && calls[0].Removal? && calls[1].Creation?
    && if calls[1].st.Failed? then |calls| == 2 && st == calls[1].st
       else
         && |calls| >= 3 && calls[|calls| - 1].Closing? && CopyOf(calls[2..|calls| - 1], bytes)
         && var copied := Copied(calls[2..|calls| - 1]);
            st == if copied.Failed? then copied else calls[|calls| - 1].st
  }

  /** These calls have been made since. */
  ghost predicate Made(before: seq<Call>, calls: seq<Call>, log: seq<Call>) {
    log == before + calls
  }

  lemma MadeMore(before: seq<Call>, calls: seq<Call>, log: seq<Call>, more: seq<Call>, last: seq<Call>)
    requires Made(before, calls, log) && Made(log, more, last)
    ensures Made(before, calls + more, last)
  {}

  lemma ChunkMore(calls: seq<Call>, call: Call, size: nat)
    requires WholeChunks(calls, size) && call.Appending?
    requires |Sent(calls)| < size && |call.data| == Min(65536, size - |Sent(calls)|)
    ensures WholeChunks(calls + [call], size)
  {
    var more := calls + [call];
    assert more[..|calls|] == calls;
    forall k | 0 <= k < |calls|
      ensures more[k] == calls[k] && |calls[k].data| == 65536
    {
      assert calls[k].Appending?;
    }
  }

  lemma CopyIsAttempt(removed: Status, copy: seq<Call>, closed: Status, bytes: seq<Byte>)
    requires CopyOf(copy, bytes)
    ensures IsAttempt([Removal(removed), Creation(Ok)] + copy + [Closing(closed)], bytes,
                      if Copied(copy).Failed? then Copied(copy) else closed)
  {
    var calls := [Removal(removed), Creation(Ok)] + copy + [Closing(closed)];
    assert calls[2..|calls| - 1] == copy;
  }

  class FileHandleWriter {
    const remote: RemotePath
    const staging: StagingFile
    var bytesWritten: nat
    ghost const base: seq<Byte>      // what was staged when the file was opened
    ghost var writes: seq<Patch>     // what WriteAt has actually written since, in order

    ghost predicate Valid()
      reads this, staging
    {
      staging.data == OverlayAll(base, writes)
    }

    constructor (remote: RemotePath, staging: StagingFile)
      ensures Valid() && this.remote == remote && this.staging == staging && base == staging.data
      ensures writes == [] && bytesWritten == 0
    {
      this.remote, this.staging := remote, staging;
      bytesWritten, base, writes := 0, staging.data, [];
    }

    /** Responds to a FUSE write. `remaining` is StatFs's answer, if it gave one. */
    method Write(req: Patch, remaining: Option<nat>) returns (size: nat, st: Status)
      requires Valid()
      modifies this, staging
      ensures Valid() && size <= |req.data|
      ensures st == Failed(TooLarge) <==> remaining.Some? && req.offset >= remaining.value
      ensures st == Failed(TooLarge) ==> size == 0 && writes == old(writes)
      ensures st != Failed(TooLarge) ==> writes == old(writes) + [Patch(req.offset, req.data[..size])]
      ensures st.Ok? ==> size == |req.data|
      ensures st.Failed? ==> st.error == TooLarge || (st.error == staging.refusal && size < |req.data|)
      ensures bytesWritten == old(bytesWritten) + if st.Ok? then size else 0
      ensures staging.healthy ==> st.Ok? || st == Failed(TooLarge)
    {
      if remaining.Some? && req.offset >= remaining.value {
        return 0, Failed(TooLarge);
      }
      size, st := staging.WriteAt(req.data, req.offset);
      OverlayAllMore(base, writes, Patch(req.offset, req.data[..size]));
      writes := writes + [Patch(req.offset, req.data[..size])];
      if st.Ok? {
        bytesWritten := bytesWritten + size;
      }
    }

    /**
     Publishes the staging file: a nil error means the remote file holds what could be read of it. So
     the remote file is the staged one unless a local read failed before its end, which nil conceals.
     */
    method FlushAttempt() returns (st: Status, ghost calls: seq<Call>)
      requires Valid()
      modifies remote, staging`pos, staging`fault
      ensures Valid()
      ensures Made(old(remote.log), calls, remote.log) && IsAttempt(calls, staging.data[..staging.Readable()], st)
      ensures st.Ok? ==> remote.content == Some(staging.data[..staging.Readable()])
      ensures st.Ok? ==>
                (remote.content == Some(staging.data) <==> staging.fault.None? || staging.fault.value >= |staging.data|)
      ensures st.Failed? ==> FromBackend(st.error)
      ensures (remote.healthy ==> st.Ok?) && (staging.healthy ==> staging.fault.None?)
    {
      var removed := remote.Remove();
      st := remote.CreateFile();
      staging.SeekStart();
      calls := [Removal(removed), Creation(st)];
      if st.Failed? {
        return;
      }
      ghost var log, copy := remote.log, [];
      st, copy := Publish();
      MadeMore(old(remote.log), calls, log, copy, remote.log);
      log := remote.log;
      ReadableWhole(staging.data, staging.fault);
      var closed := remote.CloseWriter();
      MadeMore(old(remote.log), calls + copy, log, [Closing(closed)], remote.log);
      calls := calls + copy + [Closing(closed)];
      CopyIsAttempt(removed, copy, closed, staging.data[..staging.Readable()]);
      if st.Ok? {
        st := closed;
      }
    }

    /** The copy loop; each read's length is the next read's room. */
    method Publish() returns (st: Status, ghost calls: seq<Call>)
      requires remote.content == Some([]) && staging.pos == 0
      modifies remote, staging`pos
      ensures remote.content.Some? && Made(old(remote.log), calls, remote.log)
      ensures st == Copied(calls) && CopyOf(calls, staging.data[..staging.Readable()])
      ensures st.Ok? ==> remote.content == Some(staging.data[..staging.Readable()])
      ensures staging.healthy ==> WholeChunks(calls, staging.Readable())
      ensures st.Failed? ==> FromBackend(st.error)
      ensures remote.healthy ==> st.Ok?
    {
      var b := new Byte[CHUNK];
      var room := CHUNK;
      ghost var bytes, sent, whole := staging.data[..staging.Readable()], 0, staging.healthy;
      st, calls := Ok, [];
      ghost var arrived := remote.content;
      assert Passed(arrived, bytes, 0, [], CHUNK, whole);
      var nr, read := ReadOn(b, room, bytes);
      while read.Ok?
        invariant st.Ok? && Made(old(remote.log), calls, remote.log) && 1 <= room <= CHUNK
        invariant sent + nr == staging.pos <= |bytes|
        invariant read.Ok? ==> 1 <= nr <= room && IsChunk(b[..nr], nr, bytes, sent, room, whole)
        invariant read.Failed? ==> sent == |bytes|
        invariant remote.content == arrived && Passed(arrived, bytes, sent, calls, room, whole)
        decreases |bytes| - sent, read.Ok?
      {
        st, calls := PassOn(b[..nr], nr, bytes, sent, calls, room, whole, old(remote.log));
        if st.Failed? {
          return;
        }
        sent, room, arrived := sent + nr, nr, remote.content;
        nr, read := ReadOn(b, room, bytes);
      }
      AllPassed(remote.content, bytes, calls, room, whole);
    }

    /** The next of the bytes that can be read. */
    method ReadOn(b: array<Byte>, room: nat, ghost bytes: seq<Byte>) returns (nr: nat, read: Status)
      requires 0 < room <= b.Length && bytes == staging.data[..staging.Readable()] && staging.pos <= |bytes|
      modifies staging`pos, b
      ensures staging.pos == old(staging.pos) + nr <= |bytes|
      ensures read.Ok? ==> 1 <= nr <= room && IsChunk(b[..nr], nr, bytes, old(staging.pos), room, staging.healthy)
      ensures read.Failed? ==> nr == 0 && staging.pos == |bytes|
    {
      nr, read := staging.Read(b, room);
    }

    /** These are the n bytes at that place: all there is room for, if nothing is wrong. */
    ghost predicate IsChunk(chunk: seq<Byte>, n: nat, bytes: seq<Byte>, at: nat, room: nat, whole: bool) {
      && 1 <= |chunk| == n <= room && at + n <= |bytes| && chunk == bytes[at..at + n]
      && (whole ==> n == Min(room, |bytes| - at))
    }

    /** So many of the bytes have been sent, and have arrived. */
    ghost predicate Passed(content: Option<seq<Byte>>, bytes: seq<Byte>, size: nat, calls: seq<Call>, room: nat,
        whole: bool) {
      && size <= |bytes| && content == Some(bytes[..size]) && Copying(calls, bytes[..size], room)
      && (whole ==> WholeChunks(calls, |bytes|) && (size < |bytes| ==> room == 65536))
    }

    lemma AllPassed(content: Option<seq<Byte>>, bytes: seq<Byte>, calls: seq<Call>, room: nat, whole: bool)
      requires Passed(content, bytes, |bytes|, calls, room, whole)
      ensures CopyOf(calls, bytes) && Copied(calls).Ok? && content == Some(bytes)
      ensures whole ==> WholeChunks(calls, |bytes|)
    {
      assert bytes[..|bytes|] == bytes;
    }

    method PassOn(chunk: seq<Byte>, n: nat, ghost bytes: seq<Byte>, ghost sent: nat, ghost calls: seq<Call>,
        ghost room: nat, ghost whole: bool, ghost before: seq<Call>)
        returns (st: Status, ghost more: seq<Call>)
      requires Made(before, calls, remote.log) && Passed(remote.content, bytes, sent, calls, room, whole)
      requires IsChunk(chunk, n, bytes, sent, room, whole)
      modifies remote
      ensures remote.content.Some? && Made(before, more, remote.log)
      ensures st == Copied(more) && (st.Failed? ==> CopyOf(more, bytes) && (whole ==> WholeChunks(more, |bytes|)))
      ensures st.Ok? ==> Passed(remote.content, bytes, sent + n, more, n, whole)
      ensures st.Failed? ==> FromBackend(st.error)
      ensures remote.healthy ==> st.Ok?
    {
      ghost var log := remote.log;
      st := remote.Append(chunk);
      MadeMore(before, calls, log, [Appending(chunk, st)], remote.log);
      CopyGoesOn(calls, bytes[..sent], room, chunk, st);
      more := calls + [Appending(chunk, st)];
      if whole {
        ChunkMore(calls, Appending(chunk, st), |bytes|);
      }
      assert bytes[..sent] + chunk == bytes[..sent + n];
    }

    /**
     Responds to Flush and Fsync. Nothing is done unless bytes were accepted since the last Flush.
     Otherwise the count of accepted bytes is cleared and there is exactly one attempt: end-of-file,
     the one error the loop would retry, counts as benign.
     */
    method Flush() returns (st: Status, ghost calls: seq<Call>)
      requires Valid()
      modifies this`bytesWritten, remote, staging`pos, staging`fault
      ensures Valid() && bytesWritten == 0 && Made(old(remote.log), calls, remote.log)
      ensures old(bytesWritten) == 0 ==> st.Ok? && calls == [] && remote.content == old(remote.content)
      ensures old(bytesWritten) > 0 ==> IsAttempt(calls, OverlayAll(base, writes)[..staging.Readable()], st)
      ensures old(bytesWritten) > 0 && st.Ok? ==>
                remote.content == Some(OverlayAll(base, writes)[..staging.Readable()])
      // nil means published exactly if nothing is lost to a fault, or nothing was done and it was published before
      ensures st.Ok? ==>
                (remote.content == Some(staging.data) <==>
                 if old(bytesWritten) == 0 then old(remote.content == Some(staging.data))
                 else staging.fault.None? || staging.fault.value >= |staging.data|)
      ensures st.Failed? ==> FromBackend(st.error)
      ensures remote.healthy ==> st.Ok?
      ensures old(bytesWritten) > 0 && staging.healthy ==> staging.fault.None?
    {
      calls := [];
      if bytesWritten == 0 {
        return Ok, calls;
      }
      bytesWritten := 0;
      var again := true;
      st := Ok;
      while again
        invariant Valid() && bytesWritten == 0 && Made(old(remote.log), calls, remote.log)
        invariant again ==> calls == []
        invariant !again ==> IsAttempt(calls, staging.data[..staging.Readable()], st)
        invariant !again && st.Ok? ==> remote.content == Some(staging.data[..staging.Readable()])
        invariant !again && st.Ok? ==>
                    (remote.content == Some(staging.data) <==>
                     staging.fault.None? || staging.fault.value >= |staging.data|)
        invariant st.Failed? ==> FromBackend(st.error)
        invariant (remote.healthy ==> st.Ok?) && (!again && staging.healthy ==> staging.fault.None?)
        decreases again
      {
        st, calls := FlushAttempt();
        var refused: bool := *;   // what ShouldRetry would say
        again := !(st != Failed(Eof) || IsSuccessOrBenign(st) || refused);
      }
    }
  }

  /**
   NewFileHandleWriter: an existing file is copied into the staging area first, but one whose Stat
   fails is treated as empty. A new file replaces whatever was there by an empty one. `disk` is the
   local disk: whether it never fails, and what it says if it does.
   */
  method NewFileHandleWriter(remote: RemotePath, newFile: bool, disk: Disk)
      returns (w: FileHandleWriter?, st: Status, ghost calls: seq<Call>)
    modifies remote
    ensures st.Ok? <==> w != null
    ensures w != null ==> fresh(w) && fresh(w.staging) && w.Valid() && w.remote == remote
    ensures w != null ==> w.writes == [] && w.bytesWritten == 0 && w.staging.healthy == disk.healthy
    ensures Made(old(remote.log), calls, remote.log) && IsOpening(calls, newFile, st, disk)
    ensures w != null && newFile ==> w.base == [] && remote.content.Some? && remote.content.value == []
    ensures w != null && calls == [Stating(calls[0].st)] ==> w.base == []
    ensures w != null && !newFile && calls[0].st.Ok? ==> remote.content == Some(w.base)
    ensures !newFile ==> remote.content == old(remote.content)
    ensures remote.healthy && disk.healthy ==>
              w != null && (!newFile ==> (calls[0].st.Ok? <==> old(remote.content).Some?))
  {
    w, st, calls := null, Ok, [];
    if newFile {
      var removed := remote.Remove();
      st := remote.CreateFile();
      calls := [Removal(removed), Creation(st)];
      if st.Failed? {
        return;
      }
      var closed := remote.CloseWriter();
      calls := calls + [Closing(closed)];
    }
    var made: bool := *;
    if !made && !disk.healthy {
      return null, Failed(disk.refusal), calls;
    }
    var staging := new StagingFile(disk.healthy, disk.refusal);
    if !newFile {
      st := remote.Stat();
      calls := [Stating(st)];
      if st.Ok? {
        var data;
        data, st := remote.Fetch();
        calls := calls + [Fetching(st)];
        var copied: bool := *;
        if st.Ok? && !copied && !disk.healthy {
          st := Failed(disk.refusal);
        }
        if st.Failed? {
          return;
        }
        staging.data, staging.pos := data, |data|;
      }
    }
    w := new FileHandleWriter(remote, staging);
    st := Ok;
  }

  datatype Disk = Disk(healthy: bool, refusal: BackendError)

  /** The calls of opening a file for writing, and the outcome: what HDFS refused, or what the disk says. */
  ghost predicate IsOpening(calls: seq<Call>, newFile: bool, st: Status, disk: Disk) {
    var local := !disk.healthy && st == Failed(disk.refusal);
    if newFile then
      && |calls| >= 2 && calls[0].Removal? && calls[1].Creation?
      && if calls[1].st.Failed? then |calls| == 2 && st == calls[1].st
         else |calls| == 3 && calls[2].Closing? && (st.Ok? || local)
    else if calls == [] then local
    else
      && calls[0].Stating?
      && if calls[0].st.Failed? then |calls| == 1 && st.Ok?
         else |calls| == 2 && calls[1].Fetching? && (st == calls[1].st || (calls[1].st.Ok? && local))
  }

  /** How many bytes a run of write requests carries. */
  function Volume(reqs: seq<Patch>): nat {
    if reqs == [] then 0 else Volume(reqs[..|reqs| - 1]) + |reqs[|reqs| - 1].data|
  }

  lemma OneMore(reqs: seq<Patch>, k: nat)
    requires k < |reqs|
    ensures reqs[..k + 1] == reqs[..k] + [reqs[k]]
    ensures Volume(reqs[..k + 1]) == Volume(reqs[..k]) + |reqs[k].data|
  {
    assert reqs[..k + 1][..k] == reqs[..k];
  }

  /** The writes of a session, until one is not accepted. */
  method WriteAll(w: FileHandleWriter, reqs: seq<Patch>, space: nat -> Option<nat>) returns (accepted: bool)
    requires w.Valid() && w.writes == [] && w.bytesWritten == 0
    modifies w, w.staging
    ensures w.Valid() && (accepted ==> w.writes == reqs && w.bytesWritten == Volume(reqs))
    ensures w.staging.healthy && (forall k | 0 <= k < |reqs| :: space(k).None? || reqs[k].offset < space(k).value) ==>
              accepted
  {
    for k := 0 to |reqs|
      invariant w.Valid() && w.writes == reqs[..k] && w.bytesWritten == Volume(reqs[..k])
    {
      var size, st := w.Write(reqs[k], space(k));
      if st.Failed? {
        return false;
      }
      assert reqs[k] == Patch(reqs[k].offset, reqs[k].data[..size]);
      OneMore(reqs, k);
    }
    assert reqs[..|reqs|] == reqs;
    accepted := true;
  }

  /**
   A whole session: open, write, flush; `space` gives StatFs's answers. If all writes are accepted
   in full and at least one byte is written, a nil Flush means that the remote file holds, byte for
   byte, the last write that covered each position over what was there before, with zeros in the
   gaps, up to where a local read failed: all of it exactly if none failed before the end. When
   nothing fails and the space suffices, that is what happens.
   */
  method Session(remote: RemotePath, newFile: bool, disk: Disk, reqs: seq<Patch>, space: nat -> Option<nat>)
      returns (accepted: bool, flushed: Status, ghost fault: Option<nat>, ghost opening: seq<Call>)
    modifies remote
    ensures disk.healthy ==> fault.None?
    ensures old(remote.log) + opening <= remote.log
    ensures accepted ==> IsOpening(opening, newFile, Ok, disk)
    ensures remote.healthy && disk.healthy &&
            (forall k | 0 <= k < |reqs| :: space(k).None? || reqs[k].offset < space(k).value) ==>
              accepted && flushed.Ok? && (!newFile ==> (opening[0].st.Ok? <==> old(remote.content).Some?))
    ensures accepted && flushed.Ok? && Volume(reqs) > 0 ==>
              var base := if newFile || opening[0].st.Failed? || old(remote.content).None? then []
                          else old(remote.content).value;
              && remote.content.Some? && |remote.content.value| == ReadableUpTo(SizeAfter(base, reqs), fault)
              && forall i: nat | i < |remote.content.value| :: remote.content.value[i] == ByteAfter(base, reqs, i)
  {
    accepted, flushed, fault := false, Ok, None;
    var w, st;
    w, st, opening := NewFileHandleWriter(remote, newFile, disk);
    if w == null {
      return;
    }
    accepted := WriteAll(w, reqs, space);
    if !accepted {
      return;
    }
    ghost var calls;
    flushed, calls := w.Flush();
    if Volume(reqs) > 0 {
      fault := w.staging.fault;
    }
    OverlayAllIsLastWriteWins(w.base, reqs);
  }
}
