/** FileHandleAsReadSeekCloser.go: a file handle as a stream with a position of its own. */
module FileHandleStreams {
  import opened Basics
  import opened HdfsBackend
  import opened FaultTolerantReaders
  import opened ReadCache
  import opened FileHandles

  class FileHandleAsReadSeekCloser {
    const fileHandle: FileHandle
    var offset: nat
    ghost var Repr: set<object>

    ghost function File(): RemoteFile {
      fileHandle.File()
    }

    /** Open for reading. */
    ghost predicate Valid()
      reads this, Repr
    {
      && this in Repr && fileHandle in Repr && fileHandle.Repr <= Repr && this !in fileHandle.Repr
      && fileHandle.Valid() && fileHandle.reader != null
    }

    /** Fit to serve any request inside the file. */
    ghost predicate Ready()
      reads this, Repr
    {
      Valid() && fileHandle.Ready()
    }

    /** There is a backend stream to close. */
    ghost predicate Closable()
      reads this, Repr
    {
      Valid() && fileHandle.Live()
    }

    constructor (fileHandle: FileHandle)
      requires fileHandle.Ready() && fileHandle.reader != null
      ensures Ready() && this.fileHandle == fileHandle && offset == 0 && Repr == {this} + fileHandle.Repr
    {
      this.fileHandle := fileHandle;
      offset := 0;
      Repr := {this} + fileHandle.Repr;
    }

    /** Reads up to hi - lo bytes at the position and moves it by what was read. */
    method Read(buf: array<Byte>, lo: nat, hi: nat) returns (nr: nat, st: Status)
      requires Valid() && lo <= hi <= buf.Length && buf !in Repr && fileHandle.CanServe(offset, hi - lo)
      modifies this, Repr, buf, fileHandle.accessor.connection
      ensures Valid() && fresh(Repr - old(Repr)) && nr <= hi - lo
      ensures offset == old(offset) + nr
      ensures Answer(File(), old(fileHandle.View()), old(offset), hi - lo, buf[lo..lo + nr], st, fileHandle.View())
      ensures forall i | 0 <= i < buf.Length && !(lo <= i < hi) :: buf[i] == old(buf[i])
      ensures st.Failed? ==> fileHandle.CanServe(offset, hi - lo - nr)
      ensures old(Closable()) && (st.Ok? || Sturdy(fileHandle.accessor.policy, File())) ==> Closable()
    {
      nr, st := fileHandle.Read(offset, buf, lo, hi - lo);
      offset := offset + nr;
      Repr := Repr + fileHandle.Repr;
    }

    /** A virtual operation: nothing is checked before the next Read. */
    method Seek(pos: nat) returns (st: Status)
      modifies this`offset
      ensures offset == pos && st.Ok?
      ensures old(Valid()) ==> Valid()
      ensures old(Ready()) ==> Ready()
    {
      offset := pos;
      st := Ok;
    }

    method Position() returns (pos: nat, st: Status)
      ensures pos == offset && st.Ok?
    {
      return offset, Ok;
    }

    /** The open backend stream behind this adapter. */
    ghost function Stream(): HdfsStream
      requires Closable()
      reads this, Repr
    {
      fileHandle.reader.hdfsReader.impl
    }

    method Close()
      requires Closable()   // else the source dereferences a nil Impl
      modifies this, Repr
      ensures fileHandle.reader == null && Repr == old(Repr) && !old(Stream()).open
    {
      fileHandle.Release();
    }
  }
}
