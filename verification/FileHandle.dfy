/** FileHandle.go (reading side): a handle opens its reader on demand and passes reads on to it. */
module FileHandles {
  import opened Basics
  import opened HdfsBackend
  import opened FaultTolerantAccessors
  import opened FaultTolerantReaders
  import opened ReadCache
  import opened FileHandleReaders

  class FileHandle {
    const accessor: FaultTolerantHdfsAccessor
    var reader: FileHandleReader?
    ghost var Repr: set<object>

    ghost function File(): RemoteFile {
      accessor.impl.file
    }

    ghost predicate Valid()
      reads this, Repr
    {
      && this in Repr
      && (reader != null ==>
            && reader in Repr && reader.Repr <= Repr && this !in reader.Repr
            && reader.Valid() && reader.File() == File() && reader.hdfsReader.policy == accessor.policy)
    }

    /** What the reader has cached; a handle without a reader has nothing. */
    ghost function View(): View
      requires Valid()
      reads this, Repr
    {
      if reader == null then FRESH else reader.View()
    }

    /** A Seek would find a stream, or none comes up: a handle without a reader opens one. */
    ghost predicate CanServe(off: nat, size: nat)
      requires Valid()
      reads this, Repr
    {
      reader != null ==> reader.CanServe(off, size)
    }

    /** No failure has left the reader without a stream. */
    ghost predicate Live()
      requires Valid()
      reads this, Repr
    {
      reader != null ==> reader.hdfsReader.impl != null
    }

    /** Truthful so far, and fit to serve any request. */
    ghost predicate Ready()
      reads this, Repr
    {
      Valid() && View().Truthful(File().content) && Live()
    }

    constructor (accessor: FaultTolerantHdfsAccessor)
      ensures Ready() && this.accessor == accessor && reader == null && fresh(Repr)
    {
      this.accessor := accessor;
      reader := null;
      Repr := {this};
    }

    method EnableRead() returns (st: Status)
      requires Valid()
      modifies this, accessor.connection
      ensures Valid() && fresh(Repr - old(Repr)) && View() == old(View())
      ensures reader != null <==> st.Ok?
      ensures if old(reader) != null then reader == old(reader) else Live()
      ensures st.Failed? ==> st.error in File().errors
    {
      if reader != null {
        return Ok;
      }
      var hdfsReader;
      ghost var op;
      hdfsReader, st, op := accessor.OpenRead();
      if hdfsReader != null {
        reader := new FileHandleReader(hdfsReader);
        Repr := Repr + reader.Repr;
      }
    }

    /**
     Responds to a FUSE read of `size` bytes at `off`; nr is the length of resp.Data afterwards. If
     the reader cannot be opened, resp.Data is left as it came, at its full length.
     */
    method Read(off: nat, buf: array<Byte>, lo: nat, size: nat) returns (nr: nat, st: Status)
      requires Valid() && CanServe(off, size) && lo + size <= buf.Length && buf !in Repr
      modifies this, Repr, buf, accessor.connection
      ensures Valid() && fresh(Repr - old(Repr)) && nr <= size
      ensures old(reader) != null ==> reader == old(reader)
      ensures reader == null ==> st.Failed? && nr == size && buf[..] == old(buf[..])
      ensures reader != null ==> Answer(File(), old(View()), off, size, buf[lo..lo + nr], st, View())
      ensures forall i | 0 <= i < buf.Length && !(lo <= i < lo + size) :: buf[i] == old(buf[i])
      ensures reader != null && st.Failed? ==> CanServe(off + nr, size - nr)   // what is missing can be asked for again
      ensures old(Live()) && (st.Ok? || Sturdy(accessor.policy, File())) ==> Live()
    {
      if reader == null {
        st := EnableRead();
        if st.Failed? {
          return size, st;
        }
      }
      nr, st := PassOn(off, buf, lo, size);
    }

    /** Line 76. */
    method PassOn(off: nat, buf: array<Byte>, lo: nat, size: nat) returns (nr: nat, st: Status)
      requires Valid() && reader != null && CanServe(off, size) && lo + size <= buf.Length && buf !in Repr
      modifies this`Repr, reader, reader.Repr, buf
      ensures Valid() && fresh(Repr - old(Repr)) && nr <= size
      ensures Answer(File(), old(View()), off, size, buf[lo..lo + nr], st, View())
      ensures forall i | 0 <= i < buf.Length && !(lo <= i < lo + size) :: buf[i] == old(buf[i])
      ensures CanServe(off + nr, size - nr)
      ensures old(Live()) && (st.Ok? || Sturdy(accessor.policy, File())) ==> Live()
    {
      nr, st := reader.Read(off, buf, lo, size);
      Repr := Repr + reader.Repr;
    }

    /** Release, as far as the reader goes. */
    method Release()
      requires Valid() && Live()   // else the source dereferences a nil Impl
      modifies this, Repr
      ensures reader == null && Repr == old(Repr)
      ensures old(reader) != null ==> !old(reader.hdfsReader.impl).open
    {
      if reader != null {
        reader.Close();
        reader := null;
      }
    }
  }
}
