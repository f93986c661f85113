/**
 What the code relies on from HDFS itself: a file whose content does not change while it is
 being read, streams over it, and the accessor that opens them. The contracts are the
 assumptions; the bodies choose freely within them.
 */
module HdfsBackend {
  import opened Basics

  /** What can go wrong, other than that the file ends. */
  type BackendError = e: Error | FromBackend(e) && e != Eof witness NotExist

  /**
   An immutable remote file. `seekable` says which positions a stream accepts in Seek, and `refusal`
   what it says to the others; `errors` are those that opening and reading may end in. A `prompt` file
   gives as much as is asked for, as long as there is so much.
   */
  datatype RemoteFile = RemoteFile(
    content: seq<Byte>,
    seekable: nat -> bool,
    errors: set<BackendError>,
    refusal: BackendError,
    prompt: bool
  )
  {
    /** Opening and reading never fail. */
    predicate Healthy() {
      errors == {}
    }

    /** An error that this file can be the cause of. */
    predicate Reports(e: Error) {
      FromBackend(e) && (e == Eof || e == refusal || e in errors)
    }

    /** Seeking within the file, or to its end, never fails. */
    ghost predicate SeeksInside() {
      forall p: nat | p <= |content| :: seekable(p)
    }

    /** Nothing goes wrong inside the file. */
    ghost predicate Reliable() {
      Healthy() && SeeksInside()
    }
  }

  /** content[from..to], or nothing where that range is empty. */
  function Slice(content: seq<Byte>, from: nat, to: nat): seq<Byte> {
    if from <= to <= |content| then content[from..to] else []
  }

  /** Any failure but end-of-file. */
  method AnyError() returns (e: Error)
    ensures FromBackend(e) && e != Eof
  {
    if {
      case true => var code := *; e := Other(code);
      case true => e := NotExist;
      case true => e := Permission;
      case true => e := Exists;
    }
  }

  /** HdfsReader: one open stream. */
  class HdfsStream {
    const file: RemoteFile
    var pos: nat
    var open: bool

    constructor (file: RemoteFile)
      ensures this.file == file && pos == 0 && open
    {
      this.file := file;
      pos, open := 0, true;
    }

    /** Reads 1..(hi-lo) bytes into buf[lo..hi], or fails with no bytes and an unmoved position. */
    method Read(buf: array<Byte>, lo: nat, hi: nat) returns (nr: nat, st: Status)
      requires open && lo < hi <= buf.Length
      modifies this`pos, buf
      ensures forall i | 0 <= i < buf.Length && !(lo <= i < hi) :: buf[i] == old(buf[i])
      ensures st.Ok? ==> 1 <= nr <= hi - lo && old(pos) + nr <= |file.content| && pos == old(pos) + nr
      ensures st.Ok? ==> buf[lo..lo + nr] == file.content[old(pos)..old(pos) + nr]
      ensures st.Ok? && file.prompt ==> nr == Min(hi - lo, |file.content| - old(pos))
      ensures st.Failed? ==> nr == 0 && pos == old(pos) && (st.error == Eof || st.error in file.errors)
      ensures st == Failed(Eof) ==> pos >= |file.content|
    {
      var broken: bool := *;
      if broken && file.errors != {} {
        var e :| e in file.errors;
        return 0, Failed(e);
      }
      if pos >= |file.content| {
        return 0, Failed(Eof);
      }
      nr := Min(hi - lo, |file.content| - pos);
      if !file.prompt {
        nr :| 1 <= nr <= hi - lo && nr <= |file.content| - pos;
      }
      forall i | 0 <= i < nr {
        buf[lo + i] := file.content[pos + i];
      }
      pos := pos + nr;
      st := Ok;
    }

    method Seek(p: nat) returns (st: Status)
      requires open
      modifies this`pos
      ensures st.Ok? <==> file.seekable(p)
      ensures pos == if st.Ok? then p else old(pos)
      ensures st.Failed? ==> st.error == file.refusal
    {
      if file.seekable(p) {
        pos := p;
        return Ok;
      }
      return Failed(file.refusal);
    }

    method Close()
      requires open
      modifies this`open
      ensures !open
    {
      open := false;
    }
  }

  /** The part of HdfsAccessor that readers use, for one path. */
  class HdfsAccessor {
    const file: RemoteFile

    constructor (file: RemoteFile)
      ensures this.file == file
    {
      this.file := file;
    }

    method OpenRead() returns (stream: HdfsStream?, st: Status)
      ensures st.Ok? <==> stream != null
      ensures stream != null ==> fresh(stream) && stream.open && stream.pos == 0 && stream.file == file
      ensures st.Failed? ==> st.error in file.errors
    {
      var broken: bool := *;
      if broken && file.errors != {} {
        var e :| e in file.errors;
        return null, Failed(e);
      }
      stream := new HdfsStream(file);
      st := Ok;
    }
  }
}
