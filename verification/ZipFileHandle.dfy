/**
 ZipFileHandle.go: a stream that cannot seek, shared by requests that may arrive out of order. Each
 request polls under the lock until its offset is next, then reads.
 */
module ZipFileHandles {
  import opened Basics
  import opened HdfsBackend

  datatype Request = Request(offset: nat, size: nat)
  {
    /** Where the stream stands once the request has been served. */
    function End(content: seq<Byte>): nat {
      Max(offset, Min(offset + size, |content|))
    }
  }

  /** The bytes a request asks for. */
  function Wanted(content: seq<Byte>, r: Request): seq<Byte> {
    Slice(content, r.offset, r.End(content))
  }

  // ---------------------------------------------------------------- the handle

  /** A decompressing stream: reads on from where it stands, in pieces of its own choosing. */
  class ContentStream {
    const content: seq<Byte>
    var pos: nat

    constructor (content: seq<Byte>)
      ensures this.content == content && pos == 0
    {
      this.content, pos := content, 0;
    }

    method Read(buf: array<Byte>, lo: nat) returns (nr: nat, eof: bool)
      requires lo < buf.Length && pos <= |content|
      modifies this, buf
      ensures pos == old(pos) + nr <= |content| && lo + nr <= buf.Length && buf[..lo] == old(buf[..lo])
      ensures buf[lo..lo + nr] == content[old(pos)..pos]
      ensures eof <==> nr == 0
      ensures eof ==> pos == |content|
    {
      if pos == |content| {
        return 0, true;
      }
      nr :| 1 <= nr <= buf.Length - lo && pos + nr <= |content|;
      forall i | 0 <= i < nr {
        buf[lo + i] := content[pos + i];
      }
      pos, eof := pos + nr, false;
    }
  }

  class ZipFileHandle {
    const stream: ContentStream
    var offset: nat

    /** The handle's offset is the stream's. */
    ghost predicate Valid()
      reads this, stream
    {
      offset == stream.pos <= |stream.content|
    }

    constructor (stream: ContentStream)
      requires stream.pos == 0
      ensures Valid() && this.stream == stream && offset == 0
    {
      this.stream, offset := stream, 0;
    }

    /** One turn of Read under the lock: nothing happens unless the request is the next one. */
    method TryRead(req: Request) returns (done: bool, data: seq<Byte>)
      requires Valid()
      modifies this, stream
      ensures Valid()
      ensures done <==> req.offset == old(offset)
      ensures done ==> |data| == Min(req.size, |stream.content| - old(offset))
      ensures done ==> offset == old(offset) + |data| && data == stream.content[old(offset)..offset]
      ensures done ==> data == Wanted(stream.content, req) && offset == req.End(stream.content)
      ensures !done ==> data == [] && offset == old(offset)
    {
      if req.offset != offset {
        return false, [];
      }
      var buffer := new Byte[req.size];
      var nr := ReadFull(buffer);
      offset := offset + nr;
      return true, buffer[..nr];
    }

    /** io.ReadFull; running into the end of the stream is no error here. */
    method ReadFull(buffer: array<Byte>) returns (nr: nat)
      requires Valid()
      modifies stream, buffer
      ensures nr == Min(buffer.Length, |stream.content| - offset) && stream.pos == offset + nr
      ensures buffer[..nr] == stream.content[offset..offset + nr]
    {
      nr := 0;
      var eof := false;
      while nr < buffer.Length && !eof
        invariant nr <= buffer.Length && stream.pos == offset + nr <= |stream.content|
        invariant buffer[..nr] == stream.content[offset..offset + nr]
        invariant eof ==> stream.pos == |stream.content|
        decreases buffer.Length - nr, !eof
      {
        nr, eof := ReadMore(buffer, nr);
      }
    }

    /** One turn of it. */
    method ReadMore(buffer: array<Byte>, nr: nat) returns (more: nat, eof: bool)
      requires nr < buffer.Length && stream.pos == offset + nr <= |stream.content|
      requires buffer[..nr] == stream.content[offset..offset + nr]
      modifies stream, buffer
      ensures more <= buffer.Length && stream.pos == offset + more <= |stream.content|
      ensures buffer[..more] == stream.content[offset..offset + more]
      ensures if eof then stream.pos == |stream.content| && more >= nr else more > nr
    {
      var n;
      ghost var before := buffer[..nr];
      n, eof := stream.Read(buffer, nr);
      assert buffer[..nr + n] == before + buffer[nr..nr + n];
      SlicesJoin(stream.content, offset, offset + nr, offset + nr + n);
      more := nr + n;
    }
  }

  lemma SlicesJoin(content: seq<Byte>, a: nat, b: nat, c: nat)
    requires a <= b <= c <= |content|
    ensures content[a..b] + content[b..c] == content[a..c]
  {}

  // ---------------------------------------------------------------- any interleaving of requests

  type Id = int

  datatype Reply = Reply(request: Request, data: seq<Byte>)

  /** The shared handle: where the stream stands, who waits, and what has been answered, in order. */
  datatype State = State(offset: nat, waiting: map<Id, Request>, replies: seq<Reply>)

  datatype Step = Arrive(id: Id, request: Request) | Serve(id: Id)

  predicate Enabled(s: State, step: Step) {
    match step
    case Arrive(id, _) => id !in s.waiting
    case Serve(id) => id in s.waiting && s.waiting[id].offset == s.offset
  }

  /** Serve is a TryRead that is done. */
  function Apply(content: seq<Byte>, s: State, step: Step): State
    requires Enabled(s, step)
  {
    match step
    case Arrive(id, request) => s.(waiting := s.waiting[id := request])
    case Serve(id) =>
      var request := s.waiting[id];
      State(request.End(content), s.waiting - {id}, s.replies + [Reply(request, Wanted(content, request))])
  }

  function Concat(replies: seq<Reply>): seq<Byte> {
    if replies == [] then [] else Concat(replies[..|replies| - 1]) + replies[|replies| - 1].data
  }

  /** Every reply is right, and in service order they make up the content read so far. */
  ghost predicate Inv(content: seq<Byte>, s: State) {
    && s.offset <= |content|
    && Concat(s.replies) == content[..s.offset]
    && forall k | 0 <= k < |s.replies| :: Complete(content, s.replies[k])
  }

  /** All the request asked for, as far as the content goes. */
  ghost predicate Complete(content: seq<Byte>, reply: Reply) {
    var r, n := reply.request, |reply.data|;
    r.offset <= |content| && n == Min(r.size, |content| - r.offset) && reply.data == content[r.offset..r.offset + n]
  }

  /** A step keeps the invariant; a service answers the one request that is next, and no other. */
  lemma StepKeepsInv(content: seq<Byte>, s: State, step: Step)
    requires Inv(content, s) && Enabled(s, step)
    ensures Inv(content, Apply(content, s, step))
    ensures var t := Apply(content, s, step);
      match step
      case Arrive(id, request) =>
        t.waiting == s.waiting[id := request] && t.replies == s.replies && t.offset == s.offset
      case Serve(id) =>
        && t.waiting == s.waiting - {id} && |t.replies| == |s.replies| + 1 && t.replies[..|s.replies|] == s.replies
        && t.replies[|s.replies|].request == s.waiting[id] && t.offset == s.offset + |t.replies[|s.replies|].data|
  {}

  /** A run from a fresh handle, one step after another. */
  datatype Run = Opened | Then(before: Run, step: Step)
  {
    ghost predicate Possible(content: seq<Byte>)
      decreases this, 0
    {
      Then? ==> before.Possible(content) && Enabled(before.Last(content), step)
    }

    ghost function Last(content: seq<Byte>): State
      requires Possible(content)
      decreases this, 1
    {
      if Opened? then State(0, map[], []) else Apply(content, before.Last(content), step)
    }

    function Arrivals(): nat {
      if Opened? then 0 else before.Arrivals() + if step.Arrive? then 1 else 0
    }
  }

  /** Whatever the arrivals and the order in which goroutines grab the lock. */
  lemma {:induction false} RunKeepsInv(content: seq<Byte>, run: Run)
    requires run.Possible(content)
    ensures Inv(content, run.Last(content))
    ensures run.Arrivals() == |run.Last(content).waiting| + |run.Last(content).replies|
  {
    if run.Then? {
      var s := run.before.Last(content);
      assert run.step.Serve? ==> (s.waiting - {run.step.id}).Keys == s.waiting.Keys - {run.step.id};
      RunKeepsInv(content, run.before);
      StepKeepsInv(content, run.before.Last(content), run.step);
    }
  }

  // ---------------------------------------------------------------- who gets served

  ghost predicate NonEmpty(waiting: map<Id, Request>) {
    forall id | id in waiting :: waiting[id].size > 0
  }

  /** It begins where the stream stands, or where an earlier one ends. */
  ghost predicate Follows(content: seq<Byte>, offset: nat, waiting: map<Id, Request>, r: Request) {
    || r.offset == offset
    || exists p :: p in waiting && waiting[p].offset < r.offset && waiting[p].End(content) == r.offset
  }

  /** Only at the very end of the content may several begin together. */
  ghost predicate Distinct(content: seq<Byte>, waiting: map<Id, Request>) {
    forall p, q | p in waiting && q in waiting && p != q && waiting[p].offset < |content| ::
      waiting[p].offset != waiting[q].offset
  }

  /** The requests tile the content from `offset` on. */
  ghost predicate Tiles(content: seq<Byte>, offset: nat, waiting: map<Id, Request>) {
    && Distinct(content, waiting)
    && forall id {:trigger Follows(content, offset, waiting, waiting[id])} | id in waiting ::
         Follows(content, offset, waiting, waiting[id])
  }

  /** Serving in this order empties the queue. */
  ghost predicate Drains(content: seq<Byte>, offset: nat, waiting: map<Id, Request>, order: seq<Id>)
    decreases |order|
  {
    if order == [] then waiting == map[]
    else
      && order[0] in waiting && waiting[order[0]].offset == offset
      && Drains(content, waiting[order[0]].End(content), waiting - {order[0]}, order[1..])
  }

  ghost predicate Drainable(content: seq<Byte>, offset: nat, waiting: map<Id, Request>) {
    exists order :: Drains(content, offset, waiting, order)
  }

  lemma {:induction false} FirstRequest(waiting: map<Id, Request>) returns (id: Id)
    requires waiting != map[]
    ensures id in waiting && forall q | q in waiting :: waiting[id].offset <= waiting[q].offset
    decreases |waiting|
  {
    assert !(forall k :: k !in waiting) by {
      assert (forall k :: k !in waiting) ==> waiting == map[];
    }
    id :| id in waiting;
    var rest := waiting - {id};
    if rest != map[] {
      assert |rest| < |waiting| by {
        assert rest.Keys == waiting.Keys - {id} && |rest| == |rest.Keys| && |waiting| == |waiting.Keys|;
      }
      var q := FirstRequest(rest);
      assert forall p | p in waiting :: p == id || p in rest;
      if waiting[q].offset < waiting[id].offset {
        id := q;
      }
    } else {
      assert forall p | p in waiting :: p == id || p in rest;
    }
  }

  /** Nobody's turn is past, and if anybody waits somebody is next. */
  lemma TilesServesSomeone(content: seq<Byte>, offset: nat, waiting: map<Id, Request>) returns (id: Id)
    requires Tiles(content, offset, waiting) && waiting != map[]
    ensures id in waiting && waiting[id].offset == offset
    ensures forall q | q in waiting :: waiting[q].offset >= offset
  {
    id := FirstRequest(waiting);
    assert Follows(content, offset, waiting, waiting[id]);
  }

  /** Whoever is served, the rest still tile. */
  lemma TilesKept(content: seq<Byte>, offset: nat, waiting: map<Id, Request>, id: Id)
    requires Tiles(content, offset, waiting) && id in waiting && waiting[id].offset == offset <= |content|
    ensures Tiles(content, waiting[id].End(content), waiting - {id})
  {
    forall q | q in waiting && q != id
      ensures Follows(content, waiting[id].End(content), waiting - {id}, waiting[q])
    {
      assert Follows(content, offset, waiting, waiting[q]);
      FollowsKept(content, offset, waiting, id, q);
    }
  }

  lemma FollowsKept(content: seq<Byte>, offset: nat, waiting: map<Id, Request>, id: Id, q: Id)
    requires Distinct(content, waiting) && id in waiting && waiting[id].offset == offset <= |content|
    requires q in waiting && q != id && Follows(content, offset, waiting, waiting[q])
    ensures Follows(content, waiting[id].End(content), waiting - {id}, waiting[q])
  {
    if waiting[q].offset != offset {
      var p :| p in waiting && waiting[p].offset < waiting[q].offset && waiting[p].End(content) == waiting[q].offset;
      assert p == id || p in waiting - {id};
    }
  }

  lemma {:induction false} TilesDrain(content: seq<Byte>, offset: nat, waiting: map<Id, Request>)
      returns (order: seq<Id>)
    requires Tiles(content, offset, waiting) && offset <= |content|
    ensures Drains(content, offset, waiting, order)
    decreases |waiting|
  {
    order := [];
    if waiting != map[] {
      var id := TilesServesSomeone(content, offset, waiting);
      TilesKept(content, offset, waiting, id);
      var rest := waiting - {id};
      assert |rest| < |waiting| by {
        assert rest.Keys == waiting.Keys - {id} && |rest| == |rest.Keys| && |waiting| == |waiting.Keys|;
      }
      var later := TilesDrain(content, waiting[id].End(content), rest);
      order := [id] + later;
      assert order[1..] == later;
    }
  }

  lemma {:induction false} DrainedTiled(content: seq<Byte>, offset: nat, waiting: map<Id, Request>, order: seq<Id>)
    requires Drains(content, offset, waiting, order) && NonEmpty(waiting) && offset <= |content|
    ensures Tiles(content, offset, waiting)
    decreases |order|
  {
    if order != [] {
      var h, rest := order[0], waiting - {order[0]};
      var next := waiting[h].End(content);
      DrainedTiled(content, next, rest, order[1..]);
      forall q | q in rest
        ensures rest[q].offset >= next && Follows(content, offset, waiting, waiting[q])
      {
        var first := TilesServesSomeone(content, next, rest);
        assert Follows(content, next, rest, rest[q]);
        if rest[q].offset != next {
          var p :| p in rest && rest[p].offset < rest[q].offset && rest[p].End(content) == rest[q].offset;
          assert p in waiting;
        }
      }
    }
  }

  /**
   Pending non-empty requests can all be served exactly when they tile the content from where the
   stream stands. Then no order of grabbing the lock can spoil it: see NoOrderSpoilsIt.
   */
  lemma DrainableIffTiled(content: seq<Byte>, offset: nat, waiting: map<Id, Request>)
    requires NonEmpty(waiting) && offset <= |content|
    ensures Drainable(content, offset, waiting) <==> Tiles(content, offset, waiting)
  {
    if Tiles(content, offset, waiting) {
      var order := TilesDrain(content, offset, waiting);
      HenceDrainable(content, offset, waiting, order);
    } else if Drainable(content, offset, waiting) {
      var order :| Drains(content, offset, waiting, order);
      DrainedTiled(content, offset, waiting, order);
    }
  }

  lemma HenceDrainable(content: seq<Byte>, offset: nat, waiting: map<Id, Request>, order: seq<Id>)
    requires Drains(content, offset, waiting, order)
    ensures Drainable(content, offset, waiting)
  {}

  /** These requests can be served one after the other. */
  ghost predicate Servable(content: seq<Byte>, s: State, order: seq<Id>)
    decreases |order|
  {
    order != [] ==>
      Enabled(s, Serve(order[0])) && Servable(content, Apply(content, s, Serve(order[0])), order[1..])
  }

  ghost function Served(content: seq<Byte>, s: State, order: seq<Id>): State
    requires Servable(content, s, order)
    decreases |order|
  {
    if order == [] then s else Served(content, Apply(content, s, Serve(order[0])), order[1..])
  }

  /**
   Whichever waiting requests have grabbed the lock in whatever order, from tiling requests: each
   service is one request less, and while anybody waits somebody is next. So all complete.
   */
  lemma {:induction false} NoOrderSpoilsIt(content: seq<Byte>, s: State, order: seq<Id>)
    requires s.offset <= |content| && Tiles(content, s.offset, s.waiting) && Servable(content, s, order)
    ensures var t := Served(content, s, order);
      && |t.waiting| == |s.waiting| - |order|
      && (t.waiting == map[] || exists id :: Enabled(t, Serve(id)))
    decreases |order|
  {
    if order == [] {
      if s.waiting != map[] {
        var id := TilesServesSomeone(content, s.offset, s.waiting);
        assert Enabled(s, Serve(id));
      }
    } else {
      var id, rest := order[0], s.waiting - {order[0]};
      TilesKept(content, s.offset, s.waiting, id);
      assert rest.Keys == s.waiting.Keys - {id} && |rest| == |rest.Keys| && |s.waiting| == |s.waiting.Keys|;
      NoOrderSpoilsIt(content, Apply(content, s, Serve(id)), order[1..]);
    }
  }

  /** A request past the end of the content is never served, whatever else happens. */
  lemma PastTheEndWaitsForever(content: seq<Byte>, run: Run, id: Id)
    requires run.Possible(content)
    requires id in run.Last(content).waiting && run.Last(content).waiting[id].offset > |content|
    ensures !Enabled(run.Last(content), Serve(id))
  {
    RunKeepsInv(content, run);
  }
}
