/** FaultTolerantHdfsAccessor.go: the retry loop around every metadata call, and around OpenRead. */
module FaultTolerantAccessors {
  import opened Basics
  import opened HdfsBackend
  import opened RetryPolicies
  import opened FaultTolerantReaders

  /** The calls the loop is written out for. Attributes, modes and names are opaque here. */
  datatype Request =
    | EnsureConnected
    | ReadDir(path: string)
    | Stat(path: string)
    | StatFs
    | Mkdir(path: string, mode: int)
    | Remove(path: string)
    | Rename(oldPath: string, newPath: string)
    | Chmod(path: string, mode: int)
    | Chown(path: string, user: string, group: string)

  /** An outcome: the status and, for the calls that have one, the result. */
  datatype Reply = Reply(st: Status, result: int)

  /** What HDFS will answer to the n-th metadata call made over its connection. */
  type Script = (Request, nat) -> Reply

  function Outcome(script: Script, request: Request, n: nat): Reply {
    script(request, n)
  }

  predicate Settles(script: Script, request: Request, n: nat) {
    IsSuccessOrBenign(Outcome(script, request, n).st)
  }

  /** HdfsAccessor as the metadata loops use it. */
  class MetadataConnection {
    const script: Script
    var calls: nat
    var closedAfter: seq<nat>   // for each Close, how many calls had been made before it

    constructor (script: Script)
      ensures this.script == script && calls == 0 && closedAfter == []
    {
      this.script := script;
      calls, closedAfter := 0, [];
    }

    method Perform(request: Request) returns (reply: Reply)
      modifies this`calls
      ensures calls == old(calls) + 1 && reply == Outcome(script, request, old(calls))
    {
      reply := Outcome(script, request, calls);
      calls := calls + 1;
    }

    method Close()
      modifies this`closedAfter
      ensures closedAfter == old(closedAfter) + [calls]
    {
      closedAfter := closedAfter + [calls];
    }
  }

  /** The calls from..to all end in an error worth retrying. */
  predicate Unsettled(script: Script, request: Request, from: nat, to: int) {
    forall i | from <= i < to :: !Settles(script, request, i)
  }

  /** How many calls are made when time does not run out: up to the first one that is settled, at most `budget`. */
  function CallsNeeded(script: Script, request: Request, from: nat, budget: nat): (n: nat)
    requires budget >= 1
    ensures 1 <= n <= budget
    ensures Unsettled(script, request, from, from + n - 1)
    ensures n == budget || Settles(script, request, from + n - 1)
    decreases budget
  {
    if budget == 1 || Settles(script, request, from) then 1
    else 1 + CallsNeeded(script, request, from + 1, budget - 1)
  }

  /** Those bounds single the number out: it is the only number of calls with unsettled outcomes before the last. */
  lemma CallsNeededIsUnique(script: Script, request: Request, from: nat, budget: nat, n: nat)
    requires budget >= 1 && 1 <= n <= budget
    requires Unsettled(script, request, from, from + n - 1)
    ensures n <= CallsNeeded(script, request, from, budget)
    ensures n == budget || Settles(script, request, from + n - 1) ==> n == CallsNeeded(script, request, from, budget)
    decreases n
  {}

  predicate Retried(st: Status) {
    st.Failed? && st.error !in {Eof, Exists, NotExist, Permission}
  }

  /** One Close after each of n - 1 calls that follow the first `from` calls. */
  function ClosesBetween(from: nat, n: nat): (closes: seq<nat>)
    ensures |closes| == Max(0, n - 1) && forall k | 0 <= k < n - 1 :: closes[k] == from + k + 1
  {
    if n <= 1 then [] else ClosesBetween(from, n - 1) + [from + n - 1]
  }

  class FaultTolerantHdfsAccessor {
    const impl: HdfsAccessor
    const connection: MetadataConnection
    const policy: RetryPolicy

    constructor (impl: HdfsAccessor, connection: MetadataConnection, policy: RetryPolicy)
      ensures this.impl == impl && this.connection == connection && this.policy == policy
    {
      this.impl, this.connection, this.policy := impl, connection, policy;
    }

    function Budget(): (n: nat)
      ensures n >= 1
    {
      Max(1, policy.maxAttempts)
    }

    /**
     The loop of EnsureConnected, ReadDir, Stat, StatFs, Mkdir, Remove, Rename, Chmod and Chown.
     It makes n calls. All but the last failed with an error worth retrying, each followed by one
     Close of the connection (EnsureConnected does without); the last call's outcome is returned.
     Unless a failure was met after the deadline, n is exactly CallsNeeded.
     */
    method Retry(request: Request) returns (reply: Reply, ghost n: nat, ghost op: Op)
      modifies connection
      ensures fresh(op) && op.Valid() && op.policy == policy && op.attempt == n
      ensures 1 <= n <= CallsNeeded(connection.script, request, old(connection.calls), Budget())
      ensures n == CallsNeeded(connection.script, request, old(connection.calls), Budget()) || op.asked > op.expires
      ensures connection.calls == old(connection.calls) + n
      ensures reply == Outcome(connection.script, request, old(connection.calls) + n - 1)
      // only errors of other kinds than these four are retried, at most maxAttempts - 1 times
      ensures n == 1 || n <= policy.maxAttempts
      ensures forall i | old(connection.calls) <= i < connection.calls - 1 ::
                Retried(Outcome(connection.script, request, i).st)
      ensures Retried(reply.st) ==> n >= policy.maxAttempts || op.asked > op.expires
      ensures connection.closedAfter ==
              old(connection.closedAfter) +
              if request.EnsureConnected? then [] else ClosesBetween(old(connection.calls), n)
    {
      ghost var script, from := connection.script, connection.calls;
      reply, n, op := RetryLoop(request);
      CallsNeededIsUnique(script, request, from, Budget(), n);
      forall i | from <= i < from + n - 1
        ensures Retried(Outcome(script, request, i).st)
      {
        assert !Settles(script, request, i);
      }
    }

    /** The loop itself, call by call. */
    method RetryLoop(request: Request) returns (reply: Reply, ghost n: nat, ghost op: Op)
      modifies connection
      ensures fresh(op) && op.Valid() && op.policy == policy && op.attempt == n && 1 <= n <= Budget()
      ensures connection.calls == old(connection.calls) + n
      ensures Unsettled(connection.script, request, old(connection.calls), old(connection.calls) + n - 1)
      ensures reply == Outcome(connection.script, request, old(connection.calls) + n - 1)
      ensures n == Budget() || IsSuccessOrBenign(reply.st) || op.asked > op.expires
      ensures request.EnsureConnected? ==> connection.closedAfter == old(connection.closedAfter)
      ensures !request.EnsureConnected? ==>
                connection.closedAfter == old(connection.closedAfter) + ClosesBetween(old(connection.calls), n)
    {
      var start := *;
      var retries := new Op(policy, start);
      ghost var script, from, closed := connection.script, connection.calls, connection.closedAfter;
      op, n, reply := retries, 0, Reply(Ok, 0);
      var again := true;
      while again
        invariant fresh(op) && op == retries && op.Valid() && op.policy == policy
        invariant op.attempt == (if again then n + 1 else n) <= Budget()
        invariant connection.calls == from + n
        invariant Unsettled(script, request, from, from + op.attempt - 1)
        invariant request.EnsureConnected? ==> connection.closedAfter == closed
        invariant !request.EnsureConnected? ==> connection.closedAfter == closed + ClosesBetween(from, op.attempt)
        invariant !again ==> n >= 1 && reply == Outcome(script, request, from + n - 1)
        invariant !again ==> n == Budget() || IsSuccessOrBenign(reply.st) || op.asked > op.expires
        decreases again, policy.maxAttempts - op.attempt
      {
        again, reply := Attempt(request, retries);
        n := n + 1;
      }
    }

    /** One turn of the loop. */
    method Attempt(request: Request, op: Op) returns (again: bool, reply: Reply)
      requires op.Valid() && op.policy == policy
      modifies connection, op
      ensures op.Valid() && connection.calls == old(connection.calls) + 1
      ensures reply == Outcome(connection.script, request, old(connection.calls))
      ensures again ==> !IsSuccessOrBenign(reply.st) && op.attempt == old(op.attempt) + 1 <= policy.maxAttempts
      ensures again && !request.EnsureConnected? ==>
                connection.closedAfter == old(connection.closedAfter) + [connection.calls]
      ensures !again || request.EnsureConnected? ==> connection.closedAfter == old(connection.closedAfter)
      ensures !again ==> op.attempt == old(op.attempt)
      ensures !again ==> IsSuccessOrBenign(reply.st) || op.GivenUp()
    {
      reply := connection.Perform(request);
      again := false;
      if !IsSuccessOrBenign(reply.st) {
        again := op.ShouldRetry();
        if again && !request.EnsureConnected? {
          connection.Close();
        }
      }
    }

    /**
     OpenRead wraps the stream it gets into a fault-tolerant reader that stands at 0. Every attempt but
     the last failed, and was followed by one Close of the connection.
     */
    method OpenRead() returns (reader: FaultTolerantHdfsReader?, st: Status, ghost op: Op)
      modifies connection
      ensures st.Ok? <==> reader != null
      ensures reader != null ==> fresh(reader) && fresh(reader.Repr()) && reader.Valid() && reader.impl != null
      ensures reader != null ==> reader.accessor == impl && reader.policy == policy
      ensures reader != null ==> reader.offset == 0 && reader.fetched == 0 && reader.seekCalls == 0
      ensures st.Failed? ==> st.error in impl.file.errors
      ensures fresh(op) && op.Valid() && op.policy == policy && op.attempt <= Budget()
      ensures |connection.closedAfter| == |old(connection.closedAfter)| + op.attempt - 1
      ensures Retried(st) ==> op.attempt >= policy.maxAttempts || op.asked > op.expires
      ensures impl.file.errors <= {Exists, NotExist, Permission} ==> op.attempt == 1
    {
      var start := *;
      var retries := new Op(policy, start);
      op := retries;
      while true
        invariant fresh(op) && op == retries && op.Valid() && op.policy == policy && op.attempt <= Budget()
        invariant |connection.closedAfter| == |old(connection.closedAfter)| + op.attempt - 1
        invariant impl.file.errors <= {Exists, NotExist, Permission} ==> op.attempt == 1
        decreases policy.maxAttempts - op.attempt
      {
        var stream;
        stream, st := impl.OpenRead();
        if stream != null {
          reader := new FaultTolerantHdfsReader(stream, impl, policy);
          return;
        }
        var again := !IsSuccessOrBenign(st);
        if again {
          again := retries.ShouldRetry();
        }
        if !again {
          return null, st, op;
        }
        connection.Close();
      }
    }
  }
}
