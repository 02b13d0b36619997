/**
 * The write buffer handed to callbacks (class `Store` of the store module).
 * Writes are queued in memory; reads go straight onto the transaction's
 * command queue; `Flush` replays the queued writes onto the transaction.
 * `flush` is public, so a callback may call it too.
 */
module Buffer {
  import opened Results
  import Redis

  /** The second argument of `hSet`: an object of fields, or one field name and its value. */
  datatype HSetArg =
    | Fields(fields: map<string, string>)
    | Field(name: string, value: string)

  /** The buffered writes and the command queue of the transaction the store writes to. */
  datatype Store = Store(buffer: seq<Redis.Cmd>, txn: seq<Redis.Cmd>)

  /** A fresh store on a transaction whose queue already holds txn. */
  function Open(txn: seq<Redis.Cmd>): Store {
    Store([], txn)
  }

  /**
   * Replays the buffer onto the transaction one command at a time, oldest
   * first, and leaves the buffer empty.
   */
  function Flush(st: Store): (r: Store)
    ensures r.buffer == []
    ensures r.txn == st.txn + st.buffer
    decreases |st.buffer|
  {
    if |st.buffer| == 0 then Store([], st.txn)
    else
      var next := Store(st.buffer[1..], st.txn + [st.buffer[0]]);
      assert next.txn + next.buffer == st.txn + st.buffer;
      Flush(next)
  }

  /** The command `hSet` records: the object form and the field form stay distinct. */
  function HSetCmd(key: string, arg: HSetArg): Redis.Cmd {
    match arg
    case Fields(m) => Redis.HSetFields(key, m)
    case Field(f, v) => Redis.HSetField(key, f, v)
  }

  function HSet(st: Store, key: string, arg: HSetArg): Store {
    Store(st.buffer + [HSetCmd(key, arg)], st.txn)
  }

  function Set(st: Store, key: string, value: string): Store {
    Store(st.buffer + [Redis.Set(key, value)], st.txn)
  }

  function Del(st: Store, key: string): Store {
    Store(st.buffer + [Redis.Del(key)], st.txn)
  }

  function RPush(st: Store, key: string, values: seq<string>): Store {
    Store(st.buffer + [Redis.RPush(key, values)], st.txn)
  }

  /** `exec(command, ...args)`: queue a command by name, uninterpreted. */
  function Exec(st: Store, command: string, args: seq<string>): Store {
    Store(st.buffer + [Redis.Raw(command, args)], st.txn)
  }

  /** `get`: straight onto the transaction, not the buffer. */
  function Get(st: Store, key: string): Store {
    Store(st.buffer, st.txn + [Redis.Get(key)])
  }

  function LRange(st: Store, key: string, start: int, stop: int): Store {
    Store(st.buffer, st.txn + [Redis.LRange(key, start, stop)])
  }

  /** One call a callback makes on the store it is handed. */
  datatype Call =
    | HSetCall(key: string, arg: HSetArg)
    | SetCall(key: string, value: string)
    | GetCall(key: string)
    | DelCall(key: string)
    | RPushCall(key: string, values: seq<string>)
    | LRangeCall(key: string, start: int, stop: int)
    | ExecCall(command: string, args: seq<string>)
    | FlushCall

  predicate IsReadCall(c: Call) {
    c.GetCall? || c.LRangeCall?
  }

  predicate IsWriteCall(c: Call) {
    !IsReadCall(c) && !c.FlushCall?
  }

  /** The command a call puts on the buffer (a write) or on the transaction (a read). */
  function CmdOf(c: Call): (cmd: Redis.Cmd)
    requires !c.FlushCall?
    ensures Redis.IsRead(cmd) <==> IsReadCall(c)
  {
    match c
    case HSetCall(k, a) => HSetCmd(k, a)
    case SetCall(k, v) => Redis.Set(k, v)
    case GetCall(k) => Redis.Get(k)
    case DelCall(k) => Redis.Del(k)
    case RPushCall(k, vs) => Redis.RPush(k, vs)
    case LRangeCall(k, a, b) => Redis.LRange(k, a, b)
    case ExecCall(n, args) => Redis.Raw(n, args)
  }

  /** One call dispatched to the store operation it names. */
  function Perform(st: Store, c: Call): (r: Store)
    ensures IsReadCall(c) ==> r == Store(st.buffer, st.txn + [CmdOf(c)])
    ensures IsWriteCall(c) ==> r == Store(st.buffer + [CmdOf(c)], st.txn)
    ensures c.FlushCall? ==> r == Store([], st.txn + st.buffer)
  {
    match c
    case HSetCall(k, a) => HSet(st, k, a)
    case SetCall(k, v) => Set(st, k, v)
    case GetCall(k) => Get(st, k)
    case DelCall(k) => Del(st, k)
    case RPushCall(k, vs) => RPush(st, k, vs)
    case LRangeCall(k, a, b) => LRange(st, k, a, b)
    case ExecCall(n, args) => Exec(st, n, args)
    case FlushCall => Flush(st)
  }

  /** A buffered write is replayed after everything queued before it. */
  lemma WriteFlushesLast(st: Store, c: Call)
    requires IsWriteCall(c)
    ensures Perform(st, c).txn == st.txn
    ensures Flush(Perform(st, c)).txn == Flush(st).txn + [CmdOf(c)]
  {
  }

  /** A read lands on the transaction ahead of every write buffered so far. */
  lemma ReadPrecedesBuffered(st: Store, c: Call)
    requires IsReadCall(c)
    ensures Perform(st, c).buffer == st.buffer
    ensures Flush(Perform(st, c)).txn == st.txn + [CmdOf(c)] + st.buffer
  {
  }

  /** No call of calls may change key k. */
  predicate CallsAvoid(calls: seq<Call>, k: string) {
    forall i :: 0 <= i < |calls| ==> calls[i].FlushCall? || !Redis.Touches(CmdOf(calls[i]), k)
  }

  /** The callback never calls `flush` itself. */
  predicate FlushFree(calls: seq<Call>) {
    forall i :: 0 <= i < |calls| ==> !calls[i].FlushCall?
  }

  /** The reads among calls, in call order. */
  function Reads(calls: seq<Call>): (r: seq<Redis.Cmd>)
    ensures forall i :: 0 <= i < |r| ==> Redis.IsRead(r[i])
    decreases |calls|
  {
    if |calls| == 0 then []
    else (if IsReadCall(calls[0]) then [CmdOf(calls[0])] else []) + Reads(calls[1..])
  }

  /** The writes among calls, in call order. */
  function Writes(calls: seq<Call>): (r: seq<Redis.Cmd>)
    ensures forall i :: 0 <= i < |r| ==> !Redis.IsRead(r[i])
    decreases |calls|
  {
    if |calls| == 0 then []
    else (if IsWriteCall(calls[0]) then [CmdOf(calls[0])] else []) + Writes(calls[1..])
  }

  /** Every write of calls is one Redis accepts while queueing. */
  predicate CallsQueueable(calls: seq<Call>) {
    Redis.AllQueueable(Writes(calls))
  }

  /** The calls a callback makes, performed in order. What is queued stays queued. */
  function Run(st: Store, calls: seq<Call>): Store
    decreases |calls|
  {
    if |calls| == 0 then st else Run(Perform(st, calls[0]), calls[1..])
  }

  /**
   * Without flushes of its own, a run buffers exactly the writes and queues
   * exactly the reads, each in call order.
   */
  lemma {:induction false} RunFlushFree(st: Store, calls: seq<Call>)
    requires FlushFree(calls)
    ensures Run(st, calls) == Store(st.buffer + Writes(calls), st.txn + Reads(calls))
    decreases |calls|
  {
    if |calls| > 0 {
      var c, rest := calls[0], calls[1..];
      FlushFreeTail(calls);
      var next := Perform(st, c);
      assert Run(st, calls) == Run(next, rest);
      PerformFlushFree(st, c);
      RunFlushFree(next, rest);
      ReadsConcat([c], rest);
      WritesConcat([c], rest);
      Associative(st.buffer, Writes([c]), Writes(rest));
      Associative(st.txn, Reads([c]), Reads(rest));
    }
  }

  lemma FlushFreeTail(calls: seq<Call>)
    requires FlushFree(calls) && |calls| > 0
    ensures !calls[0].FlushCall? && FlushFree(calls[1..]) && calls == [calls[0]] + calls[1..]
  {
  }

  lemma Associative<T>(a: seq<T>, b: seq<T>, c: seq<T>)
    ensures a + b + c == a + (b + c)
  {
  }

  lemma PerformFlushFree(st: Store, c: Call)
    requires !c.FlushCall?
    ensures Perform(st, c) == Store(st.buffer + Writes([c]), st.txn + Reads([c]))
  {
    assert [c][1..] == [];
    if IsReadCall(c) {
      assert Writes([c]) == [] + [];
      assert Reads([c]) == [CmdOf(c)] + [];
    } else {
      assert Reads([c]) == [] + [];
      assert Writes([c]) == [CmdOf(c)] + [];
    }
  }

  /** The buffer holds writes only. */
  predicate WritesOnly(st: Store) {
    forall i :: 0 <= i < |st.buffer| ==> !Redis.IsRead(st.buffer[i])
  }

  /** One call moves its read to the transaction, or its write to the buffer, or the buffer to the transaction. */
  lemma PerformFilters(st: Store, c: Call)
    requires WritesOnly(st)
    ensures var r := Perform(st, c);
            && WritesOnly(r)
            && Redis.ReadsIn(r.txn) == Redis.ReadsIn(st.txn) + Reads([c])
            && Redis.WritesIn(r.txn) + r.buffer == Redis.WritesIn(st.txn) + st.buffer + Writes([c])
  {
    var r := Perform(st, c);
    assert [c][1..] == [];
    if IsReadCall(c) {
      Redis.FiltersConcat(st.txn, [CmdOf(c)]);
      assert Redis.ReadsIn([CmdOf(c)]) == [CmdOf(c)] + [];
      assert Redis.WritesIn([CmdOf(c)]) == [] + [];
      assert Writes([c]) == [] + [];
    } else if c.FlushCall? {
      Redis.FiltersConcat(st.txn, st.buffer);
      Redis.FiltersOfWrites(st.buffer);
      assert Reads([c]) == [] + [];
      assert Writes([c]) == [] + [];
    } else {
      assert Reads([c]) == [] + [];
      assert Writes([c]) == [CmdOf(c)] + [];
    }
  }

  /**
   * Whatever the calls, the reads reach the transaction in call order and
   * the writes, counting those still buffered, follow one another in call
   * order too.
   */
  lemma {:induction false} RunFilters(st: Store, calls: seq<Call>)
    requires WritesOnly(st)
    ensures var r := Run(st, calls);
            && WritesOnly(r)
            && Redis.ReadsIn(r.txn) == Redis.ReadsIn(st.txn) + Reads(calls)
            && Redis.WritesIn(r.txn) + r.buffer == Redis.WritesIn(st.txn) + st.buffer + Writes(calls)
    decreases |calls|
  {
    if |calls| > 0 {
      var c, rest := calls[0], calls[1..];
      var next := Perform(st, c);
      assert Run(st, calls) == Run(next, rest);
      assert calls == [c] + rest;
      PerformFilters(st, c);
      RunFilters(next, rest);
      ReadsConcat([c], rest);
      WritesConcat([c], rest);
      Associative(Redis.ReadsIn(st.txn), Reads([c]), Reads(rest));
      Associative(Redis.WritesIn(st.txn) + st.buffer, Writes([c]), Writes(rest));
    }
  }

  /** Commands already on the transaction do not change what a run adds after them. */
  lemma {:induction false} RunShift(p: seq<Redis.Cmd>, st: Store, calls: seq<Call>)
    ensures Run(Store(st.buffer, p + st.txn), calls) == Store(Run(st, calls).buffer, p + Run(st, calls).txn)
    decreases |calls|
  {
    if |calls| > 0 {
      var c := calls[0];
      var next := Perform(st, c);
      assert Perform(Store(st.buffer, p + st.txn), c) == Store(next.buffer, p + next.txn) by {
        if IsReadCall(c) {
          assert p + st.txn + [CmdOf(c)] == p + (st.txn + [CmdOf(c)]);
        } else if c.FlushCall? {
          assert p + st.txn + st.buffer == p + (st.txn + st.buffer);
        }
      }
      RunShift(p, next, calls[1..]);
    }
  }

  /** Calls that avoid k buffer writes that avoid k. */
  lemma {:induction false} WritesAvoid(calls: seq<Call>, k: string)
    requires CallsAvoid(calls, k)
    ensures Redis.CmdsAvoid(Writes(calls), k)
    decreases |calls|
  {
    if |calls| > 0 {
      assert CallsAvoid(calls[1..], k);
      WritesAvoid(calls[1..], k);
    }
  }

  lemma {:induction false} ReadsConcat(a: seq<Call>, b: seq<Call>)
    ensures Reads(a + b) == Reads(a) + Reads(b)
    decreases |a|
  {
    if |a| == 0 {
      assert a + b == b;
    } else {
      assert (a + b)[1..] == a[1..] + b;
      ReadsConcat(a[1..], b);
    }
  }

  lemma {:induction false} WritesConcat(a: seq<Call>, b: seq<Call>)
    ensures Writes(a + b) == Writes(a) + Writes(b)
    decreases |a|
  {
    if |a| == 0 {
      assert a + b == b;
    } else {
      assert (a + b)[1..] == a[1..] + b;
      WritesConcat(a[1..], b);
    }
  }

  /** Performing a + b is performing a, then b. */
  lemma {:induction false} RunConcat(st: Store, a: seq<Call>, b: seq<Call>)
    ensures Run(st, a + b) == Run(Run(st, a), b)
    decreases |a|
  {
    if |a| == 0 {
      assert a + b == b;
    } else {
      assert (a + b)[0] == a[0];
      assert (a + b)[1..] == a[1..] + b;
      RunConcat(Perform(st, a[0]), a[1..], b);
    }
  }

  /**
   * What a fresh store hands to its transaction once the callback's calls
   * are made and the store is flushed at the end: the reads in call order
   * and the writes in call order, interleaved as the callback's own flushes
   * dictate; without such flushes, all reads and then all writes.
   */
  function Flushed(calls: seq<Call>): (cmds: seq<Redis.Cmd>)
    ensures Redis.ReadsIn(cmds) == Reads(calls)
    ensures Redis.WritesIn(cmds) == Writes(calls)
    ensures FlushFree(calls) ==> cmds == Reads(calls) + Writes(calls)
  {
    FlushedFilters(calls);
    Flush(Run(Open([]), calls)).txn
  }

  lemma FlushedFilters(calls: seq<Call>)
    ensures var cmds := Flush(Run(Open([]), calls)).txn;
            && Redis.ReadsIn(cmds) == Reads(calls)
            && Redis.WritesIn(cmds) == Writes(calls)
            && (FlushFree(calls) ==> cmds == Reads(calls) + Writes(calls))
  {
    var st := Run(Open([]), calls);
    RunFilters(Open([]), calls);
    Redis.FiltersConcat(st.txn, st.buffer);
    Redis.FiltersOfWrites(st.buffer);
    assert Redis.ReadsIn([]) == [] && Redis.WritesIn([]) == [];
    if FlushFree(calls) {
      RunFlushFree(Open([]), calls);
      assert st == Store(Writes(calls), Reads(calls));
    }
  }

  /** A flush the callback makes cuts the queue in two: what came before it, then what came after. */
  lemma FlushedSplit(a: seq<Call>, b: seq<Call>)
    ensures Flushed(a + [FlushCall] + b) == Flushed(a) + Flushed(b)
  {
    var s0 := Open([]);
    var sa := Run(s0, a);
    var fa := Flushed(a);
    assert fa == sa.txn + sa.buffer;
    assert a + [FlushCall] + b == a + ([FlushCall] + b);
    RunConcat(s0, a, [FlushCall] + b);
    RunConcat(sa, [FlushCall], b);
    assert Run(sa, [FlushCall]) == Perform(sa, FlushCall) by {
      assert [FlushCall][1..] == [];
    }
    assert Run(sa, [FlushCall]) == Store(s0.buffer, fa + s0.txn);
    RunShift(fa, s0, b);
    var rb := Run(s0, b);
    assert Run(s0, a + [FlushCall] + b) == Store(rb.buffer, fa + rb.txn);
    assert fa + rb.txn + rb.buffer == fa + (rb.txn + rb.buffer);
  }

  /** Before the callback's first flush, its reads open the queue. */
  lemma FlushedLeadingReads(b: seq<Call>, rest: seq<Call>)
    requires FlushFree(b)
    ensures |Reads(b)| <= |Flushed(b + rest)|
    ensures Flushed(b + rest)[..|Reads(b)|] == Reads(b)
  {
    var s0 := Open([]);
    var sb := Store(Writes(b), []);
    RunConcat(s0, b, rest);
    assert Run(s0, b) == Store(sb.buffer, Reads(b) + sb.txn) by {
      RunFlushFree(s0, b);
      assert [] + Writes(b) == Writes(b);
      assert [] + Reads(b) == Reads(b) + [];
    }
    RunShift(Reads(b), sb, rest);
    var r := Run(sb, rest);
    assert Run(s0, b + rest) == Store(r.buffer, Reads(b) + r.txn);
    LeadingPrefix(Reads(b), r.txn, r.buffer);
  }

  lemma LeadingPrefix(p: seq<Redis.Cmd>, a: seq<Redis.Cmd>, b: seq<Redis.Cmd>)
    ensures Flush(Store(b, p + a)).txn[..|p|] == p
  {
    assert p + a + b == p + (a + b);
  }

  /**
   * Reads do not see the same commit's buffered writes: each read made
   * before the callback's first flush replies as on the state before the
   * commit, whatever is queued after it.
   */
  lemma ReadIsolation(raw: Redis.RawEffect, db: Redis.Db, b: seq<Call>, rest: seq<Call>,
                      later: seq<Redis.Cmd>, i: nat)
    requires FlushFree(b)
    requires i < |Reads(b)|
    ensures i < |Flushed(b + rest)|
    ensures Redis.Exec(raw, db, Flushed(b + rest) + later).replies[i]
         == Redis.Apply(raw, db, Reads(b)[i]).reply
  {
    var cmds := Flushed(b + rest) + later;
    var front := Reads(b);
    FlushedLeadingReads(b, rest);
    assert cmds == front + cmds[|front|..];
    Redis.LeadingReadReply(raw, db, front, cmds[|front|..], i);
  }

  /**
   * A read sees exactly the writes flushed before it: a read made after a
   * flush and before the next one replies as on the state the writes made
   * before that flush leave, and no write made after it.
   */
  lemma ReadSeesFlushedWrites(raw: Redis.RawEffect, db: Redis.Db, a: seq<Call>, b: seq<Call>, rest: seq<Call>,
                              later: seq<Redis.Cmd>, i: nat)
    requires FlushFree(b)
    requires i < |Reads(b)|
    ensures var cmds := Flushed(a + [FlushCall] + b + rest) + later;
            && |Flushed(a)| + i < |cmds|
            && Redis.Exec(raw, db, cmds).replies[|Flushed(a)| + i]
               == Redis.Apply(raw, Redis.Exec(raw, db, Writes(a)).db, Reads(b)[i]).reply
  {
    var fa := Flushed(a);
    var tail := Flushed(b + rest) + later;
    assert a + [FlushCall] + b + rest == a + [FlushCall] + (b + rest);
    FlushedSplit(a, b + rest);
    assert Flushed(a + [FlushCall] + b + rest) + later == fa + tail;
    Redis.ExecConcat(raw, db, fa, tail);
    Redis.ExecSkipsReads(raw, db, fa);
    var mid := Redis.Exec(raw, db, fa).db;
    ReadIsolation(raw, mid, b, rest, later, i);
    FlushedLeadingReads(b, rest);
  }

  /**
   * Applying a flushed commit followed by later commands has the effect of
   * its writes alone, then the later commands.
   */
  lemma CommitEffect(raw: Redis.RawEffect, db: Redis.Db, calls: seq<Call>, later: seq<Redis.Cmd>)
    ensures Redis.Exec(raw, db, Flushed(calls) + later).db
         == Redis.Exec(raw, Redis.Exec(raw, db, Writes(calls)).db, later).db
  {
    Redis.ExecConcat(raw, db, Flushed(calls), later);
    Redis.ExecSkipsReads(raw, db, Flushed(calls));
  }

  /** A commit can be queued exactly when every write of its callback can. */
  lemma FlushedQueueable(calls: seq<Call>)
    ensures Redis.AllQueueable(Flushed(calls)) <==> CallsQueueable(calls)
  {
    Redis.QueueableWrites(Flushed(calls));
  }

  /** A key no call touches keeps its value through the calls' writes. */
  lemma WritesFrame(raw: Redis.RawEffect, db: Redis.Db, calls: seq<Call>, k: string)
    requires CallsAvoid(calls, k)
    ensures Redis.Lookup(Redis.Exec(raw, db, Writes(calls)).db, k) == Redis.Lookup(db, k)
  {
    WritesAvoid(calls, k);
    Redis.ExecFrame(raw, db, Writes(calls), k);
  }

  /**
   * Flush replays in queue order, so the last write to a key wins:
   * `set k a; del k; set k v` leaves k = v, flushes of the callback's own
   * included.
   */
  lemma BufferedLastSetWins(raw: Redis.RawEffect, db: Redis.Db, before: seq<Call>, k: string, v: string, after: seq<Call>)
    requires CallsAvoid(after, k)
    ensures Redis.Lookup(Redis.Exec(raw, db, Flushed(before + [SetCall(k, v)] + after)).db, k)
         == Some(Redis.Str(v))
  {
    var calls := before + [SetCall(k, v)] + after;
    var txn := Flushed(calls);
    CommitEffect(raw, db, calls, []);
    assert txn + [] == txn;
    WritesConcat(before + [SetCall(k, v)], after);
    WritesConcat(before, [SetCall(k, v)]);
    assert Writes([SetCall(k, v)]) == [Redis.Set(k, v)];
    assert Writes(calls) == Writes(before) + [Redis.Set(k, v)] + Writes(after);
    WritesAvoid(after, k);
    Redis.LastSetWins(raw, db, Writes(before), k, v, Writes(after));
    var mid := Redis.Exec(raw, db, Writes(calls)).db;
    assert Redis.Exec(raw, mid, []).db == mid;
  }
}
