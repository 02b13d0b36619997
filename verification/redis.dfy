/**
 * The key-value backend the store writes to, reduced to what the commit
 * protocols use: string, hash and list values under string keys, the
 * commands a transaction can queue, and `exec` as the in-order application
 * of the queued commands.
 */
module Redis {
  import opened Results

  datatype Value =
    | Str(s: string)
    | Hash(fields: map<string, string>)
    | List(items: seq<string>)

  /** The whole key space. */
  type Db = map<string, Value>

  /**
   * A command on a transaction's queue. `Raw` is a command queued by name
   * through the store's escape hatch; its effect is not interpreted here.
   */
  datatype Cmd =
    | HSetFields(key: string, fields: map<string, string>)
    | HSetField(key: string, field: string, value: string)
    | Set(key: string, value: string)
    | Del(key: string)
    | RPush(key: string, values: seq<string>)
    | Get(key: string)
    | LRange(key: string, start: int, stop: int)
    | Raw(name: string, args: seq<string>)

  predicate IsRead(c: Cmd) {
    c.Get? || c.LRange?
  }

  /** Whether c may change key k. A raw command may change any key. */
  predicate Touches(c: Cmd, k: string) {
    c.Raw? || (!IsRead(c) && c.key == k)
  }

  /** No command of cmds may change key k. */
  predicate CmdsAvoid(cmds: seq<Cmd>, k: string) {
    forall i :: 0 <= i < |cmds| ==> !Touches(cmds[i], k)
  }

  /** What a raw command does to the key space; a parameter of the model. */
  type RawEffect = (Db, string, seq<string>) -> Db

  datatype RedisError = WrongType | WrongArity

  /** The reply a command leaves in `exec`'s result array. */
  datatype Reply =
    | Nil
    | Bulk(s: string)
    | Items(items: seq<string>)
    | Done
    | Error(error: RedisError)
    | RawReply

  function Lookup(db: Db, k: string): Option<Value> {
    if k in db then Some(db[k]) else None
  }

  /** GET: the string at k, None when k is not set, WrongType on a hash or list. */
  function StringAt(db: Db, k: string): (r: Result<Option<string>, RedisError>)
    ensures r == Ok(None) <==> k !in db
    ensures r.Ok? && r.value.Some? <==> k in db && db[k].Str?
    ensures r.Ok? && r.value.Some? ==> db[k] == Str(r.value.value)
  {
    match Lookup(db, k)
    case None => Ok(None)
    case Some(Str(s)) => Ok(Some(s))
    case Some(_) => Err(WrongType)
  }

  /**
   * LRANGE's index rules: negative indices count from the end, a start
   * before the list is clamped to 0, a stop past the end is clamped to the
   * last element, and an empty range gives no elements.
   */
  function Slice(xs: seq<string>, start: int, stop: int): (r: seq<string>)
    ensures |r| <= |xs|
    ensures start == 0 && stop == -1 ==> r == xs
  {
    var n := |xs|;
    var first := if start < 0 then (if start + n < 0 then 0 else start + n) else start;
    var last0 := if stop < 0 then stop + n else stop;
    var last := if last0 >= n then n - 1 else last0;
    if first > last || first >= n then [] else xs[first..last + 1]
  }

  /** LRANGE: the selected elements of the list at k; an unset key reads as the empty list. */
  function RangeAt(db: Db, k: string, start: int, stop: int): (r: Result<seq<string>, RedisError>)
    ensures r.Err? <==> k in db && !db[k].List?
    ensures k !in db ==> r == Ok([])
    ensures start == 0 && stop == -1 && k in db && db[k].List? ==> r == Ok(db[k].items)
  {
    match Lookup(db, k)
    case None => Ok([])
    case Some(List(xs)) => Ok(Slice(xs, start, stop))
    case Some(_) => Err(WrongType)
  }

  datatype Step = Step(db: Db, reply: Reply)

  function GetReply(db: Db, k: string): Reply {
    match StringAt(db, k)
    case Ok(None) => Nil
    case Ok(Some(s)) => Bulk(s)
    case Err(e) => Error(e)
  }

  function RangeReply(db: Db, k: string, start: int, stop: int): Reply {
    match RangeAt(db, k, start, stop)
    case Ok(xs) => Items(xs)
    case Err(e) => Error(e)
  }

  /**
   * HSET: merge fields into the hash at k, creating it when k is not set.
   * A transaction never runs an HSET without fields (see `Commit`); the
   * arity error here only keeps the function total.
   */
  function HashSet(db: Db, k: string, fields: map<string, string>): (r: Step)
    ensures forall j :: j != k ==> Lookup(r.db, j) == Lookup(db, j)
    ensures r.reply.Error? ==> r.db == db
    ensures |fields| > 0 && k !in db ==> r == Step(db[k := Hash(fields)], Done)
    ensures |fields| > 0 && k in db && db[k].Hash? ==> Lookup(r.db, k) == Some(Hash(db[k].fields + fields))
    ensures k in db && !db[k].Hash? ==> r.reply.Error? && (|fields| > 0 ==> r.reply.error == WrongType)
  {
    if |fields| == 0 then Step(db, Error(WrongArity))
    else match Lookup(db, k)
      case None => Step(db[k := Hash(fields)], Done)
      case Some(Hash(h)) => Step(db[k := Hash(h + fields)], Done)
      case Some(_) => Step(db, Error(WrongType))
  }

  /**
   * RPUSH: append values to the list at k, creating it when k is not set.
   * As with HSET, a transaction never runs one without values.
   */
  function ListPush(db: Db, k: string, values: seq<string>): (r: Step)
    ensures forall j :: j != k ==> Lookup(r.db, j) == Lookup(db, j)
    ensures r.reply.Error? ==> r.db == db
    ensures |values| > 0 && (k !in db || db[k].List?) ==> Lookup(r.db, k) == Some(List(ItemsAt(db, k) + values))
    ensures k in db && !db[k].List? ==> r.reply.Error? && (|values| > 0 ==> r.reply.error == WrongType)
  {
    if |values| == 0 then Step(db, Error(WrongArity))
    else match Lookup(db, k)
      case None =>
        assert ItemsAt(db, k) + values == values;
        Step(db[k := List(values)], Done)
      case Some(List(xs)) => Step(db[k := List(xs + values)], Done)
      case Some(_) => Step(db, Error(WrongType))
  }

  /**
   * One command as a transaction's EXEC runs it. A command that fails
   * (wrong type, no values) leaves the key space as it was and puts an
   * error in its reply slot; the other commands of the transaction still run.
   */
  function Apply(raw: RawEffect, db: Db, c: Cmd): (r: Step)
    ensures IsRead(c) ==> r.db == db
    ensures r.reply.Error? ==> r.db == db
  {
    match c
    case HSetFields(k, m) => HashSet(db, k, m)
    case HSetField(k, f, v) => HashSet(db, k, map[f := v])
    case Set(k, v) => Step(db[k := Str(v)], Done)
    case Del(k) => Step(db - {k}, Done)
    case RPush(k, vs) => ListPush(db, k, vs)
    case Get(k) => Step(db, GetReply(db, k))
    case LRange(k, start, stop) => Step(db, RangeReply(db, k, start, stop))
    case Raw(name, args) => Step(raw(db, name, args), RawReply)
  }

  /** A command changes only the key it names (a raw command aside). */
  lemma ApplyFrame(raw: RawEffect, db: Db, c: Cmd, k: string)
    requires !Touches(c, k)
    ensures Lookup(Apply(raw, db, c).db, k) == Lookup(db, k)
  {
  }

  datatype ExecResult = ExecResult(db: Db, replies: seq<Reply>)

  /** EXEC: run the queued commands in order; one reply per command. */
  function Exec(raw: RawEffect, db: Db, cmds: seq<Cmd>): (r: ExecResult)
    ensures |r.replies| == |cmds|
    decreases |cmds|
  {
    if |cmds| == 0 then ExecResult(db, [])
    else
      var step := Apply(raw, db, cmds[0]);
      var rest := Exec(raw, step.db, cmds[1..]);
      ExecResult(rest.db, [step.reply] + rest.replies)
  }

  /** Running a + b is running a, then running b on what a left. */
  lemma {:induction false} ExecConcat(raw: RawEffect, db: Db, a: seq<Cmd>, b: seq<Cmd>)
    ensures Exec(raw, db, a + b).db == Exec(raw, Exec(raw, db, a).db, b).db
    ensures Exec(raw, db, a + b).replies
         == Exec(raw, db, a).replies + Exec(raw, Exec(raw, db, a).db, b).replies
    decreases |a|
  {
    if |a| == 0 {
      assert a + b == b;
    } else {
      var ab := a + b;
      assert ab[0] == a[0];
      assert ab[1..] == a[1..] + b;
      var step := Apply(raw, db, a[0]);
      ExecConcat(raw, step.db, a[1..], b);
      var r1 := Exec(raw, step.db, a[1..]).replies;
      var r2 := Exec(raw, Exec(raw, step.db, a[1..]).db, b).replies;
      assert [step.reply] + (r1 + r2) == ([step.reply] + r1) + r2;
    }
  }

  /** A queue of one command is that command. */
  lemma ExecOne(raw: RawEffect, db: Db, c: Cmd)
    ensures Exec(raw, db, [c]).db == Apply(raw, db, c).db
  {
  }

  /** The reply at position i is what command i gives on the state the commands before it left. */
  lemma {:induction false} ExecReplyAt(raw: RawEffect, db: Db, cmds: seq<Cmd>, i: nat)
    requires i < |cmds|
    ensures Exec(raw, db, cmds).replies[i] == Apply(raw, Exec(raw, db, cmds[..i]).db, cmds[i]).reply
  {
    ExecConcat(raw, db, cmds[..i], cmds[i..]);
    assert cmds == cmds[..i] + cmds[i..];
    assert cmds[i..][0] == cmds[i];
  }

  /** A key no command touches keeps its value through EXEC. */
  lemma {:induction false} ExecFrame(raw: RawEffect, db: Db, cmds: seq<Cmd>, k: string)
    requires CmdsAvoid(cmds, k)
    ensures Lookup(Exec(raw, db, cmds).db, k) == Lookup(db, k)
    decreases |cmds|
  {
    if |cmds| > 0 {
      ApplyFrame(raw, db, cmds[0], k);
      ExecFrame(raw, Apply(raw, db, cmds[0]).db, cmds[1..], k);
    }
  }

  /** Reads change nothing: a queue of reads leaves the key space as it found it. */
  lemma {:induction false} ExecReadsKeepState(raw: RawEffect, db: Db, cmds: seq<Cmd>)
    requires forall i :: 0 <= i < |cmds| ==> IsRead(cmds[i])
    ensures Exec(raw, db, cmds).db == db
    decreases |cmds|
  {
    if |cmds| > 0 {
      ExecReadsKeepState(raw, db, cmds[1..]);
    }
  }

  /** Reads queued ahead of other commands do not change what those commands do. */
  lemma ExecAfterReads(raw: RawEffect, db: Db, front: seq<Cmd>, rest: seq<Cmd>, later: seq<Cmd>)
    requires forall i :: 0 <= i < |front| ==> IsRead(front[i])
    ensures Exec(raw, db, front + (rest + later)).db == Exec(raw, Exec(raw, db, rest).db, later).db
  {
    ExecConcat(raw, db, front, rest + later);
    ExecReadsKeepState(raw, db, front);
    ExecConcat(raw, db, rest, later);
  }

  /** The items of the list at k; an unset key is the empty list. */
  function ItemsAt(db: Db, k: string): seq<string> {
    if k in db && db[k].List? then db[k].items else []
  }

  /** RPUSH of one entry onto a list (or an unset key) grows it by exactly that entry. */
  lemma PushOne(raw: RawEffect, db: Db, k: string, e: string)
    requires k !in db || db[k].List?
    ensures Lookup(Exec(raw, db, [RPush(k, [e])]).db, k) == Some(List(ItemsAt(db, k) + [e]))
  {
    ExecOne(raw, db, RPush(k, [e]));
    if k !in db {
      assert ItemsAt(db, k) + [e] == [e];
    }
  }

  /** One single-entry RPUSH per entry, in entry order. */
  function PushEach(k: string, entries: seq<string>): (r: seq<Cmd>)
    ensures |r| == |entries|
    ensures forall j :: j != k ==> CmdsAvoid(r, j)
  {
    seq(|entries|, i requires 0 <= i < |entries| => RPush(k, [entries[i]]))
  }

  /** Pushing entries one by one onto an unset key builds exactly the list of entries. */
  lemma {:induction false} PushEachBuilds(raw: RawEffect, db: Db, k: string, entries: seq<string>)
    requires k !in db
    ensures Lookup(Exec(raw, db, PushEach(k, entries)).db, k)
         == if |entries| == 0 then None else Some(List(entries))
    decreases |entries|
  {
    if |entries| > 0 {
      var n := |entries|;
      var init := entries[..n - 1];
      assert PushEach(k, entries) == PushEach(k, init) + [RPush(k, [entries[n - 1]])];
      ExecConcat(raw, db, PushEach(k, init), [RPush(k, [entries[n - 1]])]);
      PushEachBuilds(raw, db, k, init);
      var mid := Exec(raw, db, PushEach(k, init)).db;
      PushOne(raw, mid, k, entries[n - 1]);
      assert ItemsAt(mid, k) == init;
      assert init + [entries[n - 1]] == entries;
    }
  }

  /** The reply of each read in a leading run of reads is its reply on the starting state. */
  lemma LeadingReadReply(raw: RawEffect, db: Db, front: seq<Cmd>, rest: seq<Cmd>, i: nat)
    requires forall j :: 0 <= j < |front| ==> IsRead(front[j])
    requires i < |front|
    ensures Exec(raw, db, front + rest).replies[i] == Apply(raw, db, front[i]).reply
  {
    var all := front + rest;
    ExecReplyAt(raw, db, all, i);
    assert all[..i] == front[..i];
    assert all[i] == front[i];
    ExecReadsKeepState(raw, db, front[..i]);
  }

  /**
   * Last write wins: after SET k v, commands that do not touch k leave k
   * holding v, whatever came before.
   */
  lemma LastSetWins(raw: RawEffect, db: Db, before: seq<Cmd>, k: string, v: string, after: seq<Cmd>)
    requires CmdsAvoid(after, k)
    ensures Lookup(Exec(raw, db, before + [Set(k, v)] + after).db, k) == Some(Str(v))
  {
    var mid := Exec(raw, db, before + [Set(k, v)]).db;
    ExecConcat(raw, db, before + [Set(k, v)], after);
    ExecConcat(raw, db, before, [Set(k, v)]);
    ExecFrame(raw, mid, after, k);
  }

  /**
   * EXEC does not roll back: a command that fails on the value it meets
   * (WRONGTYPE) only fills its reply slot with an error, and the commands
   * queued after it take effect as if it had not been queued.
   */
  lemma NoRollback(raw: RawEffect, db: Db, bad: Cmd, rest: seq<Cmd>)
    requires Apply(raw, db, bad).reply == Error(WrongType)
    ensures Exec(raw, db, [bad] + rest).replies[0].Error?
    ensures Exec(raw, db, [bad] + rest).db == Exec(raw, db, rest).db
  {
  }

  /** Likewise after DEL k: k stays unset. */
  lemma LastDelWins(raw: RawEffect, db: Db, before: seq<Cmd>, k: string, after: seq<Cmd>)
    requires CmdsAvoid(after, k)
    ensures Lookup(Exec(raw, db, before + [Del(k)] + after).db, k) == None
  {
    var mid := Exec(raw, db, before + [Del(k)]).db;
    ExecConcat(raw, db, before + [Del(k)], after);
    ExecConcat(raw, db, before, [Del(k)]);
    ExecFrame(raw, mid, after, k);
  }

  // ---------------------------------------------------------------------
  // The reads and the writes of a queue
  // ---------------------------------------------------------------------

  /** The reads of cmds, in queue order. */
  function ReadsIn(cmds: seq<Cmd>): (r: seq<Cmd>)
    ensures forall i :: 0 <= i < |r| ==> IsRead(r[i])
    decreases |cmds|
  {
    if |cmds| == 0 then []
    else (if IsRead(cmds[0]) then [cmds[0]] else []) + ReadsIn(cmds[1..])
  }

  /** The other commands of cmds, in queue order. */
  function WritesIn(cmds: seq<Cmd>): (r: seq<Cmd>)
    ensures forall i :: 0 <= i < |r| ==> !IsRead(r[i])
    decreases |cmds|
  {
    if |cmds| == 0 then []
    else (if IsRead(cmds[0]) then [] else [cmds[0]]) + WritesIn(cmds[1..])
  }

  lemma {:induction false} FiltersConcat(a: seq<Cmd>, b: seq<Cmd>)
    ensures ReadsIn(a + b) == ReadsIn(a) + ReadsIn(b)
    ensures WritesIn(a + b) == WritesIn(a) + WritesIn(b)
    decreases |a|
  {
    if |a| == 0 {
      assert a + b == b;
    } else {
      assert (a + b)[0] == a[0];
      assert (a + b)[1..] == a[1..] + b;
      FiltersConcat(a[1..], b);
    }
  }

  /** A queue without reads is its own write part and has no read part. */
  lemma {:induction false} FiltersOfWrites(cmds: seq<Cmd>)
    requires forall i :: 0 <= i < |cmds| ==> !IsRead(cmds[i])
    ensures ReadsIn(cmds) == []
    ensures WritesIn(cmds) == cmds
    decreases |cmds|
  {
    if |cmds| > 0 {
      FiltersOfWrites(cmds[1..]);
      assert [cmds[0]] + cmds[1..] == cmds;
    }
  }

  /** Reads change nothing, wherever they sit: EXEC leaves what the writes alone leave. */
  lemma {:induction false} ExecSkipsReads(raw: RawEffect, db: Db, cmds: seq<Cmd>)
    ensures Exec(raw, db, cmds).db == Exec(raw, db, WritesIn(cmds)).db
    decreases |cmds|
  {
    if |cmds| > 0 {
      var step := Apply(raw, db, cmds[0]);
      ExecSkipsReads(raw, step.db, cmds[1..]);
      if !IsRead(cmds[0]) {
        var w := WritesIn(cmds[1..]);
        assert WritesIn(cmds) == [cmds[0]] + w;
        assert ([cmds[0]] + w)[0] == cmds[0];
        assert ([cmds[0]] + w)[1..] == w;
        assert Exec(raw, db, [cmds[0]] + w).db == Exec(raw, step.db, w).db;
      } else {
        assert step.db == db;
        assert WritesIn(cmds) == [] + WritesIn(cmds[1..]);
        assert [] + WritesIn(cmds[1..]) == WritesIn(cmds[1..]);
      }
    }
  }

  // ---------------------------------------------------------------------
  // MULTI ... EXEC
  // ---------------------------------------------------------------------

  /**
   * Whether Redis accepts c while queueing it: HSET needs at least one
   * field and RPUSH at least one value, or the command has the wrong
   * number of arguments.
   */
  predicate Queueable(c: Cmd) {
    match c
    case HSetFields(_, m) => |m| > 0
    case RPush(_, vs) => |vs| > 0
    case _ => true
  }

  predicate AllQueueable(cmds: seq<Cmd>) {
    forall i :: 0 <= i < |cmds| ==> Queueable(cmds[i])
  }

  /** What EXEC answers: the replies of a run, or EXECABORT when queueing rejected a command. */
  datatype Outcome = Committed(result: ExecResult) | ExecAbort

  /**
   * A whole transaction: when any queued command was rejected while
   * queueing, EXEC aborts and runs none of them; otherwise it runs them all.
   */
  function Commit(raw: RawEffect, db: Db, cmds: seq<Cmd>): (r: Outcome)
    ensures r.ExecAbort? <==> exists i :: 0 <= i < |cmds| && !Queueable(cmds[i])
    ensures r.Committed? ==> |r.result.replies| == |cmds|
  {
    if AllQueueable(cmds) then Committed(Exec(raw, db, cmds)) else ExecAbort
  }

  /** The key space after a transaction: unchanged when it aborted. */
  function After(db: Db, o: Outcome): Db {
    match o
    case Committed(e) => e.db
    case ExecAbort => db
  }

  lemma {:induction false} AllQueueableConcat(a: seq<Cmd>, b: seq<Cmd>)
    ensures AllQueueable(a + b) <==> AllQueueable(a) && AllQueueable(b)
  {
    if AllQueueable(a) && AllQueueable(b) {
      forall i | 0 <= i < |a + b|
        ensures Queueable((a + b)[i])
      {
        if i >= |a| {
          assert (a + b)[i] == b[i - |a|];
        }
      }
    }
    if AllQueueable(a + b) {
      forall i | 0 <= i < |a|
        ensures Queueable(a[i])
      {
        assert (a + b)[i] == a[i];
      }
      forall i | 0 <= i < |b|
        ensures Queueable(b[i])
      {
        assert (a + b)[|a| + i] == b[i];
      }
    }
  }

  /** Reads are always accepted, so a queue can be queued exactly when its writes can. */
  lemma {:induction false} QueueableWrites(cmds: seq<Cmd>)
    ensures AllQueueable(cmds) <==> AllQueueable(WritesIn(cmds))
    decreases |cmds|
  {
    if |cmds| > 0 {
      QueueableWrites(cmds[1..]);
      assert cmds == [cmds[0]] + cmds[1..];
      AllQueueableConcat([cmds[0]], cmds[1..]);
      var head := if IsRead(cmds[0]) then [] else [cmds[0]];
      AllQueueableConcat(head, WritesIn(cmds[1..]));
    }
  }
}
