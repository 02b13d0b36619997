/**
 * The hot database (class `RedisDatabase`): the persisted layout of the
 * finalized head and the hot-block list, the startup read `Connect`, and
 * the three commit protocols. Each protocol builds one transaction queue
 * (the callback's reads, then its flushed writes, then the bookkeeping
 * commands) which EXEC applies to the key space.
 */
module Database {
  import opened Results
  import opened Text
  import Redis
  import Buffer

  datatype HashAndHeight = HashAndHeight(height: int, hash: string)

  /** What `Connect` reports: the finalized head and the hot blocks. */
  datatype HotDatabaseState = HotDatabaseState(height: int, hash: string, top: seq<HashAndHeight>)

  datatype FinalTxInfo = FinalTxInfo(prevHead: HashAndHeight, nextHead: HashAndHeight, isOnTop: bool)

  datatype HotTxInfo = HotTxInfo(baseHead: HashAndHeight, newBlocks: seq<HashAndHeight>, finalizedHead: HashAndHeight)

  const LastBlockKey: string := "lastProcessedBlock"
  const LastHashKey: string := "lastProcessedHash"
  const TopKey: string := "topBlocks"

  /** The hash reported when none has been stored. */
  const NoHash: string := "0x"

  predicate IsBookkeepingKey(k: string) {
    k == LastBlockKey || k == LastHashKey || k == TopKey
  }

  // ---------------------------------------------------------------------
  // Hot-block list entries, `${height}:${hash}`
  // ---------------------------------------------------------------------

  /** `${height}:${hash}`: the height's decimal text, the first ':', then the hash. */
  function Encode(b: HashAndHeight): (r: string)
    ensures var n := |IntToString(b.height)|;
            && IndexOf(r, ':') == Some(n)
            && r[..n] == IntToString(b.height)
            && r[n + 1..] == b.hash
  {
    var digits := IntToString(b.height);
    var r := digits + ":" + b.hash;
    assert r[..|digits|] == digits;
    assert r[|digits| + 1..] == b.hash;
    assert r[|digits|] == ':';
    r
  }

  /** The part of a hash that survives `split(':')`: everything before its first ':'. */
  function BeforeColon(s: string): (r: string)
    ensures r == s <==> ':' !in s
    ensures ':' !in r
    ensures r <= s && (r != s ==> s[|r|] == ':')
  {
    match IndexOf(s, ':')
    case None => s
    case Some(j) => s[..j]
  }

  /**
   * `const [height, hash] = entry.split(':')`: the height is the text
   * before the first ':', the hash the text after it up to the next ':'.
   * No ':' at all leaves the hash undefined, and text that is not a decimal
   * integer has no height; both are None here.
   */
  function Decode(entry: string): (r: Option<HashAndHeight>)
    ensures ':' !in entry ==> r.None?
    ensures r.Some? ==> ':' !in r.value.hash
    ensures r.Some? ==>
              && IndexOf(entry, ':').Some?
              && var i := IndexOf(entry, ':').value;
                 && ParseInt(entry[..i]) == Some(r.value.height)
                 && r.value.hash <= entry[i + 1..]
                 && (i + 1 + |r.value.hash| < |entry| ==> entry[i + 1 + |r.value.hash|] == ':')
  {
    match IndexOf(entry, ':')
    case None => None
    case Some(i) =>
      match ParseInt(entry[..i])
      case None => None
      case Some(h) => Some(HashAndHeight(h, BeforeColon(entry[i + 1..])))
  }

  /**
   * Decoding an encoded entry gives back the height, and the hash cut at
   * its first ':'.
   */
  lemma DecodeEncode(b: HashAndHeight)
    ensures Decode(Encode(b)) == Some(HashAndHeight(b.height, BeforeColon(b.hash)))
  {
    ParseIntOfIntToString(b.height);
  }

  /** The round trip holds exactly for hashes without ':'. */
  lemma DecodeEncodeRoundTrip(b: HashAndHeight)
    ensures Decode(Encode(b)) == Some(b) <==> ':' !in b.hash
  {
    DecodeEncode(b);
  }

  /** The hot-block list as stored: one encoded entry per block, in order. */
  function EncodeAll(blocks: seq<HashAndHeight>): (r: seq<string>)
    ensures |r| == |blocks|
  {
    seq(|blocks|, i requires 0 <= i < |blocks| => Encode(blocks[i]))
  }

  datatype ConnectError =
    | WrongTypeAt(key: string)   // a read met a value of the wrong kind
    | Malformed(text: string)    // stored text that does not decode

  /** `topBlocks.map(...)`: decode every entry, keeping order and length. */
  function DecodeAll(entries: seq<string>): (r: Result<seq<HashAndHeight>, ConnectError>)
    ensures r.Ok? <==> forall i :: 0 <= i < |entries| ==> Decode(entries[i]).Some?
    ensures r.Ok? ==> |r.value| == |entries|
    ensures r.Ok? ==> forall i :: 0 <= i < |entries| ==> Decode(entries[i]) == Some(r.value[i])
    decreases |entries|
  {
    if |entries| == 0 then Ok([])
    else match Decode(entries[0])
      case None => Err(Malformed(entries[0]))
      case Some(b) =>
        match DecodeAll(entries[1..])
        case Err(e) => Err(e)
        case Ok(bs) => Ok([b] + bs)
  }

  /** Entries written for blocks whose hashes have no ':' decode back to those blocks. */
  lemma DecodeAllEncodeAll(blocks: seq<HashAndHeight>)
    requires forall i :: 0 <= i < |blocks| ==> ':' !in blocks[i].hash
    ensures DecodeAll(EncodeAll(blocks)) == Ok(blocks)
  {
    var entries := EncodeAll(blocks);
    forall i | 0 <= i < |blocks|
      ensures Decode(entries[i]) == Some(blocks[i])
    {
      assert entries[i] == Encode(blocks[i]);
      DecodeEncodeRoundTrip(blocks[i]);
    }
    var r := DecodeAll(entries);
    assert r.Ok?;
    assert |r.value| == |blocks|;
    forall i | 0 <= i < |blocks|
      ensures r.value[i] == blocks[i]
    {
      assert Decode(entries[i]) == Some(r.value[i]);
    }
    assert r.value == blocks;
  }

  // ---------------------------------------------------------------------
  // connect()
  // ---------------------------------------------------------------------

  /** `lastBlock ? parseInt(lastBlock) : -1`: an unset key or empty text reads as -1. */
  function HeightOf(text: Option<string>): (r: Result<int, ConnectError>)
    ensures text.None? || text == Some("") ==> r == Ok(-1)
    ensures r.Err? <==> text.Some? && text.value != "" && ParseInt(text.value).None?
    ensures forall n :: text == Some(IntToString(n)) ==> r == Ok(n)
  {
    match text
    case None => Ok(-1)
    case Some(s) =>
      if s == "" then Ok(-1)
      else match ParseInt(s)
        case None => Err(Malformed(s))
        case Some(h) =>
          assert forall n :: s == IntToString(n) ==> h == n by {
            forall n | s == IntToString(n) ensures h == n {
              ParseIntOfIntToString(n);
            }
          }
          Ok(h)
  }

  /** `lastHash || '0x'`: an unset key or empty text reads as the sentinel hash. */
  function HashOf(text: Option<string>): (r: string)
    ensures r == NoHash || (text.Some? && r == text.value)
    ensures text.None? || text.value == "" ==> r == NoHash
    ensures text.Some? && text.value != "" ==> r == text.value
  {
    match text
    case None => NoHash
    case Some(s) => if s == "" then NoHash else s
  }

  /**
   * `connect()`: read the head and the whole hot-block list and decode
   * them. A read of the wrong kind of value fails, as does stored text that
   * does not decode.
   */
  function Connect(db: Redis.Db): (r: Result<HotDatabaseState, ConnectError>)
    ensures LastBlockKey !in db && LastHashKey !in db && TopKey !in db
            ==> r == Ok(HotDatabaseState(-1, NoHash, []))
    ensures r.Ok? && TopKey !in db ==> r.value.top == []
    ensures r.Ok? && TopKey in db ==>
              && db[TopKey].List?
              && |r.value.top| == |db[TopKey].items|
              && forall i :: 0 <= i < |r.value.top| ==> Decode(db[TopKey].items[i]) == Some(r.value.top[i])
  {
    match Redis.StringAt(db, LastBlockKey)
    case Err(_) => Err(WrongTypeAt(LastBlockKey))
    case Ok(lastBlock) =>
      match Redis.StringAt(db, LastHashKey)
      case Err(_) => Err(WrongTypeAt(LastHashKey))
      case Ok(lastHash) =>
        match Redis.RangeAt(db, TopKey, 0, -1)
        case Err(_) => Err(WrongTypeAt(TopKey))
        case Ok(entries) =>
          match DecodeAll(entries)
          case Err(e) => Err(e)
          case Ok(top) =>
            match HeightOf(lastBlock)
            case Err(e) => Err(e)
            case Ok(height) => Ok(HotDatabaseState(height, HashOf(lastHash), top))
  }

  /** Connect reports a stored head written by the bookkeeping commands as that head. */
  lemma ConnectOfHead(db: Redis.Db, head: HashAndHeight, top: seq<HashAndHeight>)
    requires Redis.Lookup(db, LastBlockKey) == Some(Redis.Str(IntToString(head.height)))
    requires Redis.Lookup(db, LastHashKey) == Some(Redis.Str(head.hash))
    requires TopKey !in db ==> top == []
    requires TopKey in db ==> db[TopKey].List? && DecodeAll(db[TopKey].items) == Ok(top)
    ensures Connect(db) == Ok(HotDatabaseState(head.height, HashOf(Some(head.hash)), top))
  {
  }

  // ---------------------------------------------------------------------
  // transact()
  // ---------------------------------------------------------------------

  /** The two SETs that record a head. */
  function HeadCmds(head: HashAndHeight): seq<Redis.Cmd> {
    [Redis.Set(LastBlockKey, IntToString(head.height)), Redis.Set(LastHashKey, head.hash)]
  }

  /** The head keys hold the head afterwards; every other key is as it was. */
  lemma HeadCmdsEffect(raw: Redis.RawEffect, m: Redis.Db, head: HashAndHeight)
    ensures var r := Redis.Exec(raw, m, HeadCmds(head)).db;
            && Redis.Lookup(r, LastBlockKey) == Some(Redis.Str(IntToString(head.height)))
            && Redis.Lookup(r, LastHashKey) == Some(Redis.Str(head.hash))
            && forall k :: k != LastBlockKey && k != LastHashKey ==> Redis.Lookup(r, k) == Redis.Lookup(m, k)
  {
    var cmds := HeadCmds(head);
    var m1 := m[LastBlockKey := Redis.Str(IntToString(head.height))];
    var m2 := m1[LastHashKey := Redis.Str(head.hash)];
    assert Redis.Exec(raw, m1, cmds[1..]).db == Redis.Exec(raw, m2, []).db;
    assert Redis.Exec(raw, m, cmds).db == m2;
  }

  /** The head and, when on top, the hot-list append that `transact` queues after the flush. */
  function FinalBookkeeping(info: FinalTxInfo): (r: seq<Redis.Cmd>)
    ensures PlainWrites(r)
  {
    HeadCmds(info.nextHead) + (if info.isOnTop then [Redis.RPush(TopKey, [Encode(info.nextHead)])] else [])
  }

  /** Bookkeeping is writes only, each one Redis accepts while queueing. */
  predicate PlainWrites(cmds: seq<Redis.Cmd>) {
    forall i :: 0 <= i < |cmds| ==> !Redis.IsRead(cmds[i]) && Redis.Queueable(cmds[i])
  }

  /**
   * A commit queue, the callback's flushed calls followed by bookkeeping:
   * its reads are the callback's reads, its writes the callback's writes
   * then the bookkeeping, and EXEC accepts it exactly when it accepts every
   * write of the callback.
   */
  lemma CommitQueue(calls: seq<Buffer.Call>, bookkeeping: seq<Redis.Cmd>)
    requires PlainWrites(bookkeeping)
    ensures var cmds := Buffer.Flushed(calls) + bookkeeping;
            && Redis.ReadsIn(cmds) == Buffer.Reads(calls)
            && Redis.WritesIn(cmds) == Buffer.Writes(calls) + bookkeeping
            && (Redis.AllQueueable(cmds) <==> Buffer.CallsQueueable(calls))
  {
    var f := Buffer.Flushed(calls);
    Redis.FiltersConcat(f, bookkeeping);
    Redis.FiltersOfWrites(bookkeeping);
    assert Redis.ReadsIn(f + bookkeeping) == Buffer.Reads(calls) + [];
    Redis.AllQueueableConcat(f, bookkeeping);
    Buffer.FlushedQueueable(calls);
  }

  /**
   * The queue `transact` builds: the callback's reads and its writes, each
   * in call order (all reads first unless the callback flushed), then the
   * bookkeeping.
   */
  function TransactCommands(info: FinalTxInfo, cb: seq<Buffer.Call>): (cmds: seq<Redis.Cmd>)
    ensures Redis.ReadsIn(cmds) == Buffer.Reads(cb)
    ensures Redis.WritesIn(cmds) == Buffer.Writes(cb) + FinalBookkeeping(info)
    ensures Buffer.FlushFree(cb) ==> cmds == Buffer.Reads(cb) + Buffer.Writes(cb) + FinalBookkeeping(info)
    ensures Redis.AllQueueable(cmds) <==> Buffer.CallsQueueable(cb)
  {
    CommitQueue(cb, FinalBookkeeping(info));
    Buffer.Flushed(cb) + FinalBookkeeping(info)
  }

  /**
   * `transact(info, cb)`: the key space after EXEC. A write Redis rejects
   * while queueing aborts the whole commit; otherwise the reads change
   * nothing and the writes apply in order, then the bookkeeping.
   */
  function Transact(raw: Redis.RawEffect, db: Redis.Db, info: FinalTxInfo, cb: seq<Buffer.Call>): (r: Redis.Db)
    ensures !Buffer.CallsQueueable(cb) ==> r == db
    ensures Buffer.CallsQueueable(cb) ==> r == Redis.Exec(raw, db, Buffer.Writes(cb) + FinalBookkeeping(info)).db
  {
    Redis.ExecSkipsReads(raw, db, TransactCommands(info, cb));
    Redis.After(db, Redis.Commit(raw, db, TransactCommands(info, cb)))
  }

  /**
   * The effect of a committed `transact`, in terms of the key space its
   * callback's writes alone would leave (mid): the head keys hold nextHead;
   * when on top, the hot-block list grows by exactly the encoded nextHead
   * (unless the key holds something other than a list, which RPUSH
   * rejects), and otherwise it is as mid left it; every other key is as
   * mid left it.
   */
  lemma TransactEffect(raw: Redis.RawEffect, db: Redis.Db, info: FinalTxInfo, cb: seq<Buffer.Call>)
    requires Buffer.CallsQueueable(cb)
    ensures var mid := Redis.Exec(raw, db, Buffer.Writes(cb)).db;
            var r := Transact(raw, db, info, cb);
            && Redis.Lookup(r, LastBlockKey) == Some(Redis.Str(IntToString(info.nextHead.height)))
            && Redis.Lookup(r, LastHashKey) == Some(Redis.Str(info.nextHead.hash))
            && (!info.isOnTop ==> Redis.Lookup(r, TopKey) == Redis.Lookup(mid, TopKey))
            && (info.isOnTop && (TopKey !in mid || mid[TopKey].List?) ==>
                  Redis.Lookup(r, TopKey) == Some(Redis.List(Redis.ItemsAt(mid, TopKey) + [Encode(info.nextHead)])))
            && (info.isOnTop && TopKey in mid && !mid[TopKey].List? ==>
                  Redis.Lookup(r, TopKey) == Redis.Lookup(mid, TopKey))
            && forall k :: !IsBookkeepingKey(k) ==> Redis.Lookup(r, k) == Redis.Lookup(mid, k)
  {
    var mid := Redis.Exec(raw, db, Buffer.Writes(cb)).db;
    var head := HeadCmds(info.nextHead);
    var tail := if info.isOnTop then [Redis.RPush(TopKey, [Encode(info.nextHead)])] else [];
    Redis.ExecConcat(raw, db, Buffer.Writes(cb), FinalBookkeeping(info));
    Redis.ExecConcat(raw, mid, head, tail);
    HeadCmdsEffect(raw, mid, info.nextHead);
    var m2 := Redis.Exec(raw, mid, head).db;
    assert Redis.Lookup(m2, TopKey) == Redis.Lookup(mid, TopKey);
    if info.isOnTop {
      if TopKey !in mid || mid[TopKey].List? {
        Redis.PushOne(raw, m2, TopKey, Encode(info.nextHead));
      } else {
        Redis.ExecOne(raw, m2, Redis.RPush(TopKey, [Encode(info.nextHead)]));
      }
    } else {
      assert Redis.Exec(raw, m2, tail).db == m2;
    }
  }

  /**
   * What `connect` reads after `transact` on a readable state: when it
   * commits, the new head, and the hot blocks it read before plus nextHead
   * when on top; when it aborts, what it read before. The callback must
   * leave the hot-block list alone; the head keys are overwritten whatever
   * it does.
   */
  lemma TransactThenConnect(raw: Redis.RawEffect, db: Redis.Db, info: FinalTxInfo, cb: seq<Buffer.Call>)
    requires Connect(db).Ok?
    requires Buffer.CallsAvoid(cb, TopKey)
    requires info.isOnTop ==> ':' !in info.nextHead.hash
    ensures Buffer.CallsQueueable(cb) ==>
              Connect(Transact(raw, db, info, cb))
              == Ok(HotDatabaseState(info.nextHead.height, HashOf(Some(info.nextHead.hash)),
                                     Connect(db).value.top + (if info.isOnTop then [info.nextHead] else [])))
    ensures !Buffer.CallsQueueable(cb) ==> Connect(Transact(raw, db, info, cb)) == Connect(db)
  {
    if Buffer.CallsQueueable(cb) {
      CommittedThenConnect(raw, db, info, cb);
    }
  }

  lemma CommittedThenConnect(raw: Redis.RawEffect, db: Redis.Db, info: FinalTxInfo, cb: seq<Buffer.Call>)
    requires Connect(db).Ok?
    requires Buffer.CallsAvoid(cb, TopKey)
    requires info.isOnTop ==> ':' !in info.nextHead.hash
    requires Buffer.CallsQueueable(cb)
    ensures Connect(Transact(raw, db, info, cb))
         == Ok(HotDatabaseState(info.nextHead.height, HashOf(Some(info.nextHead.hash)),
                                Connect(db).value.top + (if info.isOnTop then [info.nextHead] else [])))
  {
    var mid := Redis.Exec(raw, db, Buffer.Writes(cb)).db;
    var r := Transact(raw, db, info, cb);
    var before := Connect(db).value.top;
    DecodedTop(db, before);
    Buffer.WritesFrame(raw, db, cb, TopKey);
    assert Redis.Lookup(mid, TopKey) == Redis.Lookup(db, TopKey);
    assert TopKey !in mid || mid[TopKey].List?;
    assert Redis.ItemsAt(mid, TopKey) == Redis.ItemsAt(db, TopKey);
    TransactEffect(raw, db, info, cb);
    ConnectAfterBookkeeping(db, r, info.nextHead, info.isOnTop, before);
  }

  /**
   * Connect on a key space whose head keys hold head and whose hot-block
   * list is the one of db, grown by the encoded head when on top.
   */
  lemma ConnectAfterBookkeeping(db: Redis.Db, r: Redis.Db, head: HashAndHeight, onTop: bool, before: seq<HashAndHeight>)
    requires TopKey !in db || db[TopKey].List?
    requires DecodeAll(Redis.ItemsAt(db, TopKey)) == Ok(before)
    requires Redis.Lookup(r, LastBlockKey) == Some(Redis.Str(IntToString(head.height)))
    requires Redis.Lookup(r, LastHashKey) == Some(Redis.Str(head.hash))
    requires onTop ==> ':' !in head.hash
    requires onTop ==> Redis.Lookup(r, TopKey) == Some(Redis.List(Redis.ItemsAt(db, TopKey) + [Encode(head)]))
    requires !onTop ==> Redis.Lookup(r, TopKey) == Redis.Lookup(db, TopKey)
    ensures Connect(r) == Ok(HotDatabaseState(head.height, HashOf(Some(head.hash)),
                                              before + (if onTop then [head] else [])))
  {
    var top := before + (if onTop then [head] else []);
    if onTop {
      DecodeAllPush(Redis.ItemsAt(db, TopKey), before, head);
    } else {
      assert top == before;
      assert TopKey !in db ==> Redis.ItemsAt(db, TopKey) == [];
    }
    ConnectOfHead(r, head, top);
  }

  /** The hot-block list connect read decodes back to what it reported. */
  lemma DecodedTop(db: Redis.Db, before: seq<HashAndHeight>)
    requires Connect(db).Ok? && before == Connect(db).value.top
    ensures TopKey !in db || db[TopKey].List?
    ensures DecodeAll(Redis.ItemsAt(db, TopKey)) == Ok(before)
  {
    var items := Redis.ItemsAt(db, TopKey);
    var d := DecodeAll(items);
    assert d.Ok?;
    assert d.value == before;
  }

  /** Appending an encoded block whose hash has no ':' appends that block to the decoding. */
  lemma DecodeAllPush(items: seq<string>, before: seq<HashAndHeight>, b: HashAndHeight)
    requires DecodeAll(items) == Ok(before)
    requires ':' !in b.hash
    ensures DecodeAll(items + [Encode(b)]) == Ok(before + [b])
  {
    var entries := items + [Encode(b)];
    var top := before + [b];
    DecodeEncodeRoundTrip(b);
    assert forall i :: 0 <= i < |entries| ==> Decode(entries[i]) == Some(top[i]);
    var d := DecodeAll(entries);
    assert d.Ok?;
    assert d.value == top;
  }

  /**
   * While a commit is built, a read the callback makes before any flush of
   * its own sees the state before the commit.
   */
  lemma TransactReadIsolation(raw: Redis.RawEffect, db: Redis.Db, info: FinalTxInfo,
                              b: seq<Buffer.Call>, rest: seq<Buffer.Call>, i: nat)
    requires Buffer.FlushFree(b)
    requires i < |Buffer.Reads(b)|
    requires Buffer.CallsQueueable(b + rest)
    ensures var o := Redis.Commit(raw, db, TransactCommands(info, b + rest));
            && o.Committed?
            && i < |o.result.replies|
            && o.result.replies[i] == Redis.Apply(raw, db, Buffer.Reads(b)[i]).reply
  {
    Buffer.ReadIsolation(raw, db, b, rest, FinalBookkeeping(info), i);
  }

  // ---------------------------------------------------------------------
  // transactHot() and transactHot2()
  // ---------------------------------------------------------------------

  /** Pushing the blocks onto an unset list rebuilds it as exactly the encoded blocks. */
  lemma TopPushesEffect(raw: Redis.RawEffect, m: Redis.Db, blocks: seq<HashAndHeight>)
    requires TopKey !in m
    ensures Redis.Lookup(Redis.Exec(raw, m, Redis.PushEach(TopKey, EncodeAll(blocks))).db, TopKey)
         == if |blocks| == 0 then None else Some(Redis.List(EncodeAll(blocks)))
  {
    Redis.PushEachBuilds(raw, m, TopKey, EncodeAll(blocks));
  }

  /** The bookkeeping both hot protocols queue: the head, then delete-and-rebuild of the hot-block list. */
  function HotBookkeeping(head: HashAndHeight, blocks: seq<HashAndHeight>): (r: seq<Redis.Cmd>)
    ensures PlainWrites(r)
  {
    var pushes := Redis.PushEach(TopKey, EncodeAll(blocks));
    assert forall i :: 0 <= i < |pushes| ==> pushes[i] == Redis.RPush(TopKey, [EncodeAll(blocks)[i]]);
    HeadCmds(head) + ([Redis.Del(TopKey)] + pushes)
  }

  /**
   * The effect of a hot commit's writes (the callbacks' writes, then the
   * bookkeeping): the head keys hold head, the hot-block list is exactly
   * the encoded blocks (unset when there are none) whatever it held
   * before, and every other key is as the callbacks' writes left it (mid).
   */
  lemma HotCommitEffect(raw: Redis.RawEffect, db: Redis.Db, calls: seq<Buffer.Call>, head: HashAndHeight, blocks: seq<HashAndHeight>)
    ensures var mid := Redis.Exec(raw, db, Buffer.Writes(calls)).db;
            var r := Redis.Exec(raw, db, Buffer.Writes(calls) + HotBookkeeping(head, blocks)).db;
            && Redis.Lookup(r, LastBlockKey) == Some(Redis.Str(IntToString(head.height)))
            && Redis.Lookup(r, LastHashKey) == Some(Redis.Str(head.hash))
            && Redis.Lookup(r, TopKey) == (if |blocks| == 0 then None else Some(Redis.List(EncodeAll(blocks))))
            && forall k :: !IsBookkeepingKey(k) ==> Redis.Lookup(r, k) == Redis.Lookup(mid, k)
  {
    var mid := Redis.Exec(raw, db, Buffer.Writes(calls)).db;
    var pushes := Redis.PushEach(TopKey, EncodeAll(blocks));
    var rebuild := [Redis.Del(TopKey)] + pushes;
    Redis.ExecConcat(raw, db, Buffer.Writes(calls), HotBookkeeping(head, blocks));
    Redis.ExecConcat(raw, mid, HeadCmds(head), rebuild);
    HeadCmdsEffect(raw, mid, head);
    var m2 := Redis.Exec(raw, mid, HeadCmds(head)).db;
    var m3 := m2 - {TopKey};
    Redis.ExecConcat(raw, m2, [Redis.Del(TopKey)], pushes);
    Redis.ExecOne(raw, m2, Redis.Del(TopKey));
    assert Redis.Exec(raw, m2, [Redis.Del(TopKey)]).db == m3;
    TopPushesEffect(raw, m3, blocks);
    forall k | k != TopKey
      ensures Redis.Lookup(Redis.Exec(raw, m3, pushes).db, k) == Redis.Lookup(m2, k)
    {
      Redis.ExecFrame(raw, m3, pushes, k);
    }
  }

  /** Every block's callback calls, concatenated in block order: each block exactly once. */
  function PerBlockCalls(blocks: seq<HashAndHeight>, cb: HashAndHeight -> seq<Buffer.Call>): seq<Buffer.Call>
    decreases |blocks|
  {
    if |blocks| == 0 then [] else cb(blocks[0]) + PerBlockCalls(blocks[1..], cb)
  }

  /**
   * `for (const block of newBlocks) await cb(store, block)`: the store
   * ends as if the per-block calls had been made in one run.
   */
  function RunPerBlock(st: Buffer.Store, blocks: seq<HashAndHeight>, cb: HashAndHeight -> seq<Buffer.Call>): (r: Buffer.Store)
    ensures r == Buffer.Run(st, PerBlockCalls(blocks, cb))
    decreases |blocks|
  {
    if |blocks| == 0 then st
    else
      Buffer.RunConcat(st, cb(blocks[0]), PerBlockCalls(blocks[1..], cb));
      RunPerBlock(Buffer.Run(st, cb(blocks[0])), blocks[1..], cb)
  }

  /**
   * The queue `transactHot` builds: the callback once per block in block
   * order, its reads and writes each in call order, all before the
   * bookkeeping.
   */
  function TransactHotCommands(info: HotTxInfo, cb: HashAndHeight -> seq<Buffer.Call>): (cmds: seq<Redis.Cmd>)
    ensures var calls := PerBlockCalls(info.newBlocks, cb);
            && Redis.ReadsIn(cmds) == Buffer.Reads(calls)
            && Redis.WritesIn(cmds) == Buffer.Writes(calls) + HotBookkeeping(info.finalizedHead, info.newBlocks)
            && (Buffer.FlushFree(calls) ==>
                  cmds == Buffer.Reads(calls) + Buffer.Writes(calls) + HotBookkeeping(info.finalizedHead, info.newBlocks))
            && (Redis.AllQueueable(cmds) <==> Buffer.CallsQueueable(calls))
  {
    var calls := PerBlockCalls(info.newBlocks, cb);
    var st := RunPerBlock(Buffer.Open([]), info.newBlocks, cb);
    assert Buffer.Flush(st).txn == Buffer.Flushed(calls);
    CommitQueue(calls, HotBookkeeping(info.finalizedHead, info.newBlocks));
    Buffer.Flush(st).txn + HotBookkeeping(info.finalizedHead, info.newBlocks)
  }

  /**
   * `transactHot(info, cb)`: the key space after EXEC; unchanged when a
   * write is rejected while queueing.
   */
  function TransactHot(raw: Redis.RawEffect, db: Redis.Db, info: HotTxInfo, cb: HashAndHeight -> seq<Buffer.Call>): (r: Redis.Db)
    ensures var calls := PerBlockCalls(info.newBlocks, cb);
            && (!Buffer.CallsQueueable(calls) ==> r == db)
            && (Buffer.CallsQueueable(calls) ==>
                  r == Redis.Exec(raw, db, Buffer.Writes(calls) + HotBookkeeping(info.finalizedHead, info.newBlocks)).db)
  {
    Redis.ExecSkipsReads(raw, db, TransactHotCommands(info, cb));
    Redis.After(db, Redis.Commit(raw, db, TransactHotCommands(info, cb)))
  }

  /**
   * The queue `transactHot2` builds: the callback once, on the index range
   * [0, |newBlocks|), then the same bookkeeping as `transactHot`.
   */
  function TransactHot2Commands(info: HotTxInfo, cb: (int, int) -> seq<Buffer.Call>): (cmds: seq<Redis.Cmd>)
    ensures var calls := cb(0, |info.newBlocks|);
            && Redis.ReadsIn(cmds) == Buffer.Reads(calls)
            && Redis.WritesIn(cmds) == Buffer.Writes(calls) + HotBookkeeping(info.finalizedHead, info.newBlocks)
            && (Buffer.FlushFree(calls) ==>
                  cmds == Buffer.Reads(calls) + Buffer.Writes(calls) + HotBookkeeping(info.finalizedHead, info.newBlocks))
            && (Redis.AllQueueable(cmds) <==> Buffer.CallsQueueable(calls))
  {
    CommitQueue(cb(0, |info.newBlocks|), HotBookkeeping(info.finalizedHead, info.newBlocks));
    Buffer.Flushed(cb(0, |info.newBlocks|)) + HotBookkeeping(info.finalizedHead, info.newBlocks)
  }

  /**
   * `transactHot2(info, cb)`: the key space after EXEC; unchanged when a
   * write is rejected while queueing.
   */
  function TransactHot2(raw: Redis.RawEffect, db: Redis.Db, info: HotTxInfo, cb: (int, int) -> seq<Buffer.Call>): (r: Redis.Db)
    ensures var calls := cb(0, |info.newBlocks|);
            && (!Buffer.CallsQueueable(calls) ==> r == db)
            && (Buffer.CallsQueueable(calls) ==>
                  r == Redis.Exec(raw, db, Buffer.Writes(calls) + HotBookkeeping(info.finalizedHead, info.newBlocks)).db)
  {
    Redis.ExecSkipsReads(raw, db, TransactHot2Commands(info, cb));
    Redis.After(db, Redis.Commit(raw, db, TransactHot2Commands(info, cb)))
  }

  /**
   * After a committed `transactHot`: the head keys hold finalizedHead, the
   * hot-block list is the encoded newBlocks whatever it held before, and
   * every other key is as the callbacks' writes left it.
   */
  lemma TransactHotEffect(raw: Redis.RawEffect, db: Redis.Db, info: HotTxInfo, cb: HashAndHeight -> seq<Buffer.Call>)
    requires Buffer.CallsQueueable(PerBlockCalls(info.newBlocks, cb))
    ensures var mid := Redis.Exec(raw, db, Buffer.Writes(PerBlockCalls(info.newBlocks, cb))).db;
            var r := TransactHot(raw, db, info, cb);
            && Redis.Lookup(r, LastBlockKey) == Some(Redis.Str(IntToString(info.finalizedHead.height)))
            && Redis.Lookup(r, LastHashKey) == Some(Redis.Str(info.finalizedHead.hash))
            && Redis.Lookup(r, TopKey) == (if |info.newBlocks| == 0 then None else Some(Redis.List(EncodeAll(info.newBlocks))))
            && forall k :: !IsBookkeepingKey(k) ==> Redis.Lookup(r, k) == Redis.Lookup(mid, k)
  {
    HotCommitEffect(raw, db, PerBlockCalls(info.newBlocks, cb), info.finalizedHead, info.newBlocks);
  }

  /** The same for `transactHot2`, whose callback runs once on the whole range. */
  lemma TransactHot2Effect(raw: Redis.RawEffect, db: Redis.Db, info: HotTxInfo, cb: (int, int) -> seq<Buffer.Call>)
    requires Buffer.CallsQueueable(cb(0, |info.newBlocks|))
    ensures var mid := Redis.Exec(raw, db, Buffer.Writes(cb(0, |info.newBlocks|))).db;
            var r := TransactHot2(raw, db, info, cb);
            && Redis.Lookup(r, LastBlockKey) == Some(Redis.Str(IntToString(info.finalizedHead.height)))
            && Redis.Lookup(r, LastHashKey) == Some(Redis.Str(info.finalizedHead.hash))
            && Redis.Lookup(r, TopKey) == (if |info.newBlocks| == 0 then None else Some(Redis.List(EncodeAll(info.newBlocks))))
            && forall k :: !IsBookkeepingKey(k) ==> Redis.Lookup(r, k) == Redis.Lookup(mid, k)
  {
    HotCommitEffect(raw, db, cb(0, |info.newBlocks|), info.finalizedHead, info.newBlocks);
  }

  /** After a hot commit's writes, connect reads finalizedHead and exactly newBlocks. */
  lemma HotCommitThenConnect(raw: Redis.RawEffect, db: Redis.Db, calls: seq<Buffer.Call>, head: HashAndHeight, blocks: seq<HashAndHeight>)
    requires forall i :: 0 <= i < |blocks| ==> ':' !in blocks[i].hash
    ensures Connect(Redis.Exec(raw, db, Buffer.Writes(calls) + HotBookkeeping(head, blocks)).db)
         == Ok(HotDatabaseState(head.height, HashOf(Some(head.hash)), blocks))
  {
    var r := Redis.Exec(raw, db, Buffer.Writes(calls) + HotBookkeeping(head, blocks)).db;
    HotCommitEffect(raw, db, calls, head, blocks);
    DecodeAllEncodeAll(blocks);
    ConnectOfHead(r, head, blocks);
  }

  /**
   * After `transactHot`, connect reads finalizedHead and exactly newBlocks
   * when it commits, whatever the state held before, and what it read
   * before when it aborts.
   */
  lemma TransactHotThenConnect(raw: Redis.RawEffect, db: Redis.Db, info: HotTxInfo, cb: HashAndHeight -> seq<Buffer.Call>)
    requires forall i :: 0 <= i < |info.newBlocks| ==> ':' !in info.newBlocks[i].hash
    ensures Buffer.CallsQueueable(PerBlockCalls(info.newBlocks, cb)) ==>
              Connect(TransactHot(raw, db, info, cb))
              == Ok(HotDatabaseState(info.finalizedHead.height, HashOf(Some(info.finalizedHead.hash)), info.newBlocks))
    ensures !Buffer.CallsQueueable(PerBlockCalls(info.newBlocks, cb)) ==>
              Connect(TransactHot(raw, db, info, cb)) == Connect(db)
  {
    HotCommitThenConnect(raw, db, PerBlockCalls(info.newBlocks, cb), info.finalizedHead, info.newBlocks);
  }

  lemma TransactHot2ThenConnect(raw: Redis.RawEffect, db: Redis.Db, info: HotTxInfo, cb: (int, int) -> seq<Buffer.Call>)
    requires forall i :: 0 <= i < |info.newBlocks| ==> ':' !in info.newBlocks[i].hash
    ensures Buffer.CallsQueueable(cb(0, |info.newBlocks|)) ==>
              Connect(TransactHot2(raw, db, info, cb))
              == Ok(HotDatabaseState(info.finalizedHead.height, HashOf(Some(info.finalizedHead.hash)), info.newBlocks))
    ensures !Buffer.CallsQueueable(cb(0, |info.newBlocks|)) ==>
              Connect(TransactHot2(raw, db, info, cb)) == Connect(db)
  {
    HotCommitThenConnect(raw, db, cb(0, |info.newBlocks|), info.finalizedHead, info.newBlocks);
  }

  /**
   * `transactHot2` changes no key besides the three bookkeeping keys and
   * the keys its callback writes, whether it commits or aborts.
   */
  lemma TransactHot2Frame(raw: Redis.RawEffect, db: Redis.Db, info: HotTxInfo, cb: (int, int) -> seq<Buffer.Call>, k: string)
    requires !IsBookkeepingKey(k)
    requires Buffer.CallsAvoid(cb(0, |info.newBlocks|), k)
    ensures Redis.Lookup(TransactHot2(raw, db, info, cb), k) == Redis.Lookup(db, k)
  {
    if Buffer.CallsQueueable(cb(0, |info.newBlocks|)) {
      TransactHot2Effect(raw, db, info, cb);
      Buffer.WritesFrame(raw, db, cb(0, |info.newBlocks|), k);
    }
  }

  /**
   * When the range callback makes the calls the per-block callback would
   * make block by block, `transactHot2` queues exactly what `transactHot`
   * queues, and so leaves the same key space.
   */
  lemma TransactHot2AgreesWithTransactHot(raw: Redis.RawEffect, db: Redis.Db, info: HotTxInfo,
                                          cb: HashAndHeight -> seq<Buffer.Call>, rangeCb: (int, int) -> seq<Buffer.Call>)
    requires rangeCb(0, |info.newBlocks|) == PerBlockCalls(info.newBlocks, cb)
    ensures TransactHot2Commands(info, rangeCb) == TransactHotCommands(info, cb)
    ensures TransactHot2(raw, db, info, rangeCb) == TransactHot(raw, db, info, cb)
  {
  }
}
