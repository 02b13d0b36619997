/**
 * The flows of the repository's database tests, derived from the general
 * lemmas: a fresh key space, two commits on top, and a hot commit that
 * replaces the hot-block list.
 */
module Scenarios {
  import opened Results
  import Redis
  import Buffer
  import opened Database

  function Transfer(id: string, from: string, to: string, value: string): map<string, string> {
    map["id" := id, "from" := from, "to" := to, "value" := value]
  }

  /** An empty key space connects as height -1, hash "0x", no hot blocks. */
  lemma InitialConnect()
    ensures Connect(map[]) == Ok(HotDatabaseState(-1, "0x", []))
  {
  }

  const Head10: HashAndHeight := HashAndHeight(10, "0x10")
  const Head20: HashAndHeight := HashAndHeight(20, "0x20")

  /**
   * One commit on top of a readable state, by a callback that leaves the
   * hot-block list and key k alone and whose writes Redis accepts: connect
   * then reads the new head, the hot list grown by it, and k as it was.
   */
  lemma CommitOnTop(raw: Redis.RawEffect, db: Redis.Db, info: FinalTxInfo, cb: seq<Buffer.Call>,
                    top: seq<HashAndHeight>, k: string)
    requires Connect(db).Ok? && Connect(db).value.top == top
    requires info.isOnTop && ':' !in info.nextHead.hash && info.nextHead.hash != ""
    requires Buffer.CallsQueueable(cb)
    requires Buffer.CallsAvoid(cb, TopKey) && Buffer.CallsAvoid(cb, k) && !IsBookkeepingKey(k)
    ensures Connect(Transact(raw, db, info, cb))
         == Ok(HotDatabaseState(info.nextHead.height, info.nextHead.hash, top + [info.nextHead]))
    ensures Redis.Lookup(Transact(raw, db, info, cb), k) == Redis.Lookup(db, k)
  {
    TransactThenConnect(raw, db, info, cb);
    TransactEffect(raw, db, info, cb);
    Buffer.WritesFrame(raw, db, cb, k);
  }

  /** The callback that writes one transfer as a hash. */
  function WriteTransfer(k: string, t: map<string, string>): (cb: seq<Buffer.Call>)
    ensures t != map[] ==> Buffer.CallsQueueable(cb)
    ensures Buffer.Writes(cb) == [Redis.HSetFields(k, t)]
    ensures forall j :: j != k ==> Buffer.CallsAvoid(cb, j)
  {
    var cb := [Buffer.HSetCall(k, Buffer.Fields(t))];
    assert Buffer.Writes(cb) == [Redis.HSetFields(k, t)] + [];
    cb
  }

  /** An HSET with fields on an unset key stores exactly those fields there and nothing elsewhere. */
  lemma HSetFresh(raw: Redis.RawEffect, db: Redis.Db, k: string, t: map<string, string>)
    requires t != map[] && k !in db
    ensures Redis.Lookup(Redis.Exec(raw, db, [Redis.HSetFields(k, t)]).db, k) == Some(Redis.Hash(t))
    ensures forall j :: j != k ==> Redis.Lookup(Redis.Exec(raw, db, [Redis.HSetFields(k, t)]).db, j) == Redis.Lookup(db, j)
  {
    Redis.ExecOne(raw, db, Redis.HSetFields(k, t));
  }

  /** The first commit of the flow: transfer 1 at head 10 / "0x10", on top. */
  lemma FirstTransact(raw: Redis.RawEffect, t1: map<string, string>)
    requires t1 != map[]
    ensures var db1 := Transact(raw, map[], FinalTxInfo(HashAndHeight(-1, "0x"), Head10, true),
                                WriteTransfer("transfer:1", t1));
            && Connect(db1) == Ok(HotDatabaseState(10, "0x10", [Head10]))
            && Redis.Lookup(db1, "transfer:1") == Some(Redis.Hash(t1))
            && Redis.Lookup(db1, "transfer:2") == None
  {
    var cb1 := WriteTransfer("transfer:1", t1);
    var info1 := FinalTxInfo(HashAndHeight(-1, "0x"), Head10, true);
    assert "transfer:1" != TopKey && "transfer:1" != "transfer:2";
    InitialConnect();
    CommitOnTop(raw, map[], info1, cb1, [], "transfer:2");
    assert [] + [Head10] == [Head10];
    CommitWritesTransfer(raw, map[], info1, "transfer:1", t1);
  }

  /** A committed callback that writes one transfer to an unset key stores exactly that transfer there. */
  lemma CommitWritesTransfer(raw: Redis.RawEffect, db: Redis.Db, info: FinalTxInfo, k: string, t: map<string, string>)
    requires t != map[] && k !in db && k != LastBlockKey && k != LastHashKey && k != TopKey
    ensures Redis.Lookup(Transact(raw, db, info, WriteTransfer(k, t)), k) == Some(Redis.Hash(t))
  {
    HSetFresh(raw, db, k, t);
    TransactEffect(raw, db, info, WriteTransfer(k, t));
  }

  /** The second commit of the flow, on whatever state the first left. */
  lemma SecondTransact(raw: Redis.RawEffect, db1: Redis.Db, t1: map<string, string>, t2: map<string, string>)
    requires t2 != map[]
    requires Connect(db1) == Ok(HotDatabaseState(10, "0x10", [Head10]))
    requires Redis.Lookup(db1, "transfer:1") == Some(Redis.Hash(t1))
    requires Redis.Lookup(db1, "transfer:2") == None
    ensures var db2 := Transact(raw, db1, FinalTxInfo(Head10, Head20, true), WriteTransfer("transfer:2", t2));
            && Connect(db2) == Ok(HotDatabaseState(20, "0x20", [Head10, Head20]))
            && Redis.Lookup(db2, "transfer:1") == Some(Redis.Hash(t1))
            && Redis.Lookup(db2, "transfer:2") == Some(Redis.Hash(t2))
  {
    var cb2 := WriteTransfer("transfer:2", t2);
    var info2 := FinalTxInfo(Head10, Head20, true);
    SecondTransfer(raw, db1, info2, t2);
    assert "transfer:2" != TopKey && "transfer:2" != "transfer:1";
    CommitOnTop(raw, db1, info2, cb2, [Head10], "transfer:1");
    assert [Head10] + [Head20] == [Head10, Head20];
  }

  lemma SecondTransfer(raw: Redis.RawEffect, db1: Redis.Db, info: FinalTxInfo, t2: map<string, string>)
    requires t2 != map[]
    requires Redis.Lookup(db1, "transfer:2") == None
    ensures Redis.Lookup(Transact(raw, db1, info, WriteTransfer("transfer:2", t2)), "transfer:2") == Some(Redis.Hash(t2))
  {
    CommitWritesTransfer(raw, db1, info, "transfer:2", t2);
  }

  /**
   * Two `transact` commits on top of each other, each writing one transfer:
   * connect then reads head 20 / "0x20" with both heads on the hot list,
   * and both transfers are stored.
   */
  lemma TransactFlow(raw: Redis.RawEffect, t1: map<string, string>, t2: map<string, string>)
    requires t1 != map[] && t2 != map[]
    ensures var db1 := Transact(raw, map[], FinalTxInfo(HashAndHeight(-1, "0x"), Head10, true),
                                WriteTransfer("transfer:1", t1));
            var db2 := Transact(raw, db1, FinalTxInfo(Head10, Head20, true), WriteTransfer("transfer:2", t2));
            && Connect(db2) == Ok(HotDatabaseState(20, "0x20", [Head10, Head20]))
            && Redis.Lookup(db2, "transfer:1") == Some(Redis.Hash(t1))
            && Redis.Lookup(db2, "transfer:2") == Some(Redis.Hash(t2))
  {
    FirstTransact(raw, t1);
    var db1 := Transact(raw, map[], FinalTxInfo(HashAndHeight(-1, "0x"), Head10, true),
                        WriteTransfer("transfer:1", t1));
    SecondTransact(raw, db1, t1, t2);
  }

  /** The flow with the transfers the tests write. */
  lemma TransactFlowWithTransfers(raw: Redis.RawEffect)
    ensures var t1 := Transfer("1", "address1", "address2", "100");
            var t2 := Transfer("2", "address2", "address3", "200");
            var db1 := Transact(raw, map[], FinalTxInfo(HashAndHeight(-1, "0x"), Head10, true),
                                WriteTransfer("transfer:1", t1));
            var db2 := Transact(raw, db1, FinalTxInfo(Head10, Head20, true), WriteTransfer("transfer:2", t2));
            && Connect(db2) == Ok(HotDatabaseState(20, "0x20", [Head10, Head20]))
            && Redis.Lookup(db2, "transfer:1") == Some(Redis.Hash(t1))
            && Redis.Lookup(db2, "transfer:2") == Some(Redis.Hash(t2))
  {
    var t1 := Transfer("1", "address1", "address2", "100");
    var t2 := Transfer("2", "address2", "address3", "200");
    assert "id" in t1 && "id" in t2;
    TransactFlow(raw, t1, t2);
  }

  const Genesis: HashAndHeight := HashAndHeight(0, "0")
  const HotBlocks: seq<HashAndHeight> := [HashAndHeight(1, "a-1"), HashAndHeight(2, "a-2"), HashAndHeight(3, "a-3")]

  /** The per-block callback of the hot flow: a transfer at heights 1 and 2, nothing otherwise. */
  function PerHeight(t1: map<string, string>, t2: map<string, string>, b: HashAndHeight): seq<Buffer.Call> {
    if b.height == 1 then WriteTransfer("transfer:1", t1)
    else if b.height == 2 then WriteTransfer("transfer:2", t2)
    else []
  }

  function Switch(t1: map<string, string>, t2: map<string, string>): HashAndHeight -> seq<Buffer.Call> {
    b => PerHeight(t1, t2, b)
  }

  function Silent(): HashAndHeight -> seq<Buffer.Call> {
    b => []
  }

  /** The first hot commit of the flow: block 0 / "0", finalized, with a callback that does nothing. */
  lemma FirstTransactHot(raw: Redis.RawEffect)
    ensures var db1 := TransactHot(raw, map[], HotTxInfo(HashAndHeight(-1, "0x"), [Genesis], Genesis), Silent());
            && Connect(db1) == Ok(HotDatabaseState(0, "0", [Genesis]))
            && Redis.Lookup(db1, "transfer:1") == None
            && Redis.Lookup(db1, "transfer:2") == None
  {
    var info := HotTxInfo(HashAndHeight(-1, "0x"), [Genesis], Genesis);
    assert PerBlockCalls([Genesis], Silent()) == [] + [];
    assert Buffer.Writes([]) == [];
    TransactHotThenConnect(raw, map[], info, Silent());
    TransactHotEffect(raw, map[], info, Silent());
    assert !IsBookkeepingKey("transfer:1") && !IsBookkeepingKey("transfer:2");
  }

  /** Writing transfer 1 then transfer 2 onto a key space holding neither stores both. */
  lemma TwoTransfers(raw: Redis.RawEffect, db: Redis.Db, t1: map<string, string>, t2: map<string, string>)
    requires t1 != map[] && t2 != map[]
    requires "transfer:1" !in db && "transfer:2" !in db
    ensures var mid := Redis.Exec(raw, db, [Redis.HSetFields("transfer:1", t1), Redis.HSetFields("transfer:2", t2)]).db;
            && Redis.Lookup(mid, "transfer:1") == Some(Redis.Hash(t1))
            && Redis.Lookup(mid, "transfer:2") == Some(Redis.Hash(t2))
  {
    var a, b := Redis.HSetFields("transfer:1", t1), Redis.HSetFields("transfer:2", t2);
    assert [a, b] == [a] + [b];
    Redis.ExecConcat(raw, db, [a], [b]);
    HSetFresh(raw, db, "transfer:1", t1);
    var m1 := Redis.Exec(raw, db, [a]).db;
    HSetFresh(raw, m1, "transfer:2", t2);
  }

  /** The calls the switching callback makes over blocks 1..3: transfer 1, then transfer 2. */
  lemma SwitchCalls(t1: map<string, string>, t2: map<string, string>)
    ensures var calls := PerBlockCalls(HotBlocks, Switch(t1, t2));
            && Buffer.Writes(calls) == [Redis.HSetFields("transfer:1", t1), Redis.HSetFields("transfer:2", t2)]
            && (t1 != map[] && t2 != map[] ==> Buffer.CallsQueueable(calls))
  {
    var cb := Switch(t1, t2);
    var c1, c2 := WriteTransfer("transfer:1", t1), WriteTransfer("transfer:2", t2);
    assert PerBlockCalls(HotBlocks[2..], cb) == [] + [];
    assert PerBlockCalls(HotBlocks[1..], cb) == c2 + [];
    assert PerBlockCalls(HotBlocks, cb) == c1 + c2;
    Buffer.WritesConcat(c1, c2);
    var writes := [Redis.HSetFields("transfer:1", t1), Redis.HSetFields("transfer:2", t2)];
    assert writes == [writes[0]] + [writes[1]];
    Redis.AllQueueableConcat([writes[0]], [writes[1]]);
  }

  /** The second hot commit: blocks 1..3 on finalized head 0 / "0", the callback switching on the height. */
  lemma SecondTransactHot(raw: Redis.RawEffect, db1: Redis.Db, t1: map<string, string>, t2: map<string, string>)
    requires t1 != map[] && t2 != map[]
    requires Redis.Lookup(db1, "transfer:1") == None && Redis.Lookup(db1, "transfer:2") == None
    ensures var db2 := TransactHot(raw, db1, HotTxInfo(Genesis, HotBlocks, Genesis), Switch(t1, t2));
            && Connect(db2) == Ok(HotDatabaseState(0, "0", HotBlocks))
            && Redis.Lookup(db2, "transfer:1") == Some(Redis.Hash(t1))
            && Redis.Lookup(db2, "transfer:2") == Some(Redis.Hash(t2))
  {
    var info := HotTxInfo(Genesis, HotBlocks, Genesis);
    SwitchCalls(t1, t2);
    TransactHotThenConnect(raw, db1, info, Switch(t1, t2));
    HotTransfersStored(raw, db1, t1, t2);
  }

  lemma HotTransfersStored(raw: Redis.RawEffect, db1: Redis.Db, t1: map<string, string>, t2: map<string, string>)
    requires t1 != map[] && t2 != map[]
    requires Redis.Lookup(db1, "transfer:1") == None && Redis.Lookup(db1, "transfer:2") == None
    ensures var db2 := TransactHot(raw, db1, HotTxInfo(Genesis, HotBlocks, Genesis), Switch(t1, t2));
            && Redis.Lookup(db2, "transfer:1") == Some(Redis.Hash(t1))
            && Redis.Lookup(db2, "transfer:2") == Some(Redis.Hash(t2))
  {
    var info := HotTxInfo(Genesis, HotBlocks, Genesis);
    SwitchCalls(t1, t2);
    TransactHotEffect(raw, db1, info, Switch(t1, t2));
    TwoTransfers(raw, db1, t1, t2);
    assert !IsBookkeepingKey("transfer:1") && !IsBookkeepingKey("transfer:2");
  }

  /**
   * The hot flow of the tests: block 0 finalized with no writes, then
   * blocks 1..3 with transfer 1 written at height 1 and transfer 2 at
   * height 2. Connect then reads head 0 / "0" and exactly blocks 1..3, and
   * both transfers are stored.
   */
  lemma TransactHotFlow(raw: Redis.RawEffect, t1: map<string, string>, t2: map<string, string>)
    requires t1 != map[] && t2 != map[]
    ensures var db1 := TransactHot(raw, map[], HotTxInfo(HashAndHeight(-1, "0x"), [Genesis], Genesis), Silent());
            var db2 := TransactHot(raw, db1, HotTxInfo(Genesis, HotBlocks, Genesis), Switch(t1, t2));
            && Connect(db2) == Ok(HotDatabaseState(0, "0", HotBlocks))
            && Redis.Lookup(db2, "transfer:1") == Some(Redis.Hash(t1))
            && Redis.Lookup(db2, "transfer:2") == Some(Redis.Hash(t2))
  {
    FirstTransactHot(raw);
    var db1 := TransactHot(raw, map[], HotTxInfo(HashAndHeight(-1, "0x"), [Genesis], Genesis), Silent());
    SecondTransactHot(raw, db1, t1, t2);
  }
}
