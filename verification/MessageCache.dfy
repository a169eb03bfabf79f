/** The message cache: four maps and a byte counter that is lowered by adding a two's
    complement (messagePersist.go, lines 49-167). */
module MessageCache {

  type bytes = seq<int>

  const WORD: nat := 0x1_0000_0000_0000_0000

  function ToUint64(n: int): (r: nat)
    ensures r < WORD
  {
    n % WORD
  }

  function Complement(x: nat): nat
    requires x < WORD
  {
    WORD - 1 - x
  }

  function AddUint64(x: nat, y: nat): nat {
    ToUint64(x + y)
  }

  /** The state of a cache. */
  datatype Cache = Cache(items: map<string, bytes>, age: map<string, int>, msgIdIdx: map<string, string>,
                         msgIdRevIdx: map<string, string>, size: nat, maxSize: nat, maxEntrySize: nat)

  /** A missing key of a string map reads as the empty string. */
  function Get(m: map<string, string>, k: string): string {
    if k in m then m[k] else ""
  }

  predicate Fits(c: Cache, msg: bytes) {
    |msg| <= c.maxEntrySize && AddUint64(c.size, |msg|) <= c.maxSize
  }

  function Deleted(c: Cache, id: string): Cache {
    if id !in c.items then c
    else
      c.(items := c.items - {id}, age := c.age - {id},
         size := AddUint64(c.size, Complement(ToUint64(|c.items[id]| - 1))),
         msgIdIdx := c.msgIdIdx - {Get(c.msgIdRevIdx, id)}, msgIdRevIdx := c.msgIdRevIdx - {id})
  }

  function Stored(c: Cache, queueId: string, msgId: string, msg: bytes, now: int): Cache {
    if !Fits(c, msg) then c
    else
      var d := Deleted(c, queueId);
      d.(msgIdIdx := d.msgIdIdx[msgId := queueId], msgIdRevIdx := d.msgIdRevIdx[queueId := msgId],
         items := d.items[queueId := msg], age := d.age[queueId := now], size := AddUint64(d.size, |msg|))
  }

  function Swept(c: Cache, keys: seq<string>): Cache {
    if keys == [] then c else Deleted(Swept(c, keys[..|keys| - 1]), keys[|keys| - 1])
  }

  function Prunable(c: Cache, now: int): set<string> {
    if c.size < c.maxSize / 2 then {} else set k | k in c.age && c.age[k] < now - 300
  }

  function ByMessageId(c: Cache, msgId: string): bytes {
    var queueId := Get(c.msgIdIdx, msgId);
    if queueId in c.items then c.items[queueId] else []
  }

  // ----- The number of cached bytes -----

  ghost function Total(items: map<string, bytes>): nat
    decreases |items|
  {
    if items == map[] then 0
    else
      var k :| k in items;
      |items[k]| + Total(items - {k})
  }

  lemma {:induction false} TotalWithout(items: map<string, bytes>, k: string)
    requires k in items
    ensures Total(items) == |items[k]| + Total(items - {k})
    decreases |items|
  {
    var j :| j in items && Total(items) == |items[j]| + Total(items - {j});
    if j != k {
      TotalWithout(items - {j}, k);
      TotalWithout(items - {k}, j);
      assert items - {j} - {k} == items - {k} - {j};
    }
  }

  lemma TotalWith(items: map<string, bytes>, k: string, msg: bytes)
    requires k !in items
    ensures Total(items[k := msg]) == Total(items) + |msg|
  {
    TotalWithout(items[k := msg], k);
    assert items[k := msg] - {k} == items;
  }

  // ----- The invariant -----

  /** The counter is the number of cached bytes and within the limit, the maps hold
      the same queue ids, and the index points only at cached messages that bear
      the message id. The two limits together fit in a word. */
  ghost predicate Valid(c: Cache) {
    && c.maxSize + c.maxEntrySize < WORD
    && c.size == Total(c.items) <= c.maxSize
    && c.items.Keys == c.age.Keys == c.msgIdRevIdx.Keys
    && forall m :: m in c.msgIdIdx ==> c.msgIdIdx[m] in c.items && c.msgIdRevIdx[c.msgIdIdx[m]] == m
  }

  /** Adding the complement of n - 1 subtracts n, and nothing when n is zero. */
  lemma ComplementSubtracts(size: nat, n: nat)
    requires n <= size < WORD
    ensures AddUint64(size, Complement(ToUint64(n - 1))) == size - n
  {
    if n > 0 {
      assert Complement(ToUint64(n - 1)) == WORD - n;
      assert ToUint64(size - n + WORD) == size - n;
    }
  }

  lemma DeletedIsValid(c: Cache, id: string)
    requires Valid(c)
    ensures Valid(Deleted(c, id)) && Deleted(c, id).items == c.items - {id}
    ensures id in c.items ==> Deleted(c, id).size == c.size - |c.items[id]|
  {
    if id in c.items {
      TotalWithout(c.items, id);
      ComplementSubtracts(c.size, |c.items[id]|);
      var d := Deleted(c, id);
      forall m | m in d.msgIdIdx ensures d.msgIdIdx[m] in d.items && d.msgIdRevIdx[d.msgIdIdx[m]] == m {
        assert c.msgIdRevIdx[c.msgIdIdx[m]] == m;
      }
    } else {
      assert c.items - {id} == c.items;
    }
  }

  lemma StoredAfter(d: Cache, queueId: string, msgId: string, msg: bytes, now: int)
    requires Valid(d) && queueId !in d.items && d.size + |msg| <= d.maxSize
    ensures Valid(d.(msgIdIdx := d.msgIdIdx[msgId := queueId], msgIdRevIdx := d.msgIdRevIdx[queueId := msgId],
                     items := d.items[queueId := msg], age := d.age[queueId := now], size := AddUint64(d.size, |msg|)))
  {
    TotalWith(d.items, queueId, msg);
    assert AddUint64(d.size, |msg|) == d.size + |msg|;
  }

  lemma StoredIsValid(c: Cache, queueId: string, msgId: string, msg: bytes, now: int)
    requires Valid(c)
    ensures Valid(Stored(c, queueId, msgId, msg, now))
    ensures Fits(c, msg) <==> |msg| <= c.maxEntrySize && c.size + |msg| <= c.maxSize
  {
    if |msg| <= c.maxEntrySize {
      assert AddUint64(c.size, |msg|) == c.size + |msg|;
    }
    if Fits(c, msg) {
      DeletedIsValid(c, queueId);
      var d := Deleted(c, queueId);
      StoredAfter(d, queueId, msgId, msg, now);
    }
  }

  lemma {:induction false} SweptIsValid(c: Cache, keys: seq<string>)
    requires Valid(c)
    ensures Valid(Swept(c, keys)) && Swept(c, keys).items == c.items - (set k | k in keys)
    decreases |keys|
  {
    if keys != [] {
      var init, last := keys[..|keys| - 1], keys[|keys| - 1];
      SweptIsValid(c, init);
      DeletedIsValid(Swept(c, init), last);
      assert (set k | k in keys) == (set k | k in init) + {last};
    }
  }

  // ----- Any sequence of operations -----

  /** A prune scans under one lock and deletes under another, so that operations
      may come between: its two halves are separate. */
  datatype Op =
    | Set(queueId: string, msgId: string, msg: bytes, now: int)
    | Delete(id: string)
    | Sweep(keys: seq<string>)

  function Apply(c: Cache, op: Op): Cache {
    match op
    case Set(q, m, msg, now) => Stored(c, q, m, msg, now)
    case Delete(id) => Deleted(c, id)
    case Sweep(keys) => Swept(c, keys)
  }

  function Run(c: Cache, ops: seq<Op>): Cache
    decreases |ops|
  {
    if ops == [] then c else Run(Apply(c, ops[0]), ops[1..])
  }

  function New(maxEntrySize: nat, maxSize: nat): Cache {
    Cache(map[], map[], map[], map[], 0, maxSize, maxEntrySize)
  }

  lemma {:induction false} RunKeepsValid(c: Cache, ops: seq<Op>)
    requires Valid(c)
    ensures Valid(Run(c, ops))
    decreases |ops|
  {
    if ops != [] {
      match ops[0] {
        case Set(q, m, msg, now) => StoredIsValid(c, q, m, msg, now);
        case Delete(id) => DeletedIsValid(c, id);
        case Sweep(keys) => SweptIsValid(c, keys);
      }
      RunKeepsValid(Apply(c, ops[0]), ops[1..]);
    }
  }

  /** What was stored last under each queue id and not deleted since: message id, bytes
      and the time of storing. */
  function Latest(ops: seq<Op>, c: Cache): map<string, (string, bytes, int)>
    decreases |ops|
  {
    if ops == [] then map[]
    else
      var init, last := ops[..|ops| - 1], ops[|ops| - 1];
      var before := Latest(init, c);
      match last
      case Set(q, m, msg, now) => if Fits(Run(c, init), msg) then before[q := (m, msg, now)] else before
      case Delete(id) => before - {id}
      case Sweep(keys) => before - set k | k in keys
  }

  lemma {:induction false} RunAppend(c: Cache, ops: seq<Op>, op: Op)
    ensures Run(c, ops + [op]) == Apply(Run(c, ops), op)
    decreases |ops|
  {
    if ops == [] {
      assert ops + [op] == [op] && [op][1..] == [];
    } else {
      assert (ops + [op])[1..] == ops[1..] + [op];
      RunAppend(Apply(c, ops[0]), ops[1..], op);
    }
  }

  /** The cache holds exactly what was stored last and not deleted since. */
  ghost predicate Holds(c: Cache, latest: map<string, (string, bytes, int)>) {
    && c.items.Keys == latest.Keys
    && (forall q :: q in latest ==> c.items[q] == latest[q].1)
    && (forall q :: q in latest ==> q in c.msgIdRevIdx && c.msgIdRevIdx[q] == latest[q].0)
    && (forall q :: q in latest ==> q in c.age && c.age[q] == latest[q].2)
  }

  lemma {:induction false} SweptHolds(c: Cache, latest: map<string, (string, bytes, int)>, keys: seq<string>)
    requires Holds(c, latest)
    ensures Holds(Swept(c, keys), latest - set k | k in keys)
    decreases |keys|
  {
    if keys != [] {
      var init, last := keys[..|keys| - 1], keys[|keys| - 1];
      SweptHolds(c, latest, init);
      assert (set k | k in keys) == (set k | k in init) + {last};
      assert latest - (set k | k in keys) == latest - (set k | k in init) - {last};
    }
  }

  lemma {:induction false} RunHolds(ops: seq<Op>, maxEntrySize: nat, maxSize: nat)
    requires maxSize + maxEntrySize < WORD
    ensures Holds(Run(New(maxEntrySize, maxSize), ops), Latest(ops, New(maxEntrySize, maxSize)))
    decreases |ops|
  {
    var c := New(maxEntrySize, maxSize);
    if ops != [] {
      var init, last := ops[..|ops| - 1], ops[|ops| - 1];
      RunHolds(init, maxEntrySize, maxSize);
      RunAppend(c, init, last);
      assert ops == init + [last];
      match last
      case Sweep(keys) => SweptHolds(Run(c, init), Latest(init, c), keys);
      case _ =>
    }
  }

  lemma {:induction false} SweepKeepsLimits(c: Cache, keys: seq<string>)
    ensures Swept(c, keys).maxSize == c.maxSize && Swept(c, keys).maxEntrySize == c.maxEntrySize
    decreases |keys|
  {
    if keys != [] {
      SweepKeepsLimits(c, keys[..|keys| - 1]);
    }
  }

  lemma {:induction false} LimitsStay(c: Cache, ops: seq<Op>)
    ensures Run(c, ops).maxSize == c.maxSize && Run(c, ops).maxEntrySize == c.maxEntrySize
    decreases |ops|
  {
    if ops != [] {
      if ops[0].Sweep? {
        SweepKeepsLimits(c, ops[0].keys);
      }
      LimitsStay(Apply(c, ops[0]), ops[1..]);
    }
  }

  /** After any run, a prune leaves exactly what was stored last within 300 seconds,
      and all of it while less than half of the bytes are in use. */
  lemma PruneDropsOld(ops: seq<Op>, maxEntrySize: nat, maxSize: nat, keys: seq<string>, now: int)
    requires maxSize + maxEntrySize < WORD
    requires (set k | k in keys) == Prunable(Run(New(maxEntrySize, maxSize), ops), now)
    ensures var start := New(maxEntrySize, maxSize);
            var c, latest := Run(start, ops), Latest(ops, start);
            forall q :: q in Swept(c, keys).items
                   <==> q in latest && (Total(c.items) < maxSize / 2 || latest[q].2 >= now - 300)
  {
    var start := New(maxEntrySize, maxSize);
    var c := Run(start, ops);
    assert Total(map[]) == 0;
    RunKeepsValid(start, ops);
    RunHolds(ops, maxEntrySize, maxSize);
    LimitsStay(start, ops);
    SweptIsValid(c, keys);
    hide Run, Latest, Swept;
  }

  // ----- How long a message id leads to its message -----

  /** A deletion takes exactly the message id of the deleted message out of the index. */
  lemma DeletedIndex(c: Cache, id: string, m: string)
    requires Valid(c)
    ensures var d := Deleted(c, id);
            && (m in d.msgIdIdx <==> m in c.msgIdIdx && !(id in c.items && c.msgIdRevIdx[id] == m))
            && (m in d.msgIdIdx ==> d.msgIdIdx[m] == c.msgIdIdx[m])
  {
  }

  /** A store takes the message id of what it replaces out of the index, and puts in
      its own. */
  lemma StoredIndex(c: Cache, queueId: string, msgId: string, msg: bytes, now: int, m: string)
    requires Valid(c) && Fits(c, msg)
    ensures var d := Stored(c, queueId, msgId, msg, now);
            && (m == msgId ==> m in d.msgIdIdx && d.msgIdIdx[m] == queueId)
            && (m != msgId ==>
                  (m in d.msgIdIdx <==> m in c.msgIdIdx && !(queueId in c.items && c.msgIdRevIdx[queueId] == m))
                  && (m in d.msgIdIdx ==> d.msgIdIdx[m] == c.msgIdIdx[m]))
  {
    DeletedIndex(c, queueId, m);
  }

  /** The operation drops or replaces no message that has this message id, nor does it
      store one with it. */
  ghost predicate LeavesAlone(c: Cache, op: Op, msgId: string) {
    match op
    case Set(q, m, msg, _) => m != msgId && !(q in c.msgIdRevIdx && c.msgIdRevIdx[q] == msgId)
    case Delete(id) => !(id in c.msgIdRevIdx && c.msgIdRevIdx[id] == msgId)
    case Sweep(keys) => forall k :: k in keys && k in c.msgIdRevIdx ==> c.msgIdRevIdx[k] != msgId
  }

  /** The message id leads to the message. */
  ghost predicate Leads(c: Cache, msgId: string, queueId: string, msg: bytes) {
    msgId in c.msgIdIdx && c.msgIdIdx[msgId] == queueId && queueId in c.items && c.items[queueId] == msg
  }

  lemma {:induction false} SweepLeads(c: Cache, keys: seq<string>, msgId: string, queueId: string, msg: bytes)
    requires Valid(c) && Leads(c, msgId, queueId, msg) && LeavesAlone(c, Sweep(keys), msgId)
    ensures Valid(Swept(c, keys)) && Leads(Swept(c, keys), msgId, queueId, msg)
    ensures forall k :: k in Swept(c, keys).msgIdRevIdx ==>
              k in c.msgIdRevIdx && Swept(c, keys).msgIdRevIdx[k] == c.msgIdRevIdx[k]
    decreases |keys|
  {
    if keys != [] {
      var init, last := keys[..|keys| - 1], keys[|keys| - 1];
      SweepLeads(c, init, msgId, queueId, msg);
      DeletedIsValid(Swept(c, init), last);
      assert last in keys;
    }
  }

  /** What a run stored under a message id is found by it for as long as nothing with
      that message id is stored, replaced or dropped. */
  lemma {:induction false} StaysFound(c: Cache, ops: seq<Op>, msgId: string, queueId: string, msg: bytes)
    requires Valid(c) && Leads(c, msgId, queueId, msg)
    requires forall i :: 0 <= i < |ops| ==> LeavesAlone(Run(c, ops[..i]), ops[i], msgId)
    ensures ByMessageId(Run(c, ops), msgId) == msg
    decreases |ops|
  {
    if ops != [] {
      var next := Apply(c, ops[0]);
      assert ops[..0] == [] && LeavesAlone(c, ops[0], msgId);
      match ops[0] {
        case Set(q, m, bytes, now) => StoredIsValid(c, q, m, bytes, now);
        case Delete(id) => DeletedIsValid(c, id);
        case Sweep(keys) => SweepLeads(c, keys, msgId, queueId, msg);
      }
      forall i | 0 <= i < |ops[1..]| ensures LeavesAlone(Run(next, ops[1..][..i]), ops[1..][i], msgId) {
        assert ops[..i + 1][1..] == ops[1..][..i];
        assert LeavesAlone(Run(c, ops[..i + 1]), ops[i + 1], msgId);
      }
      StaysFound(next, ops[1..], msgId, queueId, msg);
    }
  }

  /** A lookup by message id finds nothing, or what was stored last under a queue id
      with that very message id and not deleted since. This fails for a message id
      exactly when it is unknown while a message without a queue id is cached under
      another message id. */
  ghost predicate LookupSound(c: Cache, latest: map<string, (string, bytes, int)>, msgId: string) {
    var queueId := Get(c.msgIdIdx, msgId);
    queueId in c.items ==>
      queueId in latest && latest[queueId].0 == msgId && latest[queueId].1 == ByMessageId(c, msgId)
  }

  lemma LookupSoundIff(ops: seq<Op>, maxEntrySize: nat, maxSize: nat, msgId: string)
    requires maxSize + maxEntrySize < WORD
    ensures var c := Run(New(maxEntrySize, maxSize), ops);
            LookupSound(c, Latest(ops, New(maxEntrySize, maxSize)), msgId)
            <==> !(msgId !in c.msgIdIdx && "" in c.items && Get(c.msgIdRevIdx, "") != msgId)
  {
    var start := New(maxEntrySize, maxSize);
    assert Total(map[]) == 0;
    RunKeepsValid(start, ops);
    RunHolds(ops, maxEntrySize, maxSize);
  }

  /** No message of the run is stored without a queue id. */
  predicate HaveQueueIds(ops: seq<Op>) {
    forall i :: 0 <= i < |ops| && ops[i].Set? ==> ops[i].queueId != ""
  }

  lemma {:induction false} LatestHaveQueueIds(ops: seq<Op>, c: Cache)
    requires HaveQueueIds(ops)
    ensures "" !in Latest(ops, c)
    decreases |ops|
  {
    if ops != [] {
      LatestHaveQueueIds(ops[..|ops| - 1], c);
    }
  }

  /** When every stored message has a queue id, every lookup of every run is sound. */
  lemma QueueIdsMakeLookupsSound(ops: seq<Op>, maxEntrySize: nat, maxSize: nat, msgId: string)
    requires maxSize + maxEntrySize < WORD && HaveQueueIds(ops)
    ensures var start := New(maxEntrySize, maxSize);
            LookupSound(Run(start, ops), Latest(ops, start), msgId)
  {
    LatestHaveQueueIds(ops, New(maxEntrySize, maxSize));
    RunHolds(ops, maxEntrySize, maxSize);
    LookupSoundIff(ops, maxEntrySize, maxSize, msgId);
  }

  /** And one that is stored without a queue id is found by every other message id. */
  lemma NoQueueIdIsFoundByAll(msgId: string, other: string, msg: bytes, maxEntrySize: nat, maxSize: nat)
    requires |msg| <= maxEntrySize && |msg| <= maxSize && maxSize + maxEntrySize < WORD && other != msgId
    ensures var start, ops := New(maxEntrySize, maxSize), [Set("", msgId, msg, 0)];
            !LookupSound(Run(start, ops), Latest(ops, start), other) && ByMessageId(Run(start, ops), other) == msg
  {
    var start, op := New(maxEntrySize, maxSize), Set("", msgId, msg, 0);
    assert [op] == [] + [op];
    RunAppend(start, [], op);
    assert Run(start, []) == start && AddUint64(0, |msg|) == |msg|;
    assert Run(start, [op]) == Stored(start, "", msgId, msg, 0);
    LookupSoundIff([op], maxEntrySize, maxSize, other);
  }

  /** A message that was just stored is found by both of its ids. */
  lemma StoredIsFound(c: Cache, queueId: string, msgId: string, msg: bytes, now: int)
    requires Valid(c) && Fits(c, msg)
    ensures var d := Stored(c, queueId, msgId, msg, now);
            ByMessageId(d, msgId) == msg && queueId in d.items && d.items[queueId] == msg
  {
  }

  // ----- The object -----

  class MessageStore {
    var cache: map<string, bytes>
    var age: map<string, int>
    var msgIdIdx: map<string, string>
    var msgIdRevIdx: map<string, string>
    var size: nat
    const maxSize: nat
    const maxEntrySize: nat

    function View(): Cache
      reads this
    {
      Cache(cache, age, msgIdIdx, msgIdRevIdx, size, maxSize, maxEntrySize)
    }

    constructor (maxEntrySize: nat, maxSize: nat)
      ensures View() == New(maxEntrySize, maxSize)
    {
      cache, age, msgIdIdx, msgIdRevIdx, size := map[], map[], map[], map[], 0;
      this.maxSize, this.maxEntrySize := maxSize, maxEntrySize;
    }

    method GetByQueueId(queueId: string) returns (msg: bytes)
      ensures msg == if queueId in cache then cache[queueId] else []
    {
      msg := if queueId in cache then cache[queueId] else [];
    }

    method GetByMessageId(msgId: string) returns (msg: bytes)
      ensures msg == ByMessageId(View(), msgId)
    {
      var queueId := Get(msgIdIdx, msgId);
      msg := GetByQueueId(queueId);
    }

    method Del(id: string)
      modifies this
      ensures View() == Deleted(old(View()), id)
    {
      if id !in cache {
        return;
      }
      var n := |cache[id]|;
      cache := cache - {id};
      age := age - {id};
      size := AddUint64(size, Complement(ToUint64(n - 1)));
      msgIdIdx := msgIdIdx - {Get(msgIdRevIdx, id)};
      msgIdRevIdx := msgIdRevIdx - {id};
    }

    method Set(queueId: string, msgId: string, msg: bytes, now: int) returns (ok: bool)
      modifies this
      ensures View() == Stored(old(View()), queueId, msgId, msg, now) && ok == Fits(old(View()), msg)
    {
      if |msg| > maxEntrySize {
        return false;
      }
      if AddUint64(size, |msg|) > maxSize {
        return false;
      }
      if queueId in cache {
        Del(queueId);
      }
      msgIdIdx := msgIdIdx[msgId := queueId];
      msgIdRevIdx := msgIdRevIdx[queueId := msgId];
      cache := cache[queueId := msg];
      age := age[queueId := now];
      size := AddUint64(size, |msg|);
      return true;
    }

    /** The scan of a prune, in the order in which the map gives the keys. */
    method Scan(now: int) returns (keys: seq<string>)
      ensures (set k | k in keys) == Prunable(View(), now)
    {
      keys := [];
      if size < maxSize / 2 {
        return;
      }
      var rest := age.Keys;
      while rest != {}
        invariant rest <= age.Keys
        invariant forall k :: k in keys <==> k in age.Keys - rest && age[k] < now - 300
        decreases rest
      {
        var k :| k in rest;
        if age[k] < now - 300 {
          keys := keys + [k];
        }
        rest := rest - {k};
      }
    }

    method SweepKeys(keys: seq<string>)
      modifies this
      ensures View() == Swept(old(View()), keys)
    {
      for i := 0 to |keys|
        invariant View() == Swept(old(View()), keys[..i])
      {
        assert keys[..i + 1][..i] == keys[..i];
        Del(keys[i]);
      }
      assert keys[..|keys|] == keys;
    }

    /** A prune with nothing in between drops exactly the messages older than five
        minutes, and only when the cache is at least half full. */
    method Prune(now: int) returns (keys: seq<string>)
      requires Valid(View())
      modifies this
      ensures (set k | k in keys) == Prunable(old(View()), now) && View() == Swept(old(View()), keys)
      ensures Valid(View()) && cache == old(cache) - Prunable(old(View()), now)
    {
      keys := Scan(now);
      if keys == [] {
        return;
      }
      SweptIsValid(View(), keys);
      SweepKeys(keys);
    }
  }
}
