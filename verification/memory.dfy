/**
 * The agent's two in-memory stores: a session key/value store and a per-user
 * append-only history ("memory bank").  The clock reading that stamps each
 * history entry is supplied by the caller.
 */
module Memory {
  import opened Common

  /** An ISO-8601 time stamp, as `datetime.utcnow().isoformat()` would give it. */
  type Timestamp = string

  // ---------------------------------------------------------------------------
  // SessionMemory

  /** The session store and the moment it was created. */
  datatype SessionMemory<K, V> = SessionMemory(store: map<K, V>, createdAt: Timestamp)

  /** A fresh, empty session store. */
  function NewSession<K(!new), V>(now: Timestamp): (m: SessionMemory<K, V>)
    ensures forall k :: Lookup(m, k) == None
    ensures m.createdAt == now
  {
    SessionMemory(map[], now)
  }

  /** `get(key)`: the stored value, or `None`. */
  function Lookup<K, V>(m: SessionMemory<K, V>, key: K): Option<V> {
    if key in m.store then Some(m.store[key]) else None
  }

  /** `get(key, default)`: the stored value, or `default` when the key is absent. */
  function Get<K, V>(m: SessionMemory<K, V>, key: K, default: V): (v: V)
    ensures key !in m.store ==> v == default
    ensures Lookup(m, key).Some? ==> v == Lookup(m, key).value
  {
    Lookup(m, key).GetOr(default)
  }

  /** `set(key, value)`: afterwards `key` reads as `value` and nothing else changes. */
  function Set<K(!new), V>(m: SessionMemory<K, V>, key: K, value: V): (r: SessionMemory<K, V>)
    ensures Lookup(r, key) == Some(value)
    ensures forall k :: k != key ==> Lookup(r, k) == Lookup(m, k)
    ensures r.createdAt == m.createdAt
  {
    m.(store := m.store[key := value])
  }

  /** `delete(key)`: afterwards `key` is absent and nothing else changes; an absent key is a no-op. */
  function Delete<K(!new), V>(m: SessionMemory<K, V>, key: K): (r: SessionMemory<K, V>)
    ensures Lookup(r, key) == None
    ensures forall k :: k != key ==> Lookup(r, k) == Lookup(m, k)
    ensures key !in m.store ==> r == m
    ensures r.createdAt == m.createdAt
  {
    if key in m.store then m.(store := m.store - {key}) else m
  }

  /** A second `set` on the same key overwrites the first. */
  lemma SetOverwrites<K(!new), V>(m: SessionMemory<K, V>, key: K, v1: V, v2: V)
    ensures Set(Set(m, key, v1), key, v2) == Set(m, key, v2)
  {
  }

  /** A call that changes the session store. */
  datatype SessionOp<K, V> = SetOp(key: K, value: V) | DeleteOp(key: K)

  function ApplySession<K(!new), V>(m: SessionMemory<K, V>, op: SessionOp<K, V>): SessionMemory<K, V> {
    match op
    case SetOp(k, v) => Set(m, k, v)
    case DeleteOp(k) => Delete(m, k)
  }

  /** The store after performing `ops` in order. */
  function ReplaySession<K(!new), V>(m: SessionMemory<K, V>, ops: seq<SessionOp<K, V>>): SessionMemory<K, V>
    decreases |ops|
  {
    if ops == [] then m else ApplySession(ReplaySession(m, ops[..|ops| - 1]), ops[|ops| - 1])
  }

  /**
   * What the last call touching `key` left there: the value of the last
   * `set`, nothing after a `delete`, and `initial` when no call touched it.
   */
  function LastWrite<K(==), V>(ops: seq<SessionOp<K, V>>, key: K, initial: Option<V>): Option<V>
    decreases |ops|
  {
    if ops == [] then initial
    else
      var op := ops[|ops| - 1];
      if op.key == key then (if op.SetOp? then Some(op.value) else None)
      else LastWrite(ops[..|ops| - 1], key, initial)
  }

  /** Each key of the store holds what the last call touching that key wrote. */
  lemma {:induction false} ReplayIsLastWrite<K(!new), V>(m: SessionMemory<K, V>, ops: seq<SessionOp<K, V>>, key: K)
    ensures Lookup(ReplaySession(m, ops), key) == LastWrite(ops, key, Lookup(m, key))
    decreases |ops|
  {
    if ops != [] {
      ReplayIsLastWrite(m, ops[..|ops| - 1], key);
    }
  }

  /** Replaying never changes the creation time. */
  lemma {:induction false} ReplayKeepsCreation<K(!new), V>(m: SessionMemory<K, V>, ops: seq<SessionOp<K, V>>)
    ensures ReplaySession(m, ops).createdAt == m.createdAt
    decreases |ops|
  {
    if ops != [] {
      ReplayKeepsCreation(m, ops[..|ops| - 1]);
    }
  }

  // ---------------------------------------------------------------------------
  // MemoryBank

  /** One history entry: the record and when it was added. */
  datatype Entry<R> = Entry(ts: Timestamp, record: R)

  /** Each user's entries, oldest first; users with no bucket have no history. */
  datatype MemoryBank<R> = MemoryBank(data: map<string, seq<Entry<R>>>)

  function NewMemoryBank<R>(): (b: MemoryBank<R>)
    ensures forall u :: Query(b, u) == []
  {
    MemoryBank(map[])
  }

  /** `query(user)`: the user's entries in insertion order, or `[]` for an unknown user. */
  function Query<R>(b: MemoryBank<R>, user: string): seq<Entry<R>> {
    if user in b.data then b.data[user] else []
  }

  /** `add(user, record)`: one entry appended to the user's history, every other history untouched. */
  function Add<R>(b: MemoryBank<R>, user: string, record: R, now: Timestamp): (r: MemoryBank<R>)
    ensures Query(r, user) == Query(b, user) + [Entry(now, record)]
    ensures forall u :: u != user ==> Query(r, u) == Query(b, u)
    ensures r.data.Keys == b.data.Keys + {user}
  {
    MemoryBank(b.data[user := Query(b, user) + [Entry(now, record)]])
  }

  /** A call on the memory bank. */
  datatype BankOp<R> = AddOp(user: string, record: R, ts: Timestamp) | QueryOp(user: string)

  /** The bank after a call and what the call returned (`[]` for `add`). */
  datatype BankStep<R> = BankStep(bank: MemoryBank<R>, reply: seq<Entry<R>>)

  function PerformBank<R>(b: MemoryBank<R>, op: BankOp<R>): (s: BankStep<R>)
    ensures op.QueryOp? ==> s.bank == b && s.reply == Query(b, op.user)
    ensures op.AddOp? ==> s.bank == Add(b, op.user, op.record, op.ts)
  {
    match op
    case AddOp(u, r, ts) => BankStep(Add(b, u, r, ts), [])
    case QueryOp(u) => BankStep(b, Query(b, u))
  }

  /** The bank after performing `ops` in order. */
  function RunBank<R>(b: MemoryBank<R>, ops: seq<BankOp<R>>): MemoryBank<R>
    decreases |ops|
  {
    if ops == [] then b else PerformBank(RunBank(b, ops[..|ops| - 1]), ops[|ops| - 1]).bank
  }

  /** The entries that the `add` calls of `ops` create for `user`, in call order. */
  function AddedFor<R>(ops: seq<BankOp<R>>, user: string): seq<Entry<R>>
    decreases |ops|
  {
    if ops == [] then []
    else
      var op := ops[|ops| - 1];
      AddedFor(ops[..|ops| - 1], user) + (if op.AddOp? && op.user == user then [Entry(op.ts, op.record)] else [])
  }

  /** A user's history after any calls is the earlier history followed by that user's additions. */
  lemma {:induction false} RunBankHistory<R>(b: MemoryBank<R>, ops: seq<BankOp<R>>, user: string)
    ensures Query(RunBank(b, ops), user) == Query(b, user) + AddedFor(ops, user)
    decreases |ops|
  {
    if ops != [] {
      var init := ops[..|ops| - 1];
      RunBankHistory(b, init, user);
      var before := RunBank(b, init);
      var op := ops[|ops| - 1];
      if op.AddOp? && op.user == user {
        assert Query(RunBank(b, ops), user) == Query(before, user) + [Entry(op.ts, op.record)];
      } else {
        assert Query(RunBank(b, ops), user) == Query(before, user);
      }
    }
  }

  /**
   * From a new bank, `query(user)` returns exactly the entries the `add` calls
   * made for that user, in call order, and `[]` for a user never added to.
   */
  lemma QueryFromNewBank<R>(ops: seq<BankOp<R>>, user: string)
    ensures Query(RunBank(NewMemoryBank(), ops), user) == AddedFor(ops, user)
  {
    RunBankHistory(NewMemoryBank(), ops, user);
  }

  /** Histories only grow: no call removes or reorders a user's earlier entries. */
  lemma HistoryOnlyGrows<R>(b: MemoryBank<R>, ops: seq<BankOp<R>>, user: string)
    ensures |Query(b, user)| <= |Query(RunBank(b, ops), user)|
    ensures Query(RunBank(b, ops), user)[..|Query(b, user)|] == Query(b, user)
  {
    RunBankHistory(b, ops, user);
  }

  /** `query` creates no bucket: only `add` calls for a user give that user a bucket. */
  lemma {:induction false} QueryCreatesNoBucket<R>(b: MemoryBank<R>, ops: seq<BankOp<R>>, user: string)
    requires forall i :: 0 <= i < |ops| ==> !(ops[i].AddOp? && ops[i].user == user)
    ensures (user in RunBank(b, ops).data) == (user in b.data)
    decreases |ops|
  {
    if ops != [] {
      QueryCreatesNoBucket(b, ops[..|ops| - 1], user);
    }
  }
}
