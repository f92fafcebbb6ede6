/**
  What a store holds, and the naive per-key history it means: the set of a key's versions,
  with no order kept. Every ordered lookup of the backend is specified against this.
 */
module History {
  import opened Types
  import opened Bytes

  datatype Store = Store(committed: map<VKey, Option<Value>>, intents: map<Key, Intent>)

  const EMPTY := Store(map[], map[])

  /** `ts` is the newest version of `k` at or before `t`. */
  ghost predicate IsVisible(dom: set<VKey>, k: Key, t: Timestamp, ts: Timestamp) {
    && VKey(k, ts) in dom
    && ts <= t
    && forall u: Timestamp :: VKey(k, u) in dom && u <= t ==> u <= ts
  }

  lemma {:induction false} VisibleExists(dom: set<VKey>, k: Key, t: Timestamp, u: Timestamp)
    requires VKey(k, u) in dom && u <= t
    ensures exists ts: Timestamp :: IsVisible(dom, k, t, ts)
    decreases t - u
  {
    if w: Timestamp :| VKey(k, w) in dom && u < w <= t {
      VisibleExists(dom, k, t, w);
    } else {
      assert IsVisible(dom, k, t, u);
    }
  }

  /** The newest version of `k` at or before `t`, if there is one. */
  ghost function VisibleTs(dom: set<VKey>, k: Key, t: Timestamp): (r: Option<Timestamp>)
    ensures r.Some? ==> IsVisible(dom, k, t, r.value)
    ensures r.None? ==> forall u: Timestamp :: VKey(k, u) in dom ==> t < u
  {
    if u: Timestamp :| VKey(k, u) in dom && u <= t then
      VisibleExists(dom, k, t, u);
      var ts: Timestamp :| IsVisible(dom, k, t, ts);
      Some(ts)
    else None
  }

  ghost function LatestTs(dom: set<VKey>, k: Key): Option<Timestamp> {
    VisibleTs(dom, k, TS_MAX)
  }

  /** `read_with_version`. */
  ghost function ReadVersion(m: map<VKey, Option<Value>>, k: Key, t: Timestamp): Option<(Timestamp, Option<Value>)> {
    match VisibleTs(m.Keys, k, t)
    case None => None
    case Some(ts) => Some((ts, m[VKey(k, ts)]))
  }

  /** `read`: a tombstone reads as absent. */
  ghost function Read(m: map<VKey, Option<Value>>, k: Key, t: Timestamp): Option<Value> {
    match ReadVersion(m, k, t)
    case None => None
    case Some(v) => v.1
  }

  /** Keys with a version or an intent: what the key index must hold. */
  ghost function Occupied(dom: set<VKey>, locked: set<Key>): set<Key> {
    (set v | v in dom :: v.key) + locked
  }

  /** The keys a scan from `start` covers. */
  function KeysAtOrAfter(keys: set<Key>, start: Option<Key>): set<Key> {
    set k | k in keys && (start.None? || !Less(k, start.value))
  }

  /** Descending timestamp order: newest first. */
  predicate Newer(a: Timestamp, b: Timestamp) {
    a > b
  }

  ghost function VersionSet(k: Key, tss: seq<Timestamp>): set<VKey> {
    set u | u in tss :: VKey(k, u)
  }

  ghost function OlderThan(dom: set<VKey>, k: Key, before: Timestamp): set<Timestamp> {
    set v | v in dom && v.key == k && v.ts < before :: v.ts
  }

  /** Storing the first `n` versions one after another, as a map insert does. */
  ghost function PutFirst(m: map<VKey, Option<Value>>, vs: seq<CommittedVersion>, n: nat): map<VKey, Option<Value>>
    requires n <= |vs|
  {
    if n == 0 then m
    else PutFirst(m, vs, n - 1)[VKey(vs[n - 1].key, vs[n - 1].commitTs) := vs[n - 1].value]
  }

  ghost function PutAll(m: map<VKey, Option<Value>>, vs: seq<CommittedVersion>): map<VKey, Option<Value>> {
    PutFirst(m, vs, |vs|)
  }

  ghost function PutFirstIntents(m: map<Key, Intent>, ins: seq<Intent>, n: nat): map<Key, Intent>
    requires n <= |ins|
  {
    if n == 0 then m else PutFirstIntents(m, ins, n - 1)[ins[n - 1].key := ins[n - 1]]
  }

  ghost function PutAllIntents(m: map<Key, Intent>, ins: seq<Intent>): map<Key, Intent> {
    PutFirstIntents(m, ins, |ins|)
  }

  datatype IntentRef = IntentRef(key: Key, txnId: TxnId, startTs: Timestamp)

  /** The intents left when every one that a reference names exactly is removed. */
  ghost function Release(m: map<Key, Intent>, refs: seq<IntentRef>): map<Key, Intent> {
    map k | k in m && IntentRef(k, m[k].txnId, m[k].startTs) !in refs :: m[k]
  }
}
