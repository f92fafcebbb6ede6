/** `InMemoryBackend`: an ordered map of versions, a map of intents and a redundant key index. */
module Backend {
  import opened Types
  import opened Bytes
  import opened Ordered
  import opened History

  class InMemoryBackend {
    var committed: map<VKey, Option<Value>>
    var intents: map<Key, Intent>
    var allKeysSet: set<Key>

    /** The index is exact, and each intent is filed under its own key. */
    ghost predicate Valid()
      reads this
    {
      && allKeysSet == Occupied(committed.Keys, intents.Keys)
      && forall k :: k in intents ==> intents[k].key == k
    }

    ghost function Contents(): Store
      reads this
    {
      Store(committed, intents)
    }

    constructor ()
      ensures Valid() && Contents() == EMPTY
    {
      committed := map[];
      intents := map[];
      allKeysSet := {};
    }

    /** `committed.range(lo..=hi)` */
    function RangeClosed(lo: VKey, hi: VKey): (r: seq<VKey>)
      reads this
      ensures Ascending(r, VLess)
      ensures forall v :: v in r <==> v in committed && !VLess(v, lo) && !VLess(hi, v)
    {
      VLessIsOrder();
      Sorted((set v | v in committed && !VLess(v, lo) && !VLess(hi, v)), VLess)
    }

    /** `committed.range(lo..hi)` */
    function RangeHalfOpen(lo: VKey, hi: VKey): (r: seq<VKey>)
      reads this
      ensures Ascending(r, VLess)
      ensures forall v :: v in r <==> v in committed && !VLess(v, lo) && VLess(v, hi)
    {
      VLessIsOrder();
      Sorted((set v | v in committed && !VLess(v, lo) && VLess(v, hi)), VLess)
    }

    /** `committed.range(lo..)` */
    function RangeFrom(lo: VKey): (r: seq<VKey>)
      reads this
      ensures Ascending(r, VLess)
      ensures forall v :: v in r <==> v in committed && !VLess(v, lo)
    {
      VLessIsOrder();
      Sorted((set v | v in committed && !VLess(v, lo)), VLess)
    }

    lemma KeyRangeIsHistory(key: Key, t: Timestamp)
      ensures forall v :: v in RangeClosed(VKey(key, 0), VKey(key, t)) <==> v in committed && v.key == key && v.ts <= t
    {
      LessIrreflexive(key);
      forall v | v in RangeClosed(VKey(key, 0), VKey(key, t)) ensures v.key == key && v.ts <= t {
        KeyRun(key, 0, t, v);
      }
    }

    /** The last entry of a key's range is its newest version there. */
    lemma LastIsVisible(key: Key, t: Timestamp)
      ensures var r := RangeClosed(VKey(key, 0), VKey(key, t));
              if r == [] then VisibleTs(committed.Keys, key, t) == None
              else
                && r[|r| - 1].key == key && r[|r| - 1] in committed
                && VisibleTs(committed.Keys, key, t) == Some(r[|r| - 1].ts)
    {
      hide VisibleTs, RangeClosed;
      var r := RangeClosed(VKey(key, 0), VKey(key, t));
      KeyRangeIsHistory(key, t);
      if r == [] {
        assert forall u: Timestamp :: VKey(key, u) in committed && u <= t ==> VKey(key, u) in r;
      } else {
        LastIsNewest(key, t, r);
      }
    }

    lemma LastIsNewest(key: Key, t: Timestamp, r: seq<VKey>)
      requires r != [] && Ascending(r, VLess)
      requires forall v :: v in r <==> v in committed && v.key == key && v.ts <= t
      ensures r[|r| - 1].key == key && IsVisible(committed.Keys, key, t, r[|r| - 1].ts)
    {
      var n := |r| - 1;
      assert r[n] in r;
      LessIrreflexive(key);
      forall u: Timestamp | VKey(key, u) in committed && u <= t ensures u <= r[n].ts {
        assert VKey(key, u) in r;
        var i :| 0 <= i < |r| && r[i] == VKey(key, u);
        assert i == n || VLess(r[i], r[n]);
      }
      assert VKey(key, r[n].ts) == r[n];
    }

    function GetVisibleCommitted(key: Key, readTs: Timestamp): (v: Option<CommittedVersion>)
      reads this
      ensures match VisibleTs(committed.Keys, key, readTs)
              case None => v == None
              case Some(ts) => v == Some(CommittedVersion(key, ts, committed[VKey(key, ts)]))
    {
      var r := RangeClosed(VKey(key, 0), VKey(key, readTs));
      LastIsVisible(key, readTs);
      if r != [] && r[|r| - 1].key == key then
        var last := r[|r| - 1];
        Some(CommittedVersion(last.key, last.ts, committed[last]))
      else None
    }

    function GetLatestCommitted(key: Key): (v: Option<CommittedVersion>)
      reads this
      ensures match LatestTs(committed.Keys, key)
              case None => v == None
              case Some(ts) => v == Some(CommittedVersion(key, ts, committed[VKey(key, ts)]))
    {
      var r := RangeClosed(VKey(key, 0), VKey(key, TS_MAX));
      LastIsVisible(key, TS_MAX);
      if r != [] && r[|r| - 1].key == key then
        var last := r[|r| - 1];
        Some(CommittedVersion(last.key, last.ts, committed[last]))
      else None
    }

    function GetLatestCommitTs(key: Key): (ts: Option<Timestamp>)
      reads this
      ensures ts == LatestTs(committed.Keys, key)
    {
      var r := RangeClosed(VKey(key, 0), VKey(key, TS_MAX));
      LastIsVisible(key, TS_MAX);
      if r != [] && r[|r| - 1].key == key then Some(r[|r| - 1].ts) else None
    }

    function GetIntent(key: Key): Option<Intent>
      reads this
    {
      if key in intents then Some(intents[key]) else None
    }

    function KeysFrom(start: Option<Key>, limit: nat): (r: seq<Key>)
      reads this
      ensures IsFirst(r, KeysAtOrAfter(allKeysSet, start), limit, Less)
    {
      LessIsOrder();
      TakeIsFirst(KeysAtOrAfter(allKeysSet, start), limit, Less);
      Take(Sorted(KeysAtOrAfter(allKeysSet, start), Less), limit)
    }

    function AllKeys(): (r: seq<Key>)
      reads this
      ensures Ascending(r, Less) && |r| == |allKeysSet|
      ensures forall k :: k in r <==> k in allKeysSet
    {
      LessIsOrder();
      Sorted(allKeysSet, Less)
    }

    /** Every version of the key, oldest first, and nothing of an adjacent key. */
    method GetCommittedVersions(key: Key) returns (result: seq<CommittedVersion>)
      ensures forall i, j :: 0 <= i < j < |result| ==> result[i].commitTs < result[j].commitTs
      ensures forall v :: v in result <==>
                v.key == key && VKey(key, v.commitTs) in committed && committed[VKey(key, v.commitTs)] == v.value
    {
      hide Ascending, InMemoryBackend.RangeFrom;
      result := [];
      var r := RangeFrom(VKey(key, 0));
      var i := 0;
      while i < |r| && r[i].key == key
        invariant 0 <= i <= |r| && |result| == i
        invariant forall j :: 0 <= j < i ==>
                    r[j] in committed && r[j].key == key && result[j] == CommittedVersion(key, r[j].ts, committed[r[j]])
      {
        assert r[i] in r;
        result := result + [CommittedVersion(r[i].key, r[i].ts, committed[r[i]])];
        i := i + 1;
      }
      OldestFirst(key, r, result);
    }

    lemma OldestFirst(key: Key, r: seq<VKey>, result: seq<CommittedVersion>)
      requires r == RangeFrom(VKey(key, 0)) && |result| <= |r|
      requires forall j :: 0 <= j < |result| ==>
                 r[j] in committed && r[j].key == key && result[j] == CommittedVersion(key, r[j].ts, committed[r[j]])
      requires |result| == |r| || r[|result|].key != key
      ensures forall i, j :: 0 <= i < j < |result| ==> result[i].commitTs < result[j].commitTs
      ensures forall v :: v in result <==>
                v.key == key && VKey(key, v.commitTs) in committed && committed[VKey(key, v.commitTs)] == v.value
    {
      LessIrreflexive(key);
      forall j, l | 0 <= j < l < |result| ensures result[j].commitTs < result[l].commitTs {
        assert VLess(r[j], r[l]);
      }
      var i := |result|;
      forall v: CommittedVersion
        | v.key == key && VKey(key, v.commitTs) in committed && committed[VKey(key, v.commitTs)] == v.value
        ensures v in result
      {
        assert VKey(key, v.commitTs) in r;
        var n :| 0 <= n < |r| && r[n] == VKey(key, v.commitTs);
        if i < |r| {
          assert r[i] in r;
          NoGap(key, v.commitTs, r[i]);
          assert forall l :: i < l < |r| ==> VLess(r[i], r[l]);
        }
        assert result[n] == v;
      }
      forall v | v in result
        ensures v.key == key && VKey(key, v.commitTs) in committed && committed[VKey(key, v.commitTs)] == v.value
      {
        var n :| 0 <= n < |result| && result[n] == v;
        assert r[n] == VKey(key, r[n].ts);
      }
    }

    lemma NoGap(key: Key, ts: Timestamp, v: VKey)
      requires !VLess(v, VKey(key, 0)) && v.key != key
      ensures !VLess(v, VKey(key, ts))
    {
      LessTotal(v.key, key);
    }

    /** The `limit` newest timestamps before `beforeTs`, newest first. */
    method GetCommittedTimestampsBefore(key: Key, beforeTs: Timestamp, limit: nat) returns (result: seq<Timestamp>)
      ensures IsFirst(result, OlderThan(committed.Keys, key, beforeTs), limit, Newer)
    {
      hide Sorted;
      result := [];
      var r := RangeHalfOpen(VKey(key, 0), VKey(key, beforeTs));
      forall v ensures v in r <==> v in committed && v.key == key && v.ts < beforeTs {
        LessIrreflexive(key);
        if v in r {
          assert !VLess(VKey(key, beforeTs), v) by { VLessIsOrder(); }
          KeyRun(key, 0, beforeTs, v);
        }
      }
      var n := if |r| <= limit then |r| else limit;
      var i := 0;
      while i < n
        invariant 0 <= i <= n && |result| == i
        invariant forall j :: 0 <= j < i ==> result[j] == r[|r| - 1 - j].ts
      {
        var v := r[|r| - 1 - i];
        assert v in r;
        if v.key == key {
          result := result + [v.ts];
        }
        i := i + 1;
      }
      NewestFirst(key, beforeTs, limit, r, result);
    }

    lemma NewestFirst(key: Key, beforeTs: Timestamp, limit: nat, r: seq<VKey>, result: seq<Timestamp>)
      requires Ascending(r, VLess)
      requires forall v :: v in r <==> v in committed && v.key == key && v.ts < beforeTs
      requires |result| == if |r| <= limit then |r| else limit
      requires forall j :: 0 <= j < |result| ==> result[j] == r[|r| - 1 - j].ts
      ensures IsFirst(result, OlderThan(committed.Keys, key, beforeTs), limit, Newer)
    {
      var tss := seq(|r|, i requires 0 <= i < |r| => r[i].ts);
      RunTimestamps(key, beforeTs, r, tss);
      LastReversed(OlderThan(committed.Keys, key, beforeTs), tss, limit, result);
    }

    lemma RunTimestamps(key: Key, beforeTs: Timestamp, r: seq<VKey>, tss: seq<Timestamp>)
      requires Ascending(r, VLess)
      requires forall v :: v in r <==> v in committed && v.key == key && v.ts < beforeTs
      requires |tss| == |r| && forall i :: 0 <= i < |r| ==> tss[i] == r[i].ts
      ensures forall i, j :: 0 <= i < j < |tss| ==> tss[i] < tss[j]
      ensures forall x :: x in tss <==> x in OlderThan(committed.Keys, key, beforeTs)
    {
      LessIrreflexive(key);
      assert forall j :: 0 <= j < |r| ==> r[j] in r;
      forall i, j | 0 <= i < j < |r| ensures tss[i] < tss[j] { assert VLess(r[i], r[j]); }
      forall x | x in OlderThan(committed.Keys, key, beforeTs) ensures x in tss {
        var v :| v in r && v.ts == x;
        var n :| 0 <= n < |r| && r[n] == v;
        assert tss[n] == x;
      }
    }

    /** The end of an ascending list, read backwards, lists the newest first. */
    static lemma LastReversed(all: set<Timestamp>, tss: seq<Timestamp>, limit: nat, result: seq<Timestamp>)
      requires forall i, j :: 0 <= i < j < |tss| ==> tss[i] < tss[j]
      requires forall x :: x in tss <==> x in all
      requires |result| == if |tss| <= limit then |tss| else limit
      requires forall j :: 0 <= j < |result| ==> result[j] == tss[|tss| - 1 - j]
      ensures IsFirst(result, all, limit, Newer)
    {
      var m := |tss| - |result|;
      forall n | m <= n < |tss| ensures tss[n] in result {
        assert result[|tss| - 1 - n] == tss[n];
      }
      forall x | x in all && x !in result ensures |result| == limit && forall y :: y in result ==> Newer(y, x) {
        var n :| 0 <= n < |tss| && tss[n] == x;
        assert n < m;
      }
    }

    /** The first `limit` distinct committed keys with the prefix, from `start` on. */
    method KeysFromPrefix(prefix: seq<byte>, start: Option<Key>, limit: nat)
      returns (result: Result<seq<Key>, ScanError>)
      ensures limit == 0 ==> result == Ok([])
      ensures limit > 0 && prefix == [] ==> result == Err(PrefixEmpty)
      ensures limit > 0 && prefix != [] && start.Some? && !(prefix <= start.value) ==>
                result == Err(CursorOutsidePrefix)
      ensures limit > 0 && prefix != [] && (start.Some? ==> prefix <= start.value) ==>
                && result.Ok?
                && IsFirst(result.value, PrefixKeys(prefix, start), limit, Less)
      ensures result.Ok? ==> forall k :: k in result.value ==> prefix <= k && (start.Some? ==> !Less(k, start.value))
      ensures result.Ok? ==>
                forall v :: v in committed && prefix <= v.key && (start.Some? ==> !Less(v.key, start.value)) ==>
                  v.key in result.value || |result.value| == limit
    {
      if limit == 0 {
        return Ok([]);
      }
      if prefix == [] {
        return Err(PrefixEmpty);
      }
      if start.Some? && !(prefix <= start.value) {
        return Err(CursorOutsidePrefix);
      }
      var scanStart := if start.Some? then start.value else prefix;
      var r := RangeFrom(VKey(scanStart, 0));
      var keys, i := CollectKeys(prefix, r, limit);
      DedupDistinct(r, i);
      PrefixScanExact(prefix, start, scanStart, limit, r, i, keys);
      result := Ok(keys);
    }

    /** The scan loop: stops at the first key without the prefix or once `limit` keys are found. */
    static method CollectKeys(prefix: seq<byte>, r: seq<VKey>, limit: nat) returns (keys: seq<Key>, i: nat)
      requires limit > 0
      ensures i <= |r| && |keys| <= limit && keys == Dedup(r, i)
      ensures forall j :: 0 <= j < i ==> prefix <= r[j].key
      ensures |keys| == limit || i == |r| || !(prefix <= r[i].key)
    {
      keys, i := [], 0;
      while i < |r| && |keys| < limit && prefix <= r[i].key
        invariant 0 <= i <= |r| && |keys| <= limit
        invariant forall j :: 0 <= j < i ==> prefix <= r[j].key
        invariant keys == Dedup(r, i)
      {
        if keys == [] || keys[|keys| - 1] != r[i].key {
          keys := keys + [r[i].key];
        }
        i := i + 1;
      }
    }

    ghost function PrefixKeys(prefix: seq<byte>, start: Option<Key>): set<Key>
      reads this
    {
      set v | v in committed && prefix <= v.key && (start.None? || !Less(v.key, start.value)) :: v.key
    }

    static ghost function KeySet(r: seq<VKey>, i: nat): set<Key>
      requires i <= |r|
    {
      set j | 0 <= j < i :: r[j].key
    }

    /** `keys` lists the distinct keys of the first `i` entries, in order. */
    static ghost predicate DistinctKeys(keys: seq<Key>, r: seq<VKey>, i: nat)
      requires i <= |r|
    {
      && Ascending(keys, Less)
      && (set k | k in keys) == KeySet(r, i)
      && (keys == [] <==> i == 0)
      && (i > 0 ==> keys[|keys| - 1] == r[i - 1].key)
    }

    static ghost function Dedup(r: seq<VKey>, i: nat): seq<Key>
      requires i <= |r|
    {
      if i == 0 then []
      else
        var keys := Dedup(r, i - 1);
        if keys == [] || keys[|keys| - 1] != r[i - 1].key then keys + [r[i - 1].key] else keys
    }

    static lemma {:induction false} DedupDistinct(r: seq<VKey>, i: nat)
      requires i <= |r| && Ascending(r, VLess)
      ensures DistinctKeys(Dedup(r, i), r, i)
    {
      hide DistinctKeys, Ascending;
      if i == 0 {
        DistinctKeysNone(r);
      } else {
        DedupDistinct(r, i - 1);
        var keys := Dedup(r, i - 1);
        if keys == [] || keys[|keys| - 1] != r[i - 1].key {
          DistinctKeysPush(keys, r, i - 1);
        } else {
          DistinctKeysSkip(keys, r, i - 1);
        }
      }
    }

    static lemma DistinctKeysNone(r: seq<VKey>)
      ensures DistinctKeys([], r, 0)
    {
    }

    static lemma DistinctKeysPush(keys: seq<Key>, r: seq<VKey>, i: nat)
      requires i < |r| && Ascending(r, VLess) && DistinctKeys(keys, r, i)
      requires keys == [] || keys[|keys| - 1] != r[i].key
      ensures DistinctKeys(keys + [r[i].key], r, i + 1)
    {
      var next := keys + [r[i].key];
      if keys != [] {
        assert VLess(r[i - 1], r[i]);
        forall j | 0 <= j < |keys| ensures Less(keys[j], r[i].key) {
          if j < |keys| - 1 { LessTransitive(keys[j], keys[|keys| - 1], r[i].key); }
        }
      }
      assert (set k | k in next) == (set k | k in keys) + {r[i].key};
      assert KeySet(r, i + 1) == KeySet(r, i) + {r[i].key};
    }

    static lemma DistinctKeysSkip(keys: seq<Key>, r: seq<VKey>, i: nat)
      requires i < |r| && DistinctKeys(keys, r, i)
      requires keys != [] && keys[|keys| - 1] == r[i].key
      ensures DistinctKeys(keys, r, i + 1)
    {
      assert r[i].key in (set k | k in keys);
      assert KeySet(r, i + 1) == KeySet(r, i) + {r[i].key};
    }

    /** Stopping at the first key without the prefix loses none, because the prefix run is contiguous. */
    lemma PrefixScanExact(prefix: seq<byte>, start: Option<Key>, scanStart: Key, limit: nat, r: seq<VKey>, i: nat,
                          keys: seq<Key>)
      requires scanStart == (if start.Some? then start.value else prefix) && prefix <= scanStart
      requires r == RangeFrom(VKey(scanStart, 0)) && i <= |r|
      requires forall j :: 0 <= j < i ==> prefix <= r[j].key
      requires DistinctKeys(keys, r, i) && |keys| <= limit
      requires |keys| == limit || i == |r| || !(prefix <= r[i].key)
      ensures IsFirst(keys, PrefixKeys(prefix, start), limit, Less)
    {
      assert forall k :: k in keys <==> k in (set l | l in keys);
      forall j | 0 <= j < i ensures r[j].key in keys { assert r[j].key in KeySet(r, i); }
      forall k | k in keys ensures k in PrefixKeys(prefix, start) {
        assert k in KeySet(r, i);
        var j :| 0 <= j < i && r[j].key == k;
        InScan(prefix, start, scanStart, r, j);
      }
      forall k | k in PrefixKeys(prefix, start) && k !in keys
        ensures |keys| == limit && forall y :: y in keys ==> Less(y, k)
      {
        var v :| v in committed && v.key == k;
        var n := ScanReaches(prefix, start, scanStart, r, v);
        assert n >= i;
        forall y | y in keys ensures Less(y, k) {
          assert y in KeySet(r, i);
          var j :| 0 <= j < i && r[j].key == y;
          assert VLess(r[j], r[n]);
        }
        if |keys| != limit {
          BetweenHasPrefix(prefix, scanStart, r, i, n);
        }
      }
    }

    lemma InScan(prefix: seq<byte>, start: Option<Key>, scanStart: Key, r: seq<VKey>, j: nat)
      requires scanStart == (if start.Some? then start.value else prefix)
      requires r == RangeFrom(VKey(scanStart, 0)) && j < |r| && prefix <= r[j].key
      ensures r[j].key in PrefixKeys(prefix, start)
    {
      assert r[j] in r;
    }

    lemma ScanReaches(prefix: seq<byte>, start: Option<Key>, scanStart: Key, r: seq<VKey>, v: VKey) returns (n: nat)
      requires scanStart == (if start.Some? then start.value else prefix)
      requires r == RangeFrom(VKey(scanStart, 0))
      requires v in committed && v.key in PrefixKeys(prefix, start)
      ensures n < |r| && r[n] == v
    {
      if start.None? { PrefixFirst(prefix, v.key); }
      assert v in r;
      n :| 0 <= n < |r| && r[n] == v;
    }

    lemma BetweenHasPrefix(prefix: seq<byte>, scanStart: Key, r: seq<VKey>, i: nat, n: nat)
      requires r == RangeFrom(VKey(scanStart, 0)) && i <= n < |r|
      requires prefix <= scanStart && prefix <= r[n].key
      ensures prefix <= r[i].key
    {
      assert r[i] in r && (i == n || VLess(r[i], r[n]));
      LessIsOrder();
      PrefixContiguous(prefix, scanStart, r[i].key, r[n].key);
    }

    method PutIntent(intent: Intent)
      requires Valid()
      modifies this
      ensures Valid()
      ensures Contents() == old(Contents()).(intents := old(intents)[intent.key := intent])
    {
      allKeysSet := allKeysSet + {intent.key};
      intents := intents[intent.key := intent];
    }

    method MaybeRemoveFromKeys(key: Key)
      requires Occupied(committed.Keys, intents.Keys) <= allKeysSet <= Occupied(committed.Keys, intents.Keys) + {key}
      modifies this`allKeysSet
      ensures allKeysSet == Occupied(committed.Keys, intents.Keys)
    {
      hide Sorted;
      if key !in intents {
        KeyRangeIsHistory(key, TS_MAX);
        if RangeClosed(VKey(key, 0), VKey(key, TS_MAX)) == [] {
          allKeysSet := allKeysSet - {key};
        } else {
          assert RangeClosed(VKey(key, 0), VKey(key, TS_MAX))[0] in RangeClosed(VKey(key, 0), VKey(key, TS_MAX));
        }
      }
    }

    method RemoveIntent(key: Key, txnId: TxnId, startTs: Timestamp) returns (removed: bool)
      requires Valid()
      modifies this
      ensures Valid()
      ensures Contents() == old(Contents()).(intents := Release(old(intents), [IntentRef(key, txnId, startTs)]))
      ensures removed <==>
                key in old(intents) && old(intents)[key].txnId == txnId && old(intents)[key].startTs == startTs
    {
      if key in intents && intents[key].txnId == txnId && intents[key].startTs == startTs {
        intents := intents - {key};
        MaybeRemoveFromKeys(key);
        return true;
      }
      return false;
    }

    method PutCommitted(version: CommittedVersion)
      requires Valid()
      modifies this
      ensures Valid()
      ensures Contents() ==
                old(Contents()).(committed := old(committed)[VKey(version.key, version.commitTs) := version.value])
    {
      allKeysSet := allKeysSet + {version.key};
      committed := committed[VKey(version.key, version.commitTs) := version.value];
    }

    method PutCommittedBatch(versions: seq<CommittedVersion>)
      requires Valid()
      modifies this
      ensures Valid()
      ensures Contents() == old(Contents()).(committed := PutAll(old(committed), versions))
    {
      var i := 0;
      while i < |versions|
        invariant 0 <= i <= |versions|
        invariant Valid() && intents == old(intents)
        invariant committed == PutFirst(old(committed), versions, i)
      {
        PutCommitted(versions[i]);
        i := i + 1;
      }
    }

    method RemoveCommittedVersion(key: Key, commitTs: Timestamp)
      requires Valid()
      modifies this
      ensures Valid()
      ensures Contents() == old(Contents()).(committed := old(committed) - {VKey(key, commitTs)})
    {
      committed := committed - {VKey(key, commitTs)};
      MaybeRemoveFromKeys(key);
    }

    method PutIntentsBatch(ins: seq<Intent>)
      requires Valid()
      modifies this
      ensures Valid()
      ensures Contents() == old(Contents()).(intents := PutAllIntents(old(intents), ins))
    {
      var i := 0;
      while i < |ins|
        invariant 0 <= i <= |ins|
        invariant Valid() && committed == old(committed)
        invariant intents == PutFirstIntents(old(intents), ins, i)
      {
        PutIntent(ins[i]);
        i := i + 1;
      }
    }

    method RemoveIntentsBatch(refs: seq<IntentRef>)
      requires Valid()
      modifies this
      ensures Valid()
      ensures Contents() == old(Contents()).(intents := Release(old(intents), refs))
    {
      var i := 0;
      while i < |refs|
        invariant 0 <= i <= |refs|
        invariant Valid() && committed == old(committed)
        invariant intents == Release(old(intents), refs[..i])
      {
        assert refs[..i + 1] == refs[..i] + [refs[i]];
        var removed := RemoveIntent(refs[i].key, refs[i].txnId, refs[i].startTs);
        i := i + 1;
      }
      assert refs[..i] == refs;
    }

    method CommitIntentsBatch(commits: seq<CommittedVersion>, refs: seq<IntentRef>)
      requires Valid()
      modifies this
      ensures Valid()
      ensures Contents() == Store(PutAll(old(committed), commits), Release(old(intents), refs))
    {
      PutCommittedBatch(commits);
      RemoveIntentsBatch(refs);
    }

    /** Removes the tombstone and the supplied older versions in one step. */
    method CollapseTombstone(key: Key, tombstoneTs: Timestamp, olderTs: seq<Timestamp>)
      requires Valid()
      modifies this
      ensures Valid()
      ensures Contents() ==
                old(Contents()).(committed := old(committed) - {VKey(key, tombstoneTs)} - VersionSet(key, olderTs))
    {
      committed := committed - {VKey(key, tombstoneTs)};
      var i := 0;
      while i < |olderTs|
        invariant 0 <= i <= |olderTs|
        invariant intents == old(intents) && allKeysSet == old(allKeysSet)
        invariant committed == old(committed) - {VKey(key, tombstoneTs)} - VersionSet(key, olderTs[..i])
      {
        committed := committed - {VKey(key, olderTs[i])};
        i := i + 1;
      }
      assert olderTs[..i] == olderTs;
      MaybeRemoveFromKeys(key);
    }
  }
}
