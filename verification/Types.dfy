/** The value types of the crate: keys, timestamps, versions, intents, writes, guards and typed errors. */
module Types {

  const U32_LIMIT := 0x1_0000_0000
  const U64_LIMIT := 0x1_0000_0000_0000_0000
  const USIZE_MAX := U64_LIMIT - 1
  const U128_LIMIT := 0x1_0000_0000_0000_0000_0000_0000_0000_0000

  type byte = x: int | 0 <= x < 256
  type Timestamp = x: int | 0 <= x < U128_LIMIT
  type TxnId = x: int | 0 <= x < U64_LIMIT
  type Key = seq<byte>
  type Value = seq<byte>

  /** `Timestamp(u128::MAX)`. */
  const TS_MAX: Timestamp := U128_LIMIT - 1

  datatype Option<+T> = None | Some(value: T)

  datatype Result<+T, +E> = Ok(value: T) | Err(error: E)

  datatype Mutation = Put(bytes: Value) | Delete {
    function ToValue(): Option<Value> {
      match this
      case Put(v) => Some(v)
      case Delete => None
    }
  }

  /** The mutation that leaves `v` as the committed value. */
  function MutationOf(v: Option<Value>): (m: Mutation)
    ensures m.ToValue() == v
  {
    match v
    case Some(b) => Put(b)
    case None => Delete
  }

  datatype Intent = Intent(key: Key, txnId: TxnId, startTs: Timestamp, mutation: Mutation,
                           minCommitTs: Option<Timestamp>)

  datatype CommittedVersion = CommittedVersion(key: Key, commitTs: Timestamp, value: Option<Value>)

  datatype PhysicalWrite = PhysicalWrite(key: Key, value: Option<Value>)

  datatype ReadGuard =
    | ExpectedVersion(key: Key, readTs: Timestamp, expectedCommitTs: Option<Timestamp>)
    | ExpectedValue(key: Key, readTs: Timestamp, expectedValue: Option<Value>)

  /** The key of the ordered map of committed versions. */
  datatype VKey = VKey(key: Key, ts: Timestamp)

  datatype PrewriteError = KeyLocked(txnId: TxnId) | WriteConflict | IntentAlreadyExists

  datatype CommitError =
    | IntentNotFound
    | TxnIdMismatch
    | StartTsMismatch
    | InvalidCommitTimestamp(startTs: Timestamp, commitTs: Timestamp)
    | DuplicateCommitTimestamp(commitTs: Timestamp)
    | CommitTsTooOld(commitTs: Timestamp, latestCommitTs: Timestamp)
    | CommitTsTooEarly(commitTs: Timestamp, minCommitTs: Timestamp)

  datatype BatchPrewriteError =
    | EmptyBatch
    | DuplicateKeyInBatch(key: Key)
    | KeyLocked(key: Key, txnId: TxnId)
    | WriteConflict(key: Key)
    | IntentAlreadyExists(key: Key)
    | PartialBatchReplay

  datatype BatchCommitError =
    | EmptyBatch
    | DuplicateKeyInBatch(key: Key)
    | IntentNotFound(key: Key)
    | TxnIdMismatch(key: Key)
    | StartTsMismatch(key: Key)
    | InvalidCommitTimestamp(startTs: Timestamp, commitTs: Timestamp)
    | CommitTsTooEarly(key: Key, commitTs: Timestamp, minCommitTs: Timestamp)
    | CommitTsTooOld(key: Key, commitTs: Timestamp, latestCommitTs: Timestamp)

  datatype BatchAbortError = DuplicateKeyInBatch(key: Key)

  datatype BatchError =
    | EmptyBatch
    | InvalidCommitTimestamp(readTs: Timestamp, commitTs: Timestamp)
    | CommitTsTooOld(key: Key, commitTs: Timestamp, latestCommitTs: Timestamp)
    | NoReadGuards
    | DuplicateKeyInBatch(key: Key)
    | KeyLocked(key: Key, txnId: TxnId)
    | GuardFailedNewerVersion(key: Key, readTs: Timestamp, actualCommitTs: Timestamp)
    | GuardFailedVersionMismatch(key: Key, expected: Option<Timestamp>, actual: Option<Timestamp>)
    | GuardFailedValueMismatch(key: Key)

  datatype GcError = InvalidGcBudget | InvalidKeyGcBudget

  datatype ScanError = PrefixEmpty | CursorOutsidePrefix

  datatype GcOptions = GcOptions(maxKeys: nat, maxVersions: nat, collapse: bool)

  /** `nextKey` is the returned cursor's `next_key`. */
  datatype IncrementalGcResult = IncrementalGcResult(
    nextKey: Option<Key>, done: bool,
    keysScanned: nat, versionsScanned: nat, versionsRemoved: nat, intentsPreserved: nat)

  datatype GcStats = GcStats(versionsRemoved: nat, intentsPreserved: nat)

  datatype KeyGcOptions = KeyGcOptions(maxVersionsExamined: nat, collapse: bool)

  datatype KeyGcPlan = KeyGcPlan(key: Key, versionsToRemove: seq<Timestamp>,
                                 collapseTombstone: Option<Timestamp>,
                                 versionsExamined: nat, complete: bool)
}
