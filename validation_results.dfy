/** The values the verify command keeps per partition: the four validation types, their status,
    the detail of a failure, the per-partition result map, and the exceptions that end a run. */
module ValidationResults {

  datatype Option<+T> = None | Some(value: T)

  /** The kinds of check, in the order of the enum's values(). */
  datatype ValidationType =
    | PartitionAssignmentZkValidity
    | PartitionAssignmentZkServerConsistency
    | PartitionAssignmentZkStorageConsistency
    | PartitionQuorumStatus

  const AllTypes: seq<ValidationType> :=
    [PartitionAssignmentZkValidity, PartitionAssignmentZkServerConsistency,
     PartitionAssignmentZkStorageConsistency, PartitionQuorumStatus]

  lemma AllTypesEnumerates()
    ensures |AllTypes| == 4
    ensures forall t: ValidationType :: t in AllTypes
    ensures forall i, j :: 0 <= i < j < |AllTypes| ==> AllTypes[i] != AllTypes[j]
  {
    forall t: ValidationType ensures t in AllTypes {
      match t
      case PartitionAssignmentZkValidity => assert AllTypes[0] == t;
      case PartitionAssignmentZkServerConsistency => assert AllTypes[1] == t;
      case PartitionAssignmentZkStorageConsistency => assert AllTypes[2] == t;
      case PartitionQuorumStatus => assert AllTypes[3] == t;
    }
  }

  /** The position of t in AllTypes. */
  lemma IndexOfType(t: ValidationType) returns (k: nat)
    ensures k < |AllTypes| && AllTypes[k] == t
  {
    match t
    case PartitionAssignmentZkValidity => k := 0;
    case PartitionAssignmentZkServerConsistency => k := 1;
    case PartitionAssignmentZkStorageConsistency => k := 2;
    case PartitionQuorumStatus => k := 3;
  }

  datatype Status = Success | Failure

  /** How a partition id compares between the ZooKeeper list of a server and the list the server reports. */
  datatype AssignmentMatch = OnlyInZookeeper | OnlyInServer | InBoth

  /** The error text of a result, as the values the source splices into it. */
  datatype Detail =
    | NoError
    | DuplicateClaim(firstServer: int, laterServer: int)
    | NotHandled(partition: int)
    | NotMatching(partition: int, assignmentMatch: AssignmentMatch)
    | ExceptionMessage(message: string)
    | IndexOutOfBoundsMessage(index: int, length: int)
    | TimeoutException
    | StorageMismatch
    | QuorumNotAchieved

  datatype ValidationResult = ValidationResult(validationType: ValidationType, status: Status, error: Detail)

  function Succeeded(t: ValidationType): ValidationResult
  {
    ValidationResult(t, Success, NoError)
  }

  function Failed(t: ValidationType, d: Detail): ValidationResult
  {
    ValidationResult(t, Failure, d)
  }

  /** One element of the results list: the partition id and its EnumMap of results. */
  datatype PartitionValidationResults =
    PartitionValidationResults(partitionId: int, validationResultsMap: map<ValidationType, ValidationResult>)

  /** The exceptions that escape a phase and end the whole run in processCmd's catch. */
  datatype Abort =
    | IndexOutOfBounds(index: int, length: int)
    | NullPointer
    | StorageQueryFailed(message: string)

  datatype Result<+T> = Ok(value: T) | Err(abort: Abort)

  /** validationResultsMap.put(r.type, r) on one element. */
  function PutIn(pr: PartitionValidationResults, r: ValidationResult): PartitionValidationResults
  {
    pr.(validationResultsMap := pr.validationResultsMap[r.validationType := r])
  }

  /** partitionValidationResultsList.get(p).validationResultsMap.put(r.type, r). */
  function Put(rows: seq<PartitionValidationResults>, p: int, r: ValidationResult): (rows': seq<PartitionValidationResults>)
    requires 0 <= p < |rows|
    ensures |rows'| == |rows|
  {
    rows[p := PutIn(rows[p], r)]
  }

  /** a and b agree on the partition id and on every validation type other than t. */
  predicate SameExcept(a: PartitionValidationResults, b: PartitionValidationResults, t: ValidationType)
  {
    a.partitionId == b.partitionId && a.validationResultsMap - {t} == b.validationResultsMap - {t}
  }

  lemma PutInSameExcept(pr: PartitionValidationResults, r: ValidationResult)
    ensures SameExcept(PutIn(pr, r), pr, r.validationType)
  {
    var m := pr.validationResultsMap;
    assert m[r.validationType := r] - {r.validationType} == m - {r.validationType};
  }

  /** Entries of types other than t are the same on both sides of SameExcept. */
  lemma SameExceptAt(a: PartitionValidationResults, b: PartitionValidationResults, t: ValidationType, u: ValidationType)
    requires SameExcept(a, b, t) && u != t
    ensures u in a.validationResultsMap <==> u in b.validationResultsMap
    ensures u in a.validationResultsMap ==> a.validationResultsMap[u] == b.validationResultsMap[u]
  {
    assert u in a.validationResultsMap <==> u in a.validationResultsMap - {t};
    assert u in b.validationResultsMap <==> u in b.validationResultsMap - {t};
    if u in a.validationResultsMap {
      assert (a.validationResultsMap - {t})[u] == a.validationResultsMap[u];
      assert (b.validationResultsMap - {t})[u] == b.validationResultsMap[u];
    }
  }

  /** The table a run starts from: one empty result map per partition id. */
  function EmptyTable(n: nat): (rows: seq<PartitionValidationResults>)
    ensures |rows| == n
    ensures forall p :: 0 <= p < n ==> rows[p] == PartitionValidationResults(p, map[])
  {
    seq(n, p requires 0 <= p < n => PartitionValidationResults(p, map[]))
  }

  // ---- rendering of the error texts ----

  function DigitChar(d: nat): char
    requires d < 10
  {
    "0123456789"[d]
  }

  function NatToString(n: nat): (s: string)
    ensures |s| > 0
  {
    if n < 10 then [DigitChar(n)] else NatToString(n / 10) + [DigitChar(n % 10)]
  }

  /** Integer.toString. */
  function IntToString(i: int): (s: string)
    ensures |s| > 0
  {
    if i < 0 then "-" + NatToString(-i) else NatToString(i)
  }

  /** AssignmentMatch.name(). */
  function MatchName(m: AssignmentMatch): string
  {
    match m
    case OnlyInZookeeper => "ONLY_IN_ZOOKEEPER"
    case OnlyInServer => "ONLY_IN_SERVER"
    case InBoth => "IN_BOTH"
  }

  /** The error string a result carries. It is empty exactly on success, or when the exception that
      the failure handler received had an empty message. */
  function ErrorText(d: Detail): (s: string)
    ensures s == "" <==> d == NoError || d == ExceptionMessage("")
  {
    match d
    case NoError => ""
    case DuplicateClaim(first, later) =>
      "Error: Partition handled by more than one server: " + IntToString(first) + " and " + IntToString(later)
    case NotHandled(p) => "Error: Partition " + IntToString(p) + " not handled by any server"
    case NotMatching(p, m) => "Partition " + IntToString(p) + " not matching in zk and server: " + MatchName(m)
    case ExceptionMessage(message) => message
    case IndexOutOfBoundsMessage(index, length) =>
      "java.lang.IndexOutOfBoundsException: Index " + IntToString(index) + " out of bounds for length " + IntToString(length)
    case TimeoutException => "Timeout exception"
    case StorageMismatch => "Error: ZooKeeper and StorageNode Partition Assignment mismatch"
    case QuorumNotAchieved => "Error: Quorum is not achieved"
  }
}
