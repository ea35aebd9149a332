/** The verify command as a whole: the results table built step by step by processCmd, and the
    final pass over it (the two verifyValidation overloads). */
module VerifyCommand {
  import opened ValidationResults
  import opened ZookeeperValidity
  import opened ServerConsistency
  import opened StorageMapping
  import opened StorageValidation

  // ---- verifyValidation ----

  /** verifyValidation(type, results, partitionId): a missing entry makes .status throw the
      NullPointerException; otherwise the check holds unless the entry is a FAILURE. */
  function VerifyValidationOf(t: ValidationType, results: seq<PartitionValidationResults>, partitionId: int)
    : (r: Result<bool>)
    requires 0 <= partitionId < |results|
    ensures r.Err? <==> t !in results[partitionId].validationResultsMap
    ensures r.Err? ==> r.abort == NullPointer
    ensures r.Ok? ==> (r.value <==> results[partitionId].validationResultsMap[t].status == Success)
  {
    var m := results[partitionId].validationResultsMap;
    if t !in m then Err(NullPointer)
    else
      match m[t].status
      case Failure => Ok(false)
      case Success => Ok(true)
  }

  /** Every partition holds a result of every validation type. */
  predicate Complete(rows: seq<PartitionValidationResults>)
  {
    forall p, t :: 0 <= p < |rows| ==> t in rows[p].validationResultsMap
  }

  /** No result recorded for the partition is a FAILURE. */
  predicate RowPassed(pr: PartitionValidationResults)
  {
    forall t :: t in pr.validationResultsMap ==> pr.validationResultsMap[t].status == Success
  }

  /** No recorded result is a FAILURE. */
  predicate AllPassed(rows: seq<PartitionValidationResults>)
  {
    forall p :: 0 <= p < |rows| ==> RowPassed(rows[p])
  }

  /** verifyValidation(results): every partition and every type in values() order, without stopping
      at the first failure. */
  method VerifyValidation(results: array<PartitionValidationResults>) returns (r: Result<bool>)
    ensures r.Err? <==> !Complete(results[..])
    ensures r.Err? ==> r.abort == NullPointer
    ensures r.Ok? ==> (r.value <==> AllPassed(results[..]))
  {
    var success := true;
    for partitionId := 0 to results.Length
      invariant forall q, t :: 0 <= q < partitionId ==> t in results[q].validationResultsMap
      invariant success <==> forall q :: 0 <= q < partitionId ==> RowPassed(results[q])
    {
      ghost var before := success;
      for k := 0 to |AllTypes|
        invariant forall k' :: 0 <= k' < k ==> AllTypes[k'] in results[partitionId].validationResultsMap
        invariant success <==>
                    before && forall k' :: 0 <= k' < k ==>
                                results[partitionId].validationResultsMap[AllTypes[k']].status == Success
      {
        var passed := VerifyValidationOf(AllTypes[k], results[..], partitionId);
        if passed.Err? {
          assert AllTypes[k] !in results[..][partitionId].validationResultsMap;
          return Err(NullPointer);
        }
        if !passed.value {
          success := false;
        }
      }
      forall t ensures t in results[partitionId].validationResultsMap {
        var k := IndexOfType(t);
      }
      assert RowPassed(results[partitionId]) <==>
             forall k' :: 0 <= k' < |AllTypes| ==> results[partitionId].validationResultsMap[AllTypes[k']].status == Success
      by {
        forall t | t in results[partitionId].validationResultsMap
          ensures exists k' :: 0 <= k' < |AllTypes| && AllTypes[k'] == t
        {
          var k := IndexOfType(t);
        }
      }
    }
    r := Ok(success);
  }

  // ---- processCmd ----

  /** The ZooKeeper replica lists of partitions 0 .. n - 1. */
  function ReplicaTable(n: nat, replicas: seq<ReplicaEntry>): map<int, seq<string>>
  {
    map p | 0 <= p < n :: ReplicasOf(replicas, p)
  }

  /** The reported read-write statuses of partitions 0 .. n - 1. */
  function StatusTable(n: nat, storageConnections: map<string, int>, query: (string, int) -> NodeOutcome)
    : map<int, map<string, bool>>
  {
    map p | 0 <= p < n :: StatusMapOf(storageConnections, query, p)
  }

  /** No step throws: no ZooKeeper server claims a missing partition, no replica assignment names
      one, and every storage node answers with existing partitions only. */
  predicate RunCompletes(n: nat, assignment: seq<ServerAssignment>, replicas: seq<ReplicaEntry>,
                         storageConnections: map<string, int>, query: (string, int) -> NodeOutcome)
  {
    && ZkValidation(EmptyTable(n), assignment).abort.None?
    && ClaimsInRange(replicas, n)
    && forall c :: c in storageConnections ==> NodeFine(query, c, storageConnections[c], n)
  }

  /** The table after steps 1 and 2 and the timeout back-fill. */
  function AfterServers(n: nat, assignment: seq<ServerAssignment>, respond: int -> ServerResponse)
    : (rows: seq<PartitionValidationResults>)
    requires ZkValidation(EmptyTable(n), assignment).abort.None?
    ensures |rows| == n
  {
    ZkValidationAbortsIffOutOfRange(EmptyTable(n), assignment);
    Backfilled(ServerPhase(ZkValidation(EmptyTable(n), assignment).rows, assignment, respond))
  }

  /** The table a run that completes leaves behind. */
  function FinalTable(n: nat, assignment: seq<ServerAssignment>, respond: int -> ServerResponse,
                      replicas: seq<ReplicaEntry>, storageConnections: map<string, int>,
                      query: (string, int) -> NodeOutcome): (rows: seq<PartitionValidationResults>)
    requires ZkValidation(EmptyTable(n), assignment).abort.None?
    ensures |rows| == n
  {
    StorageChecked(AfterServers(n, assignment, respond), |storageConnections|, ReplicaTable(n, replicas),
                   StatusTable(n, storageConnections, query))
  }

  /** processCmd: build the table through steps 1, 2 and 4, then run verifyValidation over it. The
      ZooKeeper state, the servers' answers and the storage nodes' answers are parameters; the
      result is the table, or the exception that the catch turns into SubCommandFailedException. */
  method ProcessCmd(numPartitions: nat, assignment: seq<ServerAssignment>, respond: int -> ServerResponse,
                    replicas: seq<ReplicaEntry>, connectionMetadata: Option<map<string, int>>,
                    query: (string, int) -> NodeOutcome)
    returns (r: Result<seq<PartitionValidationResults>>)
    ensures r.Ok? <==> RunCompletes(numPartitions, assignment, replicas, StorageConnections(connectionMetadata), query)
    ensures r.Ok? ==> r.value == FinalTable(numPartitions, assignment, respond, replicas,
                                            StorageConnections(connectionMetadata), query)
    ensures r.Err? && ZkValidation(EmptyTable(numPartitions), assignment).abort.Some? ==>
              r.abort == ZkValidation(EmptyTable(numPartitions), assignment).abort.value
    ensures r.Err? && ZkValidation(EmptyTable(numPartitions), assignment).abort.None? ==>
              if !ClaimsInRange(replicas, numPartitions) then r.abort == NullPointer
              else exists c :: c in StorageConnections(connectionMetadata) &&
                                NodeAbort(query, c, StorageConnections(connectionMetadata)[c], numPartitions, r.abort)
  {
    var table := new PartitionValidationResults[numPartitions](p => PartitionValidationResults(p, map[]));
    assert table[..] == EmptyTable(numPartitions);

    // Step 1
    var abort := BuildZookeeperPartitionAssignmentsValidation(assignment, table);
    if abort.Some? {
      return Err(abort.value);
    }
    ZkValidationAbortsIffOutOfRange(EmptyTable(numPartitions), assignment);

    // Step 2 and the back-fill
    BuildServersZKPartitionAssignmentsConsistencyValidation(table, assignment, respond);
    BackfillTimeouts(table);
    assert table[..] == AfterServers(numPartitions, assignment, respond);

    // Step 4
    var zkPartitionToStorageNodeMap := GetZkPartitionToStorageNodeMapping(numPartitions, replicas);
    if zkPartitionToStorageNodeMap.Err? {
      return Err(zkPartitionToStorageNodeMap.abort);
    }
    var storageConnections := StorageConnections(connectionMetadata);
    var partitionToStorageAssignmentMap := GetStoragePartitionMapping(storageConnections, query, numPartitions);
    if partitionToStorageAssignmentMap.Err? {
      return Err(partitionToStorageAssignmentMap.abort);
    }
    assert zkPartitionToStorageNodeMap.value == ReplicaTable(numPartitions, replicas);
    assert partitionToStorageAssignmentMap.value == StatusTable(numPartitions, storageConnections, query);
    ValidateStoragePartitionAssignment(storageConnections, zkPartitionToStorageNodeMap.value,
                                       partitionToStorageAssignmentMap.value, table);

    // The final pass; its answer is not used, and with every entry present it cannot throw.
    FinalComplete(numPartitions, assignment, respond, replicas, storageConnections, query);
    var verdict := VerifyValidation(table);
    assert verdict.Ok?;
    r := Ok(table[..]);
  }

  // ---- what a completed run reports ----

  /** After steps 1 and 2 and the back-fill, a partition holds its ZooKeeper validity verdict and a
      server consistency entry. */
  lemma AfterServersRow(n: nat, assignment: seq<ServerAssignment>, respond: int -> ServerResponse, p: int)
    requires ZkValidation(EmptyTable(n), assignment).abort.None? && 0 <= p < n
    ensures AfterServers(n, assignment, respond)[p].partitionId == p
    ensures var m := AfterServers(n, assignment, respond)[p].validationResultsMap;
            && ZkValidity in m && ZkServer in m
            && m[ZkValidity] == ExpectedValidity(Claimants(Claims(assignment), p), p)
  {
    var rows0 := EmptyTable(n);
    ZkValidationAbortsIffOutOfRange(rows0, assignment);
    var rows1 := ZkValidation(rows0, assignment).rows;
    ZkValidityVerdict(rows0, assignment, p);
    var rows2 := ServerPhase(rows1, assignment, respond);
    ServerPhaseSameExcept(rows1, assignment, respond, p);
    SameExceptAt(rows2[p], rows1[p], ZkServer, ZkValidity);
    BackfillVerdict(rows2, p);
    SameExceptAt(Backfilled(rows2)[p], rows2[p], ZkServer, ZkValidity);
  }

  /** For every partition of a run that completes, the four results are: the ZooKeeper validity
      verdict of its claimants, the server consistency entry of step 2 (or the timeout back-fill),
      assignment consistency iff the ZooKeeper replica count equals the number of reporting nodes,
      and quorum iff a strict majority of the storage fleet reports it read-write. */
  lemma FinalVerdicts(n: nat, assignment: seq<ServerAssignment>, respond: int -> ServerResponse,
                      replicas: seq<ReplicaEntry>, storageConnections: map<string, int>,
                      query: (string, int) -> NodeOutcome, p: int)
    requires ZkValidation(EmptyTable(n), assignment).abort.None? && 0 <= p < n
    ensures FinalTable(n, assignment, respond, replicas, storageConnections, query)[p].partitionId == p
    ensures var m := FinalTable(n, assignment, respond, replicas, storageConnections, query)[p].validationResultsMap;
            && ZkValidity in m && ZkServer in m && ZkStorage in m && Quorum in m
            && m[ZkValidity] == ExpectedValidity(Claimants(Claims(assignment), p), p)
            && m[ZkServer] == AfterServers(n, assignment, respond)[p].validationResultsMap[ZkServer]
            && (m[ZkStorage].status == Success <==>
                  |ReplicasOf(replicas, p)| == |StatusMapOf(storageConnections, query, p)|)
            && (m[Quorum].status == Success <==>
                  2 * |AvailableReplicas(StatusMapOf(storageConnections, query, p))| > |storageConnections|)
  {
    var rows3 := AfterServers(n, assignment, respond);
    AfterServersRow(n, assignment, respond, p);
    var zkMap, stMap := ReplicaTable(n, replicas), StatusTable(n, storageConnections, query);
    StorageVerdicts(rows3, |storageConnections|, zkMap, stMap, p);
  }

  /** A run that completes leaves a result of every type for every partition, so the final
      verifyValidation pass never throws. */
  lemma FinalComplete(n: nat, assignment: seq<ServerAssignment>, respond: int -> ServerResponse,
                      replicas: seq<ReplicaEntry>, storageConnections: map<string, int>,
                      query: (string, int) -> NodeOutcome)
    requires ZkValidation(EmptyTable(n), assignment).abort.None?
    ensures Complete(FinalTable(n, assignment, respond, replicas, storageConnections, query))
  {
    var rows := FinalTable(n, assignment, respond, replicas, storageConnections, query);
    forall p, t | 0 <= p < |rows| ensures t in rows[p].validationResultsMap {
      FinalVerdicts(n, assignment, respond, replicas, storageConnections, query, p);
      match t
      case PartitionAssignmentZkValidity =>
      case PartitionAssignmentZkServerConsistency =>
      case PartitionAssignmentZkStorageConsistency =>
      case PartitionQuorumStatus =>
    }
  }

  /** A partition that no server lists in ZooKeeper and no server reports ends step 2 with the
      back-filled "Timeout exception" failure. */
  lemma UnlistedPartitionTimesOut(n: nat, assignment: seq<ServerAssignment>, respond: int -> ServerResponse, p: int)
    requires ZkValidation(EmptyTable(n), assignment).abort.None? && 0 <= p < n
    requires forall i :: 0 <= i < |assignment| ==> p !in assignment[i].partitions
    requires forall i :: 0 <= i < |assignment| ==>
               respond(assignment[i].serverId).Responded? ==> p !in respond(assignment[i].serverId).partitions
    ensures var m := AfterServers(n, assignment, respond)[p].validationResultsMap;
            ZkServer in m && m[ZkServer] == Failed(ZkServer, TimeoutException)
  {
    var rows0 := EmptyTable(n);
    ZkValidationAbortsIffOutOfRange(rows0, assignment);
    var rows1 := ZkValidation(rows0, assignment).rows;
    ZkValidityVerdict(rows0, assignment, p);
    ServerPhaseUntouched(rows1, assignment, respond, p);
    SameExceptAt(rows1[p], rows0[p], ZkValidity, ZkServer);
    BackfillVerdict(ServerPhase(rows1, assignment, respond), p);
  }

  /** A partition that only server i lists in ZooKeeper or reports ends step 2 with server i's
      verdict: the request's failure, or its class in the diff; the back-fill leaves it. */
  lemma SoleServerOutcome(n: nat, assignment: seq<ServerAssignment>, respond: int -> ServerResponse, i: int, p: int)
    requires ZkValidation(EmptyTable(n), assignment).abort.None? && 0 <= p < n && 0 <= i < |assignment|
    requires p in assignment[i].partitions ||
             (respond(assignment[i].serverId).Responded? && p in respond(assignment[i].serverId).partitions)
    requires respond(assignment[i].serverId).Responded? ==> InRange(respond(assignment[i].serverId).partitions, n)
    requires forall j :: 0 <= j < |assignment| && j != i ==> p !in assignment[j].partitions
    requires forall j :: 0 <= j < |assignment| && j != i ==>
               respond(assignment[j].serverId).Responded? ==> p !in respond(assignment[j].serverId).partitions
    ensures var m := AfterServers(n, assignment, respond)[p].validationResultsMap;
            ZkServer in m && m[ZkServer] == SoleVerdict(assignment[i].partitions, respond(assignment[i].serverId), p)
  {
    var rows0 := EmptyTable(n);
    ZkValidationAbortsIffOutOfRange(rows0, assignment);
    var rows1 := ZkValidation(rows0, assignment).rows;
    SoleServerVerdict(rows1, assignment, respond, i, p);
    BackfillVerdict(ServerPhase(rows1, assignment, respond), p);
  }

  /** Without connection metadata the storage fleet is empty: no partition reaches a quorum, and
      the assignment check passes only for partitions with no replica in ZooKeeper. */
  lemma NoConnectionMetadata(n: nat, assignment: seq<ServerAssignment>, respond: int -> ServerResponse,
                             replicas: seq<ReplicaEntry>, query: (string, int) -> NodeOutcome, p: int)
    requires ZkValidation(EmptyTable(n), assignment).abort.None? && 0 <= p < n
    ensures var m := FinalTable(n, assignment, respond, replicas, StorageConnections(None), query)[p].validationResultsMap;
            && Quorum in m && m[Quorum] == Failed(Quorum, QuorumNotAchieved)
            && ZkStorage in m && (m[ZkStorage].status == Success <==> ReplicasOf(replicas, p) == [])
  {
    FinalVerdicts(n, assignment, respond, replicas, map[], query, p);
    assert StatusMapOf(map[], query, p) == map[];
    assert AvailableReplicas(map[]) == {};
    var m := FinalTable(n, assignment, respond, replicas, map[], query)[p].validationResultsMap;
    StorageVerdicts(AfterServers(n, assignment, respond), 0, ReplicaTable(n, replicas), StatusTable(n, map[], query), p);
    assert m[Quorum] == QuorumResult(0, 0);
  }
}
