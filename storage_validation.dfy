/** Step 4 of verify: for every partition, whether ZooKeeper and the storage nodes agree on how many
    replicas it has, and whether a strict majority of the storage fleet can read and write it
    (validateStoragePartitionAssignment). */
module StorageValidation {
  import opened ValidationResults

  const ZkStorage := PartitionAssignmentZkStorageConsistency
  const Quorum := PartitionQuorumStatus

  /** The connections whose reported status is true. */
  function AvailableReplicas(statuses: map<string, bool>): set<string>
  {
    set c | c in statuses && statuses[c]
  }

  /** The forEach that collects the connections with status true, visiting them in some order. */
  method QuorumList(storageReadWriteStatusMap: map<string, bool>) returns (quorumList: seq<string>)
    ensures forall c :: c in quorumList <==> c in AvailableReplicas(storageReadWriteStatusMap)
    ensures forall i, j :: 0 <= i < j < |quorumList| ==> quorumList[i] != quorumList[j]
    ensures |quorumList| == |AvailableReplicas(storageReadWriteStatusMap)|
  {
    quorumList := [];
    var remaining := storageReadWriteStatusMap.Keys;
    while remaining != {}
      invariant remaining <= storageReadWriteStatusMap.Keys
      invariant forall c :: c in quorumList <==>
                  c in storageReadWriteStatusMap && c !in remaining && storageReadWriteStatusMap[c]
      invariant forall i, j :: 0 <= i < j < |quorumList| ==> quorumList[i] != quorumList[j]
      decreases remaining
    {
      assert exists c :: c in remaining;
      var storageConnectString :| storageConnectString in remaining;
      if storageReadWriteStatusMap[storageConnectString] {
        quorumList := quorumList + [storageConnectString];
      }
      remaining := remaining - {storageConnectString};
    }
    DistinctCardinality(quorumList);
    assert (set c | c in quorumList) == AvailableReplicas(storageReadWriteStatusMap);
  }

  /** A sequence without repeats has as many elements as its set. */
  lemma {:induction false} DistinctCardinality(s: seq<string>)
    requires forall i, j :: 0 <= i < j < |s| ==> s[i] != s[j]
    ensures |set c | c in s| == |s|
  {
    if s != [] {
      var init := s[..|s| - 1];
      var last := s[|s| - 1];
      assert forall i, j :: 0 <= i < j < |init| ==> init[i] != init[j] by {
        assert forall i :: 0 <= i < |init| ==> init[i] == s[i];
      }
      DistinctCardinality(init);
      assert last !in init by {
        assert forall i :: 0 <= i < |init| ==> init[i] == s[i];
      }
      assert s == init + [last];
      assert (set c | c in s) == (set c | c in init) + {last};
    }
  }

  /** The assignment consistency of one partition: the replica count in ZooKeeper against the
      number of nodes reporting the partition. */
  function StorageConsistencyResult(zkReplicaCount: nat, reportedCount: nat): ValidationResult
  {
    if zkReplicaCount != reportedCount then Failed(ZkStorage, StorageMismatch) else Succeeded(ZkStorage)
  }

  /** quorumList.size() <= storageConnections.size() / 2 fails; integer division of counts. */
  function QuorumResult(available: nat, fleet: nat): ValidationResult
  {
    if available <= fleet / 2 then Failed(Quorum, QuorumNotAchieved) else Succeeded(Quorum)
  }

  /** The quorum check passes exactly when the available replicas are a strict majority of the fleet. */
  lemma QuorumIsStrictMajority(available: nat, fleet: nat)
    ensures QuorumResult(available, fleet).status == Success <==> 2 * available > fleet
    ensures QuorumResult(available, fleet).status == Failure ==>
              QuorumResult(available, fleet).error == QuorumNotAchieved
  {
  }

  /** Step 4's two results for one partition, put in that order. */
  function StorageCheckedRow(pr: PartitionValidationResults, fleet: nat, replicas: seq<string>,
                             statuses: map<string, bool>): PartitionValidationResults
  {
    PutIn(PutIn(pr, StorageConsistencyResult(|replicas|, |statuses|)), QuorumResult(|AvailableReplicas(statuses)|, fleet))
  }

  predicate Covers(n: int, zkPartitionToStorageNodeMap: map<int, seq<string>>,
                   partitionToStorageAssignmentMap: map<int, map<string, bool>>)
  {
    forall p :: 0 <= p < n ==> p in zkPartitionToStorageNodeMap && p in partitionToStorageAssignmentMap
  }

  function StorageChecked(rows: seq<PartitionValidationResults>, fleet: nat,
                          zkPartitionToStorageNodeMap: map<int, seq<string>>,
                          partitionToStorageAssignmentMap: map<int, map<string, bool>>)
    : (rows': seq<PartitionValidationResults>)
    requires Covers(|rows|, zkPartitionToStorageNodeMap, partitionToStorageAssignmentMap)
    ensures |rows'| == |rows|
  {
    seq(|rows|, p requires 0 <= p < |rows| =>
      StorageCheckedRow(rows[p], fleet, zkPartitionToStorageNodeMap[p], partitionToStorageAssignmentMap[p]))
  }

  /** validateStoragePartitionAssignment. Both maps hold a key for every partition id, as the two
      mapping functions build them. */
  method ValidateStoragePartitionAssignment(storageConnections: map<string, int>,
                                            zkPartitionToStorageNodeMap: map<int, seq<string>>,
                                            partitionToStorageAssignmentMap: map<int, map<string, bool>>,
                                            table: array<PartitionValidationResults>)
    requires Covers(table.Length, zkPartitionToStorageNodeMap, partitionToStorageAssignmentMap)
    modifies table
    ensures table[..] == StorageChecked(old(table[..]), |storageConnections|, zkPartitionToStorageNodeMap,
                                        partitionToStorageAssignmentMap)
  {
    for id := 0 to table.Length
      invariant forall q :: 0 <= q < id ==>
                  table[q] == StorageCheckedRow(old(table[q]), |storageConnections|, zkPartitionToStorageNodeMap[q],
                                                partitionToStorageAssignmentMap[q])
      invariant forall q :: id <= q < table.Length ==> table[q] == old(table[q])
    {
      var partitionValidationResults := table[id];
      var partitionAssignmentValidationResults;
      if |zkPartitionToStorageNodeMap[id]| != |partitionToStorageAssignmentMap[id]| {
        partitionAssignmentValidationResults := ValidationResult(ZkStorage, Failure, StorageMismatch);
      } else {
        partitionAssignmentValidationResults := ValidationResult(ZkStorage, Success, NoError);
      }
      partitionValidationResults := PutIn(partitionValidationResults, partitionAssignmentValidationResults);

      var quorumList := QuorumList(partitionToStorageAssignmentMap[id]);
      var quorumValidationResults;
      if |quorumList| <= |storageConnections| / 2 {
        quorumValidationResults := ValidationResult(Quorum, Failure, QuorumNotAchieved);
      } else {
        quorumValidationResults := ValidationResult(Quorum, Success, NoError);
      }
      partitionValidationResults := PutIn(partitionValidationResults, quorumValidationResults);
      table[id] := partitionValidationResults;
    }
  }

  /** What step 4 records for p: the assignment check passes iff the ZooKeeper replica count equals
      the number of reporting nodes, the quorum check passes iff a strict majority of the fleet
      reports p read-write, and the entries of steps 1 and 2 are kept. */
  lemma StorageVerdicts(rows: seq<PartitionValidationResults>, fleet: nat,
                        zkPartitionToStorageNodeMap: map<int, seq<string>>,
                        partitionToStorageAssignmentMap: map<int, map<string, bool>>, p: int)
    requires Covers(|rows|, zkPartitionToStorageNodeMap, partitionToStorageAssignmentMap) && 0 <= p < |rows|
    ensures var m := StorageChecked(rows, fleet, zkPartitionToStorageNodeMap, partitionToStorageAssignmentMap)[p].validationResultsMap;
            && ZkStorage in m && Quorum in m
            && (m[ZkStorage].status == Success <==>
                  |zkPartitionToStorageNodeMap[p]| == |partitionToStorageAssignmentMap[p]|)
            && (m[Quorum].status == Success <==> 2 * |AvailableReplicas(partitionToStorageAssignmentMap[p])| > fleet)
    ensures forall u :: u != ZkStorage && u != Quorum ==>
              var m := StorageChecked(rows, fleet, zkPartitionToStorageNodeMap, partitionToStorageAssignmentMap)[p].validationResultsMap;
              && (u in m <==> u in rows[p].validationResultsMap)
              && (u in m ==> m[u] == rows[p].validationResultsMap[u])
    ensures StorageChecked(rows, fleet, zkPartitionToStorageNodeMap, partitionToStorageAssignmentMap)[p].partitionId
              == rows[p].partitionId
  {
    RowVerdicts(rows[p], fleet, zkPartitionToStorageNodeMap[p], partitionToStorageAssignmentMap[p]);
  }

  /** Step 4 on one partition: the assignment result passes iff the two sides have as many entries,
      the quorum result passes iff a strict majority reports true, and the results of the other
      two types and the partition id are as they were. */
  lemma RowVerdicts(pr: PartitionValidationResults, fleet: nat, replicas: seq<string>, statuses: map<string, bool>)
    ensures var m := StorageCheckedRow(pr, fleet, replicas, statuses).validationResultsMap;
            && ZkStorage in m && Quorum in m
            && (m[ZkStorage].status == Success <==> |replicas| == |statuses|)
            && (m[Quorum].status == Success <==> 2 * |AvailableReplicas(statuses)| > fleet)
    ensures forall u :: u != ZkStorage && u != Quorum ==>
              var m := StorageCheckedRow(pr, fleet, replicas, statuses).validationResultsMap;
              && (u in m <==> u in pr.validationResultsMap)
              && (u in m ==> m[u] == pr.validationResultsMap[u])
    ensures StorageCheckedRow(pr, fleet, replicas, statuses).partitionId == pr.partitionId
  {
    var available := |AvailableReplicas(statuses)|;
    QuorumIsStrictMajority(available, fleet);
    var m1 := pr.validationResultsMap[ZkStorage := StorageConsistencyResult(|replicas|, |statuses|)];
    var m2 := m1[Quorum := QuorumResult(available, fleet)];
    assert m2[ZkStorage] == m1[ZkStorage];
  }
}
