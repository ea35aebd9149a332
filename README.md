# Waltz cluster `verify`: a Dafny model of the partition-verification engine

The `verify` subcommand of Waltz's cluster tool (`ClusterCli.Verify`) checks a cluster for consistency. It builds a
results table with one entry per partition. Each entry maps a validation type to a result, which holds a status and
an error text. `processCmd` fills the table in steps:

1. **ZooKeeper validity.** Every server's ZooKeeper partition list is scanned into `int[] partitionToServerMap`.
   Slot value 0 means "unclaimed". A second claim of a partition fails, naming the first and the later server.
   Partitions still unclaimed afterwards fail with "not handled by any server".
2. **Server vs ZooKeeper.**
   - Each server's own partition list is diffed with its ZooKeeper list. The diff is keyed by partition id and valued
     `ONLY_IN_ZOOKEEPER`, `ONLY_IN_SERVER` or `IN_BOTH`.
   - On success the diff is written into the table. If the request failed, every ZooKeeper partition of that server
     fails with the exception's message.
   - Any partition still without an entry then gets "Timeout exception".
3. **Storage.** The replica assignment in ZooKeeper is turned around into a per-partition replica list. Every
   storage node's per-partition read/write status is collected per partition. For each partition, the step records:
   - whether the two sides have the same number of entries;
   - whether the nodes reporting it read-write are a strict majority of the storage fleet.
4. **Final pass.** `verifyValidation` walks every (partition, type) pair.

The model has one module per step, plus one for the data types and one for the command as a whole:

- `ValidationResults`: the data types, the table operations and the error texts.
- `ZookeeperValidity`: step 1.
- `ServerConsistency`: step 2.
- `StorageMapping` and `StorageValidation`: step 4 of the source. Its step 3 is an empty placeholder.
- `VerifyCommand`: `verifyValidation` and `processCmd`.

The results table is an `array` of `PartitionValidationResults` values (a partition id and a
`map<ValidationType, ValidationResult>`). Each step that writes the table is a method with `modifies table`. Its
postcondition equates the new table with a function of the old one. Lemmas then state what that function means per
partition, against independent descriptions:

- the claimants of a partition, for step 1;
- `Classify`, a description in terms of multiplicities, for the diff;
- the replica lists and reported statuses, for step 4.

The methods that only read or build values prove their meaning directly in their postconditions:

- `VerifyAssignments`
- the replica-list and status-map builders
- `QuorumList`
- `VerifyValidation`
- `ProcessCmd`

Choices the model makes explicit:

- **Integer ranges.** Partition and server ids are unbounded integers. The code's guards for the range
  `[0, numPartitions)` are modelled as written.
- **Exceptions.** A Java exception that escapes a step ends the run. `processCmd`'s `catch` then turns it into
  `SubCommandFailedException`. It is modelled as an `Abort` carried in a `Result`/`Option`:
  - `IndexOutOfBounds` when `List.get` is given an id outside the table, or when `split(":")[0]` is taken of a
    storage key made only of colons (the split yields an empty array);
  - `NullPointer` when `Map.get` returns `null`;
  - `StorageQueryFailed` for a storage-admin failure other than a refused connection.
- **Out-of-range claim in step 1.** The code builds the error "Server s handles invalid partition p". It then calls
  `get(p)` on the results list, which throws before anything is written (`ClusterCli.java:569`). So an out-of-range
  claim aborts the run, and that error text is never recorded. Since the code builds that text (`ClusterCli.java:557`),
  a FAILURE entry was evidently intended. The model follows the code.
- **Out-of-range id reported by a server.**
  - The `get(partitionId)` in the success handler throws.
  - `exceptionally` is chained after `thenAccept`, so it receives that exception.
  - The server's ZooKeeper partitions therefore fail with the `IndexOutOfBoundsException` message.
  - Entries already written by the handler stay.
- **Server id 0** is the "unclaimed" marker. A claim by server 0 leaves the slot at 0, so the partition still ends as
  "not handled by any server" unless a nonzero server also claims it.
- **HashMap iteration order.** The success handler visits the diff map in some order. The model takes the order in
  which keys were first put (`InsertionOrder`). When every id is inside the table the order does not matter
  (`InRangeOrderIrrelevant`). When some id is outside it, the order decides which entries are written before the
  throw, and which out-of-range id the IndexOutOfBounds message names. The replica assignment is a sequence of distinct connection strings in iteration order. Storage nodes and
  their status maps are visited in an arbitrary order (`:|`).
- **Outcome of the run.** `processCmd` throws only when a step aborts. The boolean `verifyValidation` returns is
  discarded (`ClusterCli.java:249`), so failing checks do not make the command fail. `ProcessCmd` returns the final
  table or the abort. `FinalComplete` shows that the final pass cannot throw on a table that a completed run built.

## Model

| member | source | states |
|---|---|---|
| ValidationResults.AllTypesEnumerates | waltz-tools/src/main/java/com/wepay/waltz/tools/cluster/ClusterCli.java:615-620 | `values()` lists each of the four validation types exactly once |
| ValidationResults.EmptyTable | waltz-tools/src/main/java/com/wepay/waltz/tools/cluster/ClusterCli.java:208-210 | the initial table has one entry per partition, with id p and an empty result map |
| ValidationResults.ErrorText | waltz-tools/src/main/java/com/wepay/waltz/tools/cluster/ClusterCli.java:557-560 | the error text of each detail, as step 1 (:557-560, :579), the success handler (:457), the failure handler (:471), the back-fill (:225) and step 4 (:279-280, :301) build it; the text is empty exactly for no error or for an exception whose message is empty |
| ZookeeperValidity.BuildZookeeperPartitionAssignmentsValidation | waltz-tools/src/main/java/com/wepay/waltz/tools/cluster/ClusterCli.java:547-584 | the nested scan and the unclaimed sweep leave the table and the abort given by `ZkValidation` of the old table |
| ZookeeperValidity.ZkValidationAbortsIffOutOfRange | waltz-tools/src/main/java/com/wepay/waltz/tools/cluster/ClusterCli.java:553-570 | step 1 aborts iff some claim names a partition outside the table; the abort is that claim's IndexOutOfBounds; without an abort every claimed id is in range |
| ZookeeperValidity.ScanTracksClaimants | waltz-tools/src/main/java/com/wepay/waltz/tools/cluster/ClusterCli.java:550-571 | after the scan, p's slot holds its first nonzero claimant; p's entry is the result of its last claim; no claim leaves it untouched; no other type changes |
| ZookeeperValidity.ZkValidityVerdict | waltz-tools/src/main/java/com/wepay/waltz/tools/cluster/ClusterCli.java:550-583 | every partition gets a ZK_VALIDITY entry: not handled if no nonzero claimant; success if only the last claimant may be nonzero; otherwise a duplicate naming the first nonzero and the last claimant |
| ZookeeperValidity.SoleClaimPasses | waltz-tools/src/main/java/com/wepay/waltz/tools/cluster/ClusterCli.java:561-570 | a partition claimed once, by a nonzero server, passes |
| ZookeeperValidity.DuplicateClaimFails | waltz-tools/src/main/java/com/wepay/waltz/tools/cluster/ClusterCli.java:558-570 | a partition claimed first by a nonzero server and then again fails, naming the first and the last claimant |
| ZookeeperValidity.UnclaimedFails | waltz-tools/src/main/java/com/wepay/waltz/tools/cluster/ClusterCli.java:574-583 | a partition with no claimant, or claimed only by server 0, fails as not handled by any server |
| ZookeeperValidity.ZkStatusFromText | waltz-tools/src/main/java/com/wepay/waltz/tools/cluster/ClusterCli.java:565-567 | for the two details step 1 records, `"".equals(error)` holds exactly when there is no error, so the status the model derives from the detail is the one the code derives from the text |
| ServerConsistency.VerifyAssignments | waltz-tools/src/main/java/com/wepay/waltz/tools/cluster/ClusterCli.java:521-537 | the keys are exactly the ZooKeeper ids and the server ids; an id the server omits is ONLY_IN_ZOOKEEPER; an id in both lists, or repeated by the server, is IN_BOTH; an id the server reports once and ZooKeeper lacks is ONLY_IN_SERVER |
| ServerConsistency.InsertionOrder | waltz-tools/src/main/java/com/wepay/waltz/tools/cluster/ClusterCli.java:451 | the order in which the match map is visited covers each key exactly once |
| ServerConsistency.FailureHandler | waltz-tools/src/main/java/com/wepay/waltz/tools/cluster/ClusterCli.java:465-475 | the table becomes `FailAll` of the old one: each ZooKeeper partition of the server fails with the given detail |
| ServerConsistency.SuccessHandler | waltz-tools/src/main/java/com/wepay/waltz/tools/cluster/ClusterCli.java:448-464 | the table becomes `HandleResponse` of the old one for a response carrying the server's list |
| ServerConsistency.MatchesOf | waltz-tools/src/main/java/com/wepay/waltz/tools/cluster/ClusterCli.java:521-537 | a map with the keys and classes that `verifyAssignments` promises is the match map `Matches` |
| ServerConsistency.WriteMatchMap | waltz-tools/src/main/java/com/wepay/waltz/tools/cluster/ClusterCli.java:451-464 | the forEach writes each visited id's consistency result until an id falls outside the table, then runs the failure handler; the table becomes `ApplyMatches` of the old one |
| ServerConsistency.InRangeOrderIrrelevant | waltz-tools/src/main/java/com/wepay/waltz/tools/cluster/ClusterCli.java:451-464 | when every visited id is inside the table, any two visiting orders of the same ids leave the same table |
| ServerConsistency.BuildServerZKPartitionAssignmentsValidation | waltz-tools/src/main/java/com/wepay/waltz/tools/cluster/ClusterCli.java:438-476 | a completed future runs the success or the failure handler, as `HandleResponse` describes |
| ServerConsistency.BuildServersZKPartitionAssignmentsConsistencyValidation | waltz-tools/src/main/java/com/wepay/waltz/tools/cluster/ClusterCli.java:491-503 | all servers' futures, applied one after another, leave `ServerPhase` of the old table |
| ServerConsistency.BackfillTimeouts | waltz-tools/src/main/java/com/wepay/waltz/tools/cluster/ClusterCli.java:222-228 | the table becomes `Backfilled` of the old one |
| ServerConsistency.RespondedVerdict | waltz-tools/src/main/java/com/wepay/waltz/tools/cluster/ClusterCli.java:448-464 | for a response with in-range ids, every id of either list gets SUCCESS iff it is IN_BOTH, and otherwise FAILURE naming its class; no other partition changes |
| ServerConsistency.FailedRequestVerdict | waltz-tools/src/main/java/com/wepay/waltz/tools/cluster/ClusterCli.java:465-475 | a failed request fails exactly the server's ZooKeeper partitions with the exception message; no other partition changes |
| ServerConsistency.OutOfRangeReportVerdict | waltz-tools/src/main/java/com/wepay/waltz/tools/cluster/ClusterCli.java:458-475 | a response naming a missing partition fails all the server's ZooKeeper partitions with an IndexOutOfBounds message; partitions in neither list are unchanged |
| ServerConsistency.ExactReportPasses | waltz-tools/src/main/java/com/wepay/waltz/tools/cluster/ClusterCli.java:448-464 | a server that reports exactly its ZooKeeper list passes on each of those partitions |
| ServerConsistency.HandleResponseSameExcept | waltz-tools/src/main/java/com/wepay/waltz/tools/cluster/ClusterCli.java:448-475 | one server's handlers change only ZK_SERVER_CONSISTENCY entries |
| ServerConsistency.ServerPhaseSameExcept | waltz-tools/src/main/java/com/wepay/waltz/tools/cluster/ClusterCli.java:491-503 | the whole fan-out changes only ZK_SERVER_CONSISTENCY entries |
| ServerConsistency.ServerPhaseUntouched | waltz-tools/src/main/java/com/wepay/waltz/tools/cluster/ClusterCli.java:491-503 | a partition no server lists or reports keeps its entry through the fan-out |
| ServerConsistency.ServerLeavesAlone | waltz-tools/src/main/java/com/wepay/waltz/tools/cluster/ClusterCli.java:448-475 | a server that neither lists nor reports p leaves p's entry, whatever its response |
| ServerConsistency.SoleServerVerdict | waltz-tools/src/main/java/com/wepay/waltz/tools/cluster/ClusterCli.java:491-503 | a partition that only server i lists or reports ends the fan-out with server i's verdict, the failure message or its class in the diff, provided i's answer names existing partitions only |
| ServerConsistency.BackfillVerdict | waltz-tools/src/main/java/com/wepay/waltz/tools/cluster/ClusterCli.java:222-228 | afterwards every partition has a ZK_SERVER_CONSISTENCY entry; existing ones are untouched; missing ones become FAILURE "Timeout exception"; nothing else changes |
| StorageMapping.GetZkPartitionToStorageNodeMapping | waltz-tools/src/main/java/com/wepay/waltz/tools/cluster/ClusterCli.java:368-382 | aborts with NullPointer iff some replica list names a partition outside `[0, numPartitions)`; otherwise every partition has exactly its `ReplicasOf` list |
| StorageMapping.AddConnection | waltz-tools/src/main/java/com/wepay/waltz/tools/cluster/ClusterCli.java:375-379 | one connection is appended to the list of each partition it names, once per occurrence, or the step fails on an out-of-range id |
| StorageMapping.ReplicasOfMembers | waltz-tools/src/main/java/com/wepay/waltz/tools/cluster/ClusterCli.java:371-379 | a connection is in p's replica list iff its own list names p |
| StorageMapping.ReplicasOfCount | waltz-tools/src/main/java/com/wepay/waltz/tools/cluster/ClusterCli.java:371-379 | with distinct connection strings, c appears in p's list exactly as often as p appears in c's list |
| StorageMapping.StorageConnections | waltz-tools/src/main/java/com/wepay/waltz/tools/cluster/ClusterCli.java:312-321 | null connection metadata gives the empty map; otherwise its connection map |
| StorageMapping.Answer | waltz-tools/src/main/java/com/wepay/waltz/tools/cluster/ClusterCli.java:347-366 | a node's answer: an error iff its key has no host or its query fails other than by a refused connect, and then the query's failure; otherwise the reported map, or the empty map for a refused connect |
| StorageMapping.HostOfHostPort | waltz-tools/src/main/java/com/wepay/waltz/tools/cluster/ClusterCli.java:333-334 | the host taken from "host:port" is the host |
| StorageMapping.GetStoragePartitionMapping | waltz-tools/src/main/java/com/wepay/waltz/tools/cluster/ClusterCli.java:323-345 | succeeds iff every node answers (a refused connect counts as an empty answer) with ids in range; then every partition maps each reporting connection to its reported status (`StatusMapOf`); an abort is that of some node that is not fine: its own failure, or a NullPointer when it answered with a partition id outside the range |
| StorageMapping.AddNodeStatuses | waltz-tools/src/main/java/com/wepay/waltz/tools/cluster/ClusterCli.java:339-341 | one node's status map is added to the partition table: it fails iff the node names a partition outside `[0, numPartitions)`; otherwise each partition it names gets the node's status under its connection string and every other entry stays |
| StorageMapping.ConnectFailedContributesNothing | waltz-tools/src/main/java/com/wepay/waltz/tools/cluster/ClusterCli.java:359-360 | a node whose connect failed is in no partition's status map |
| StorageValidation.QuorumList | waltz-tools/src/main/java/com/wepay/waltz/tools/cluster/ClusterCli.java:289-296 | the list holds each connection with status true exactly once, so its size is the number of available replicas |
| StorageValidation.QuorumIsStrictMajority | waltz-tools/src/main/java/com/wepay/waltz/tools/cluster/ClusterCli.java:298-307 | the quorum check `count <= size / 2 fails` passes exactly when `2 * count > size` |
| StorageValidation.ValidateStoragePartitionAssignment | waltz-tools/src/main/java/com/wepay/waltz/tools/cluster/ClusterCli.java:265-310 | the table becomes `StorageChecked` of the old one |
| StorageValidation.RowVerdicts | waltz-tools/src/main/java/com/wepay/waltz/tools/cluster/ClusterCli.java:276-308 | one partition: the assignment result is SUCCESS iff the two sizes agree; quorum is SUCCESS iff a strict majority says true; other types are kept |
| StorageValidation.StorageVerdicts | waltz-tools/src/main/java/com/wepay/waltz/tools/cluster/ClusterCli.java:271-309 | every partition gets both results as in `RowVerdicts`, and keeps its id and its step 1 and 2 entries |
| VerifyCommand.VerifyValidationOf | waltz-tools/src/main/java/com/wepay/waltz/tools/cluster/ClusterCli.java:413-423 | a missing entry throws NullPointer; otherwise the check is true iff the entry is not a FAILURE |
| VerifyCommand.VerifyValidation | waltz-tools/src/main/java/com/wepay/waltz/tools/cluster/ClusterCli.java:391-401 | throws iff some (partition, type) entry is missing; otherwise returns true iff no entry is a FAILURE; it changes nothing |
| VerifyCommand.ProcessCmd | waltz-tools/src/main/java/com/wepay/waltz/tools/cluster/ClusterCli.java:190-262 | the run completes iff no step throws; a completed run leaves `FinalTable`; an abort is step 1's IndexOutOfBounds if step 1 throws, else a NullPointer if a replica list names a missing partition, else the abort of some storage node that is not fine |
| VerifyCommand.AfterServersRow | waltz-tools/src/main/java/com/wepay/waltz/tools/cluster/ClusterCli.java:212-228 | after steps 1 and 2, each partition keeps its ZooKeeper validity verdict and has a server consistency entry |
| VerifyCommand.FinalVerdicts | waltz-tools/src/main/java/com/wepay/waltz/tools/cluster/ClusterCli.java:212-247 | in a completed run, each partition holds all four results: the step 1 verdict, its step 2 entry, storage consistency iff the replica count equals the number of reporting nodes, and quorum iff a strict majority reports it read-write |
| VerifyCommand.FinalComplete | waltz-tools/src/main/java/com/wepay/waltz/tools/cluster/ClusterCli.java:248-249 | a completed run leaves every (partition, type) entry present, so the final pass never throws |
| VerifyCommand.UnlistedPartitionTimesOut | waltz-tools/src/main/java/com/wepay/waltz/tools/cluster/ClusterCli.java:222-228 | a partition no server lists or reports ends step 2 with "Timeout exception" |
| VerifyCommand.SoleServerOutcome | waltz-tools/src/main/java/com/wepay/waltz/tools/cluster/ClusterCli.java:212-228 | in a run past step 1, a partition only server i lists or reports holds server i's verdict after step 2 and the back-fill |
| VerifyCommand.NoConnectionMetadata | waltz-tools/src/main/java/com/wepay/waltz/tools/cluster/ClusterCli.java:312-321 | without connection metadata no partition reaches a quorum, and the assignment check passes only for partitions with no ZooKeeper replica |

## Left out

- Loading of the ZooKeeper state (ClusterManagerImpl, StoreMetadata, the YAML config, SSL contexts) is not modelled. The partition assignment, replica assignment, connection metadata and partition count are parameters.
- `numPartitions` is read from the cluster manager several times in the source. The model takes it as one value, the table's length.
- The RPC and storage-admin I/O are not modelled: InternalRpcClient, StorageAdminClient open/get/close, and getPartitionPerStorageNode's use of the store parameters. A server's future is a `ServerResponse` function of its id. A storage node's outcome is a `NodeOutcome` function of host and port.
- The CompletableFuture fan-out, its `allOf` join and any interleaving of handlers are not modelled. The servers are handled one after another, in the order of the partition assignment. The same sequence stands for `serverDescriptors()` and `serverIds()`/`partitionsFor`. So the model does not capture a server that has partitions in ZooKeeper but no descriptor: in the code step 2 never visits it, and its partitions are back-filled with "Timeout exception"; in the model every assigned server is visited.
- `SuccessHandler`: the HashMap visiting order is taken to be the order in which the keys were first put. For a server that reports an id outside the table, the model's entries and the id named in the message may therefore differ from Java's bucket order.
- The IndexOutOfBounds message text is the one of JDK 9 and later ("Index i out of bounds for length n"). JDK 8's wording ("Index: i, Size: n", and `ArrayIndexOutOfBoundsException` for a negative index) is not modelled.
- `GetStoragePartitionMapping`: when several nodes fail, the abort is that of whichever node is visited first. The postcondition names the abort of some node that is not fine, not which one.
- `ProcessCmd`: the abort of a failing storage step is stated only up to that same choice.
- The `System.out` printing in `verifyValidation` is not modelled, and neither is the wording of `SubCommandFailedException`.
- The `CheckConnectivity` command, CLI option setup (including the unused `--partition` option), `main`/`testMain` and the `toString` methods are outside this model.
