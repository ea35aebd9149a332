/** Step 2 of verify: each server's own partition list against its ZooKeeper list
    (verifyAssignments, the two handlers of buildServerZKPartitionAssignmentsValidation, the
    fan-out over all servers, and the timeout back-fill of processCmd). */
module ServerConsistency {
  import opened ValidationResults
  import opened ZookeeperValidity

  const ZkServer := PartitionAssignmentZkServerConsistency

  /** How the getServerPartitionAssignments future of one server completes. */
  datatype ServerResponse = Responded(partitions: seq<int>) | RequestFailed(message: string)

  // ---- verifyAssignments ----

  /** The class an id ends with: an id the server reports once is ONLY_IN_SERVER unless ZooKeeper
      lists it too; an id the server reports twice finds its own first entry and becomes IN_BOTH. */
  function Classify(zk: seq<int>, srv: seq<int>, k: int): AssignmentMatch
  {
    if k !in srv then OnlyInZookeeper
    else if k in zk || multiset(srv)[k] > 1 then InBoth
    else OnlyInServer
  }

  function Matches(zk: seq<int>, srv: seq<int>): map<int, AssignmentMatch>
  {
    map k | k in zk + srv :: Classify(zk, srv, k)
  }

  method VerifyAssignments(zookeeperAssignments: seq<int>, serverAssignments: seq<int>)
    returns (assignmentMatchMap: map<int, AssignmentMatch>)
    ensures forall k :: k in assignmentMatchMap <==> k in zookeeperAssignments || k in serverAssignments
    ensures forall k :: k in assignmentMatchMap ==>
              assignmentMatchMap[k] == Classify(zookeeperAssignments, serverAssignments, k)
  {
    assignmentMatchMap := map[];
    for i := 0 to |zookeeperAssignments|
      invariant forall k :: k in assignmentMatchMap <==> k in zookeeperAssignments[..i]
      invariant forall k :: k in assignmentMatchMap ==> assignmentMatchMap[k] == OnlyInZookeeper
    {
      assert zookeeperAssignments[..i + 1] == zookeeperAssignments[..i] + [zookeeperAssignments[i]];
      assignmentMatchMap := assignmentMatchMap[zookeeperAssignments[i] := OnlyInZookeeper];
    }
    assert zookeeperAssignments[..|zookeeperAssignments|] == zookeeperAssignments;
    for j := 0 to |serverAssignments|
      invariant forall k :: k in assignmentMatchMap <==> k in zookeeperAssignments || k in serverAssignments[..j]
      invariant forall k :: k in assignmentMatchMap ==>
                  assignmentMatchMap[k] == Classify(zookeeperAssignments, serverAssignments[..j], k)
    {
      var partitionId := serverAssignments[j];
      assert serverAssignments[..j + 1] == serverAssignments[..j] + [partitionId];
      if partitionId in assignmentMatchMap {
        assignmentMatchMap := assignmentMatchMap[partitionId := InBoth];
      } else {
        assignmentMatchMap := assignmentMatchMap[partitionId := OnlyInServer];
      }
    }
    assert serverAssignments[..|serverAssignments|] == serverAssignments;
  }

  // ---- the two handlers, as functions of the table ----

  /** The result the success handler writes for one entry of the match map. */
  function ConsistencyResult(p: int, m: AssignmentMatch): ValidationResult
  {
    if m == InBoth then Succeeded(ZkServer) else Failed(ZkServer, NotMatching(p, m))
  }

  /** The order forEach visits the match map in, modelled as the order its keys were first put. */
  function InsertionOrder(s: seq<int>): (ks: seq<int>)
    ensures forall k :: k in ks <==> k in s
    ensures forall i, j :: 0 <= i < j < |ks| ==> ks[i] != ks[j]
  {
    if s == [] then []
    else
      var ks' := InsertionOrder(s[..|s| - 1]);
      assert forall k :: k in s <==> k in s[..|s| - 1] || k == s[|s| - 1] by {
        assert s == s[..|s| - 1] + [s[|s| - 1]];
      }
      if s[|s| - 1] in ks' then ks' else ks' + [s[|s| - 1]]
  }

  /** The index of the first id outside [0, n), or |ks| when there is none. */
  function FirstOutOfRange(ks: seq<int>, n: int): (i: nat)
    ensures i <= |ks|
    ensures forall k :: 0 <= k < i ==> 0 <= ks[k] < n
    ensures i < |ks| ==> !(0 <= ks[i] < n)
  {
    if ks == [] then 0 else if !(0 <= ks[0] < n) then 0 else 1 + FirstOutOfRange(ks[1..], n)
  }

  predicate InRange(ps: seq<int>, n: int)
  {
    forall i :: 0 <= i < |ps| ==> 0 <= ps[i] < n
  }

  lemma InRangeConcat(a: seq<int>, b: seq<int>, n: int)
    requires InRange(a, n) && InRange(b, n)
    ensures InRange(a + b, n)
  {
    forall i | 0 <= i < |a + b| ensures 0 <= (a + b)[i] < n {
      if i >= |a| {
        assert (a + b)[i] == b[i - |a|];
      }
    }
  }

  /** The success handler's writes for the keys ks, in order. */
  function WriteMatches(rows: seq<PartitionValidationResults>, m: map<int, AssignmentMatch>, ks: seq<int>)
    : (rows': seq<PartitionValidationResults>)
    requires forall i :: 0 <= i < |ks| ==> ks[i] in m
    requires InRange(ks, |rows|)
    ensures |rows'| == |rows|
  {
    if ks == [] then rows
    else
      var k := ks[|ks| - 1];
      Put(WriteMatches(rows, m, ks[..|ks| - 1]), k, ConsistencyResult(k, m[k]))
  }

  lemma WriteMatchesSnoc(rows: seq<PartitionValidationResults>, m: map<int, AssignmentMatch>, ks: seq<int>, i: int)
    requires 0 <= i < |ks|
    requires forall k :: 0 <= k < |ks| ==> ks[k] in m
    requires InRange(ks[..i + 1], |rows|)
    ensures WriteMatches(rows, m, ks[..i + 1])
              == Put(WriteMatches(rows, m, ks[..i]), ks[i], ConsistencyResult(ks[i], m[ks[i]]))
  {
    assert ks[..i + 1][..i] == ks[..i];
  }

  /** The failure handler: every partition of the server's ZooKeeper list fails with detail d. */
  function FailAll(rows: seq<PartitionValidationResults>, zk: seq<int>, d: Detail): (rows': seq<PartitionValidationResults>)
    requires InRange(zk, |rows|)
    ensures |rows'| == |rows|
  {
    if zk == [] then rows else Put(FailAll(rows, zk[..|zk| - 1], d), zk[|zk| - 1], Failed(ZkServer, d))
  }

  /** What one server's future does to the table. A reported id outside the table makes list.get
      throw inside thenAccept; exceptionally, chained after it, then runs with that exception. */
  function HandleResponse(rows: seq<PartitionValidationResults>, zk: seq<int>, response: ServerResponse)
    : (rows': seq<PartitionValidationResults>)
    requires InRange(zk, |rows|)
    ensures |rows'| == |rows|
  {
    match response
    case RequestFailed(message) => FailAll(rows, zk, ExceptionMessage(message))
    case Responded(srv) => ApplyMatches(rows, zk, Matches(zk, srv), InsertionOrder(zk + srv))
  }

  /** The forEach of the success handler over the match map m, visited in the given order: the
      writes up to the first id outside the table, and then, if there is one, the failure handler. */
  function ApplyMatches(rows: seq<PartitionValidationResults>, zk: seq<int>, m: map<int, AssignmentMatch>,
                        order: seq<int>): (rows': seq<PartitionValidationResults>)
    requires InRange(zk, |rows|)
    requires forall k :: 0 <= k < |order| ==> order[k] in m
    ensures |rows'| == |rows|
  {
    var i := FirstOutOfRange(order, |rows|);
    var written := WriteMatches(rows, m, order[..i]);
    if i == |order| then written else FailAll(written, zk, IndexOutOfBoundsMessage(order[i], |rows|))
  }

  method FailureHandler(table: array<PartitionValidationResults>, zookeeperAssignments: seq<int>, d: Detail)
    requires InRange(zookeeperAssignments, table.Length)
    modifies table
    ensures table[..] == FailAll(old(table[..]), zookeeperAssignments, d)
  {
    for i := 0 to |zookeeperAssignments|
      invariant table[..] == FailAll(old(table[..]), zookeeperAssignments[..i], d)
    {
      assert zookeeperAssignments[..i + 1][..i] == zookeeperAssignments[..i];
      var partitionId := zookeeperAssignments[i];
      table[partitionId] := PutIn(table[partitionId], Failed(ZkServer, d));
    }
    assert zookeeperAssignments[..|zookeeperAssignments|] == zookeeperAssignments;
  }

  method SuccessHandler(table: array<PartitionValidationResults>, zookeeperAssignments: seq<int>,
                        serverAssignments: seq<int>)
    requires InRange(zookeeperAssignments, table.Length)
    modifies table
    ensures table[..] == HandleResponse(old(table[..]), zookeeperAssignments, Responded(serverAssignments))
  {
    var assignmentMatchMap := VerifyAssignments(zookeeperAssignments, serverAssignments);
    MatchesOf(assignmentMatchMap, zookeeperAssignments, serverAssignments);
    var order := InsertionOrder(zookeeperAssignments + serverAssignments);
    WriteMatchMap(table, zookeeperAssignments, assignmentMatchMap, order);
  }

  /** A map with the keys and classes VerifyAssignments promises is the match map. */
  lemma MatchesOf(m: map<int, AssignmentMatch>, zk: seq<int>, srv: seq<int>)
    requires forall k :: k in m <==> k in zk || k in srv
    requires forall k :: k in m ==> m[k] == Classify(zk, srv, k)
    ensures m == Matches(zk, srv)
  {
    assert forall k :: k in zk + srv <==> k in zk || k in srv;
    assert forall k :: k in m <==> k in Matches(zk, srv);
    assert forall k :: k in m ==> m[k] == Matches(zk, srv)[k];
  }

  /** The forEach body of the success handler, for every key of the match map in order. */
  method WriteMatchMap(table: array<PartitionValidationResults>, zookeeperAssignments: seq<int>,
                       assignmentMatchMap: map<int, AssignmentMatch>, order: seq<int>)
    requires InRange(zookeeperAssignments, table.Length)
    requires forall k :: 0 <= k < |order| ==> order[k] in assignmentMatchMap
    modifies table
    ensures table[..] == ApplyMatches(old(table[..]), zookeeperAssignments, assignmentMatchMap, order)
  {
    for i := 0 to |order|
      invariant forall k :: 0 <= k < i ==> 0 <= order[k] < table.Length
      invariant table[..] == WriteMatches(old(table[..]), assignmentMatchMap, order[..i])
    {
      var partitionId := order[i];
      if partitionId < 0 || partitionId >= table.Length {
        assert FirstOutOfRange(order, table.Length) == i;
        FailureHandler(table, zookeeperAssignments, IndexOutOfBoundsMessage(partitionId, table.Length));
        return;
      }
      var matched := assignmentMatchMap[partitionId];
      var status, error := Success, NoError;
      if matched != InBoth {
        status := Failure;
        error := NotMatching(partitionId, matched);
      }
      assert ValidationResult(ZkServer, status, error) == ConsistencyResult(partitionId, matched);
      table[partitionId] := PutIn(table[partitionId], ValidationResult(ZkServer, status, error));
      WriteMatchesSnoc(old(table[..]), assignmentMatchMap, order, i);
    }
    assert order[..|order|] == order;
    assert FirstOutOfRange(order, table.Length) == |order|;
  }

  /** buildServerZKPartitionAssignmentsValidation once its future has completed. */
  method BuildServerZKPartitionAssignmentsValidation(table: array<PartitionValidationResults>,
                                                     zookeeperAssignments: seq<int>, response: ServerResponse)
    requires InRange(zookeeperAssignments, table.Length)
    modifies table
    ensures table[..] == HandleResponse(old(table[..]), zookeeperAssignments, response)
  {
    match response
    case Responded(serverAssignments) =>
      SuccessHandler(table, zookeeperAssignments, serverAssignments);
    case RequestFailed(message) =>
      FailureHandler(table, zookeeperAssignments, ExceptionMessage(message));
  }

  // ---- the fan-out over servers, as a sequential fold ----

  predicate ZkListsInRange(servers: seq<ServerAssignment>, n: int)
  {
    forall i :: 0 <= i < |servers| ==> InRange(servers[i].partitions, n)
  }

  function ServerPhase(rows: seq<PartitionValidationResults>, servers: seq<ServerAssignment>,
                       respond: int -> ServerResponse): (rows': seq<PartitionValidationResults>)
    requires ZkListsInRange(servers, |rows|)
    ensures |rows'| == |rows|
  {
    if servers == [] then rows
    else
      var last := servers[|servers| - 1];
      HandleResponse(ServerPhase(rows, servers[..|servers| - 1], respond), last.partitions, respond(last.serverId))
  }

  method BuildServersZKPartitionAssignmentsConsistencyValidation(table: array<PartitionValidationResults>,
                                                                 servers: seq<ServerAssignment>,
                                                                 respond: int -> ServerResponse)
    requires ZkListsInRange(servers, table.Length)
    modifies table
    ensures table[..] == ServerPhase(old(table[..]), servers, respond)
  {
    for i := 0 to |servers|
      invariant table[..] == ServerPhase(old(table[..]), servers[..i], respond)
    {
      assert servers[..i + 1][..i] == servers[..i];
      BuildServerZKPartitionAssignmentsValidation(table, servers[i].partitions, respond(servers[i].serverId));
    }
    assert servers[..|servers|] == servers;
  }

  // ---- the timeout back-fill ----

  function Backfilled(rows: seq<PartitionValidationResults>): (rows': seq<PartitionValidationResults>)
    ensures |rows'| == |rows|
  {
    seq(|rows|, p requires 0 <= p < |rows| =>
      if ZkServer in rows[p].validationResultsMap then rows[p]
      else PutIn(rows[p], Failed(ZkServer, TimeoutException)))
  }

  method BackfillTimeouts(table: array<PartitionValidationResults>)
    modifies table
    ensures table[..] == Backfilled(old(table[..]))
  {
    for p := 0 to table.Length
      invariant forall q :: 0 <= q < p ==> table[q] == Backfilled(old(table[..]))[q]
      invariant forall q :: p <= q < table.Length ==> table[q] == old(table[q])
    {
      if ZkServer !in table[p].validationResultsMap {
        table[p] := PutIn(table[p], Failed(ZkServer, TimeoutException));
      }
    }
  }

  // ---- what the handlers do, partition by partition ----

  lemma {:induction false} FailAllAt(rows: seq<PartitionValidationResults>, zk: seq<int>, d: Detail, p: int)
    requires InRange(zk, |rows|) && 0 <= p < |rows|
    ensures FailAll(rows, zk, d)[p] == if p in zk then PutIn(rows[p], Failed(ZkServer, d)) else rows[p]
    decreases |zk|
  {
    if zk != [] {
      var zk' := zk[..|zk| - 1];
      assert zk == zk' + [zk[|zk| - 1]];
      FailAllAt(rows, zk', d, p);
    }
  }

  lemma {:induction false} WriteMatchesAt(rows: seq<PartitionValidationResults>, m: map<int, AssignmentMatch>,
                                          ks: seq<int>, p: int)
    requires forall i :: 0 <= i < |ks| ==> ks[i] in m
    requires InRange(ks, |rows|) && 0 <= p < |rows|
    ensures WriteMatches(rows, m, ks)[p] == if p in ks then PutIn(rows[p], ConsistencyResult(p, m[p])) else rows[p]
    decreases |ks|
  {
    if ks != [] {
      var ks' := ks[..|ks| - 1];
      assert ks == ks' + [ks[|ks| - 1]];
      WriteMatchesAt(rows, m, ks', p);
    }
  }

  /** When every visited id is inside the table, the order of the forEach does not matter: two orders
      that visit the same ids give the same table. */
  lemma InRangeOrderIrrelevant(rows: seq<PartitionValidationResults>, zk: seq<int>, m: map<int, AssignmentMatch>,
                               o1: seq<int>, o2: seq<int>)
    requires InRange(zk, |rows|) && InRange(o1, |rows|)
    requires forall k :: 0 <= k < |o1| ==> o1[k] in m
    requires forall k :: 0 <= k < |o2| ==> o2[k] in m
    requires forall k :: k in o1 <==> k in o2
    ensures ApplyMatches(rows, zk, m, o1) == ApplyMatches(rows, zk, m, o2)
  {
    assert InRange(o2, |rows|) by {
      forall j | 0 <= j < |o2| ensures 0 <= o2[j] < |rows| {
        var x := o2[j];
        assert x in o2;
        assert x in o1;
        var k :| 0 <= k < |o1| && o1[k] == x;
      }
    }
    assert o1[..|o1|] == o1 && o2[..|o2|] == o2;
    forall p | 0 <= p < |rows|
      ensures ApplyMatches(rows, zk, m, o1)[p] == ApplyMatches(rows, zk, m, o2)[p]
    {
      WriteMatchesAt(rows, m, o1, p);
      WriteMatchesAt(rows, m, o2, p);
    }
  }

  /** A server whose request failed: exactly the partitions of its ZooKeeper list fail with the
      exception's message; no other partition's entry changes. */
  lemma FailedRequestVerdict(rows: seq<PartitionValidationResults>, zk: seq<int>, message: string, p: int)
    requires InRange(zk, |rows|) && 0 <= p < |rows|
    ensures HandleResponse(rows, zk, RequestFailed(message))[p]
              == if p in zk then PutIn(rows[p], Failed(ZkServer, ExceptionMessage(message))) else rows[p]
  {
    FailAllAt(rows, zk, ExceptionMessage(message), p);
  }

  /** A server that answered with ids inside the table: every id of either list gets SUCCESS when
      it is IN_BOTH and FAILURE naming its class otherwise; no other partition's entry changes. */
  lemma RespondedVerdict(rows: seq<PartitionValidationResults>, zk: seq<int>, srv: seq<int>, p: int)
    requires InRange(zk, |rows|) && InRange(srv, |rows|) && 0 <= p < |rows|
    ensures HandleResponse(rows, zk, Responded(srv))[p]
              == if p in zk || p in srv then PutIn(rows[p], ConsistencyResult(p, Classify(zk, srv, p))) else rows[p]
  {
    var order := InsertionOrder(zk + srv);
    var i := FirstOutOfRange(order, |rows|);
    InRangeConcat(zk, srv, |rows|);
    assert InRange(order, |rows|) by {
      forall j | 0 <= j < |order| ensures 0 <= order[j] < |rows| {
        assert order[j] in zk + srv;
      }
    }
    assert order[..i] == order;
    WriteMatchesAt(rows, Matches(zk, srv), order, p);
  }

  /** A server that reported an id outside the table: all of its ZooKeeper partitions fail with the
      IndexOutOfBoundsException's message, and partitions in neither list keep their entry. */
  lemma OutOfRangeReportVerdict(rows: seq<PartitionValidationResults>, zk: seq<int>, srv: seq<int>, p: int)
    requires InRange(zk, |rows|) && !InRange(srv, |rows|) && 0 <= p < |rows|
    ensures var rows' := HandleResponse(rows, zk, Responded(srv));
            && (p in zk ==> ZkServer in rows'[p].validationResultsMap &&
                             rows'[p].validationResultsMap[ZkServer].status == Failure &&
                             rows'[p].validationResultsMap[ZkServer].error.IndexOutOfBoundsMessage?)
            && (p !in zk && p !in srv ==> rows'[p] == rows[p])
  {
    var order := InsertionOrder(zk + srv);
    var i := FirstOutOfRange(order, |rows|);
    var j :| 0 <= j < |srv| && !(0 <= srv[j] < |rows|);
    var bad := srv[j];
    assert (zk + srv)[|zk| + j] == bad;
    assert bad in order;
    var k :| 0 <= k < |order| && order[k] == bad;
    assert i <= k < |order|;
    var written := WriteMatches(rows, Matches(zk, srv), order[..i]);
    FailAllAt(written, zk, IndexOutOfBoundsMessage(order[i], |rows|), p);
    WriteMatchesAt(rows, Matches(zk, srv), order[..i], p);
    assert p in order[..i] ==> p in zk + srv;
  }

  /** A server that reports exactly its ZooKeeper list passes for every one of its partitions. */
  lemma ExactReportPasses(rows: seq<PartitionValidationResults>, zk: seq<int>, p: int)
    requires InRange(zk, |rows|) && p in zk
    ensures var m := HandleResponse(rows, zk, Responded(zk))[p].validationResultsMap;
            ZkServer in m && m[ZkServer] == Succeeded(ZkServer)
  {
    RespondedVerdict(rows, zk, zk, p);
  }

  /** Step 2 on one server only ever changes the ZK_SERVER_CONSISTENCY entry. */
  lemma HandleResponseSameExcept(rows: seq<PartitionValidationResults>, zk: seq<int>, response: ServerResponse, p: int)
    requires InRange(zk, |rows|) && 0 <= p < |rows|
    ensures SameExcept(HandleResponse(rows, zk, response)[p], rows[p], ZkServer)
  {
    match response
    case RequestFailed(message) =>
      FailAllAt(rows, zk, ExceptionMessage(message), p);
      PutInSameExcept(rows[p], Failed(ZkServer, ExceptionMessage(message)));
    case Responded(srv) =>
      var order := InsertionOrder(zk + srv);
      var i := FirstOutOfRange(order, |rows|);
      var m := Matches(zk, srv);
      var written := WriteMatches(rows, m, order[..i]);
      WriteMatchesAt(rows, m, order[..i], p);
      if p in order[..i] {
        PutInSameExcept(rows[p], ConsistencyResult(p, m[p]));
      }
      if i < |order| {
        var d := IndexOutOfBoundsMessage(order[i], |rows|);
        FailAllAt(written, zk, d, p);
        PutInSameExcept(written[p], Failed(ZkServer, d));
      }
  }

  lemma {:induction false} ServerPhaseSameExcept(rows: seq<PartitionValidationResults>, servers: seq<ServerAssignment>,
                                                 respond: int -> ServerResponse, p: int)
    requires ZkListsInRange(servers, |rows|) && 0 <= p < |rows|
    ensures SameExcept(ServerPhase(rows, servers, respond)[p], rows[p], ZkServer)
    decreases |servers|
  {
    if servers != [] {
      var servers' := servers[..|servers| - 1];
      var last := servers[|servers| - 1];
      ServerPhaseSameExcept(rows, servers', respond, p);
      HandleResponseSameExcept(ServerPhase(rows, servers', respond), last.partitions, respond(last.serverId), p);
    }
  }

  /** A partition that no server lists in ZooKeeper and no server reports keeps its entry through step 2. */
  lemma {:induction false} ServerPhaseUntouched(rows: seq<PartitionValidationResults>, servers: seq<ServerAssignment>,
                                                respond: int -> ServerResponse, p: int)
    requires ZkListsInRange(servers, |rows|) && 0 <= p < |rows|
    requires forall i :: 0 <= i < |servers| ==> p !in servers[i].partitions
    requires forall i :: 0 <= i < |servers| ==>
               respond(servers[i].serverId).Responded? ==> p !in respond(servers[i].serverId).partitions
    ensures ServerPhase(rows, servers, respond)[p] == rows[p]
    decreases |servers|
  {
    if servers != [] {
      var servers' := servers[..|servers| - 1];
      var last := servers[|servers| - 1];
      assert forall i :: 0 <= i < |servers'| ==> servers'[i] == servers[i];
      ServerPhaseUntouched(rows, servers', respond, p);
      ServerLeavesAlone(ServerPhase(rows, servers', respond), last.partitions, respond(last.serverId), p);
    }
  }

  /** A server that neither lists p in ZooKeeper nor reports it leaves p's entry as it was. */
  lemma ServerLeavesAlone(rows: seq<PartitionValidationResults>, zk: seq<int>, response: ServerResponse, p: int)
    requires InRange(zk, |rows|) && 0 <= p < |rows| && p !in zk
    requires response.Responded? ==> p !in response.partitions
    ensures HandleResponse(rows, zk, response)[p] == rows[p]
  {
    match response
    case RequestFailed(message) =>
      FailedRequestVerdict(rows, zk, message, p);
    case Responded(srv) =>
      if InRange(srv, |rows|) {
        RespondedVerdict(rows, zk, srv, p);
      } else {
        OutOfRangeReportVerdict(rows, zk, srv, p);
      }
  }

  /** The ZK_SERVER_CONSISTENCY result one server's handlers give p: the exception's message if the
      request failed, and otherwise p's class in the diff of the two lists. */
  function SoleVerdict(zk: seq<int>, response: ServerResponse, p: int): ValidationResult
  {
    match response
    case RequestFailed(message) => Failed(ZkServer, ExceptionMessage(message))
    case Responded(srv) => ConsistencyResult(p, Classify(zk, srv, p))
  }

  /** A partition that only server i lists or reports ends step 2 with server i's verdict, whatever
      order the servers come in, provided server i's answer names existing partitions only. */
  lemma {:induction false} SoleServerVerdict(rows: seq<PartitionValidationResults>, servers: seq<ServerAssignment>,
                                             respond: int -> ServerResponse, i: int, p: int)
    requires ZkListsInRange(servers, |rows|) && 0 <= p < |rows| && 0 <= i < |servers|
    requires p in servers[i].partitions ||
             (respond(servers[i].serverId).Responded? && p in respond(servers[i].serverId).partitions)
    requires respond(servers[i].serverId).Responded? ==> InRange(respond(servers[i].serverId).partitions, |rows|)
    requires forall j :: 0 <= j < |servers| && j != i ==> p !in servers[j].partitions
    requires forall j :: 0 <= j < |servers| && j != i ==>
               respond(servers[j].serverId).Responded? ==> p !in respond(servers[j].serverId).partitions
    ensures ServerPhase(rows, servers, respond)[p]
              == PutIn(rows[p], SoleVerdict(servers[i].partitions, respond(servers[i].serverId), p))
    decreases |servers|
  {
    var servers' := servers[..|servers| - 1];
    var last := servers[|servers| - 1];
    assert forall j :: 0 <= j < |servers'| ==> servers'[j] == servers[j];
    var before := ServerPhase(rows, servers', respond);
    if i == |servers| - 1 {
      ServerPhaseUntouched(rows, servers', respond, p);
      match respond(last.serverId)
      case RequestFailed(message) =>
        FailedRequestVerdict(before, last.partitions, message, p);
      case Responded(srv) =>
        RespondedVerdict(before, last.partitions, srv, p);
    } else {
      SoleServerVerdict(rows, servers', respond, i, p);
      ServerLeavesAlone(before, last.partitions, respond(last.serverId), p);
    }
  }

  /** After the back-fill every partition has a ZK_SERVER_CONSISTENCY entry: the one it had, or a
      FAILURE "Timeout exception" where it had none; nothing else changes. */
  lemma BackfillVerdict(rows: seq<PartitionValidationResults>, p: int)
    requires 0 <= p < |rows|
    ensures ZkServer in Backfilled(rows)[p].validationResultsMap
    ensures ZkServer in rows[p].validationResultsMap ==> Backfilled(rows)[p] == rows[p]
    ensures ZkServer !in rows[p].validationResultsMap ==>
              Backfilled(rows)[p].validationResultsMap[ZkServer] == Failed(ZkServer, TimeoutException)
    ensures SameExcept(Backfilled(rows)[p], rows[p], ZkServer)
  {
    if ZkServer !in rows[p].validationResultsMap {
      PutInSameExcept(rows[p], Failed(ZkServer, TimeoutException));
    }
  }
}
