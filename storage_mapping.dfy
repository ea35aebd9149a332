/** The two partition-to-storage-node maps step 4 of verify compares: the replica assignment
    recorded in ZooKeeper, turned around to list the replicas of each partition, and what the
    storage nodes themselves report (getZkPartitionToStorageNodeMapping, getStorageConnections,
    getStoragePartitionMapping and getPartitionPerStorageNode). */
module StorageMapping {
  import opened ValidationResults

  // ---- the ZooKeeper side ----

  /** One entry of the replica assignments (a connection string and its partition list), in the
      order forEach visits them. */
  datatype ReplicaEntry = ReplicaEntry(connection: string, partitions: seq<int>)

  function Repeat(c: string, k: nat): (s: seq<string>)
    ensures |s| == k
    ensures forall i :: 0 <= i < k ==> s[i] == c
  {
    seq(k, _ => c)
  }

  /** The replicas of p: each entry's connection, once for every time p occurs in its list. */
  function ReplicasOf(entries: seq<ReplicaEntry>, p: int): seq<string>
  {
    if entries == [] then []
    else
      var last := entries[|entries| - 1];
      ReplicasOf(entries[..|entries| - 1], p) + Repeat(last.connection, multiset(last.partitions)[p])
  }

  predicate DistinctConnections(entries: seq<ReplicaEntry>)
  {
    forall i, j :: 0 <= i < j < |entries| ==> entries[i].connection != entries[j].connection
  }

  predicate PartitionsInRange(ps: seq<int>, n: int)
  {
    forall j :: 0 <= j < |ps| ==> 0 <= ps[j] < n
  }

  predicate ClaimsInRange(entries: seq<ReplicaEntry>, n: int)
  {
    forall i :: 0 <= i < |entries| ==> PartitionsInRange(entries[i].partitions, n)
  }

  /** getZkPartitionToStorageNodeMapping. A partition id outside [0, numPartitions) finds no list,
      and the add on null is a NullPointerException that ends the run. */
  method GetZkPartitionToStorageNodeMapping(numPartitions: nat, replicas: seq<ReplicaEntry>)
    returns (r: Result<map<int, seq<string>>>)
    ensures r.Err? <==> !ClaimsInRange(replicas, numPartitions)
    ensures r.Err? ==> r.abort == NullPointer
    ensures r.Ok? ==> forall p :: p in r.value <==> 0 <= p < numPartitions
    ensures r.Ok? ==> forall p :: 0 <= p < numPartitions ==> r.value[p] == ReplicasOf(replicas, p)
  {
    var zkPartitionToReplicaMap: map<int, seq<string>> := map[];
    for id := 0 to numPartitions
      invariant forall p :: p in zkPartitionToReplicaMap <==> 0 <= p < id
      invariant forall p :: p in zkPartitionToReplicaMap ==> zkPartitionToReplicaMap[p] == []
    {
      zkPartitionToReplicaMap := zkPartitionToReplicaMap[id := []];
    }
    for i := 0 to |replicas|
      invariant ClaimsInRange(replicas[..i], numPartitions)
      invariant forall p :: p in zkPartitionToReplicaMap <==> 0 <= p < numPartitions
      invariant forall p :: 0 <= p < numPartitions ==> zkPartitionToReplicaMap[p] == ReplicasOf(replicas[..i], p)
    {
      var added := AddConnection(zkPartitionToReplicaMap, numPartitions, replicas[i].connection, replicas[i].partitions);
      if added.None? {
        assert !ClaimsInRange(replicas, numPartitions);
        return Err(NullPointer);
      }
      forall p | 0 <= p < numPartitions
        ensures added.value[p] == ReplicasOf(replicas[..i + 1], p)
      {
        ReplicasOfSnoc(replicas, i, p);
      }
      zkPartitionToReplicaMap := added.value;
      ClaimsInRangeSnoc(replicas, i, numPartitions);
    }
    assert replicas[..|replicas|] == replicas;
    r := Ok(zkPartitionToReplicaMap);
  }

  /** The body of the forEach for one connection: append it to the list of every partition in its
      list, or find no list for an id outside [0, numPartitions). */
  method AddConnection(zkPartitionToReplicaMap: map<int, seq<string>>, numPartitions: nat,
                       replicaConnection: string, partitionList: seq<int>)
    returns (r: Option<map<int, seq<string>>>)
    requires forall p :: p in zkPartitionToReplicaMap <==> 0 <= p < numPartitions
    ensures r.None? <==> !PartitionsInRange(partitionList, numPartitions)
    ensures r.Some? ==> forall p :: p in r.value <==> 0 <= p < numPartitions
    ensures r.Some? ==> forall p :: 0 <= p < numPartitions ==>
              r.value[p] == zkPartitionToReplicaMap[p] + Repeat(replicaConnection, multiset(partitionList)[p])
  {
    var m := zkPartitionToReplicaMap;
    assert partitionList[..0] == [];
    for j := 0 to |partitionList|
      invariant PartitionsInRange(partitionList[..j], numPartitions)
      invariant forall p :: p in m <==> 0 <= p < numPartitions
      invariant forall p :: 0 <= p < numPartitions ==>
                  m[p] == zkPartitionToReplicaMap[p] + Repeat(replicaConnection, multiset(partitionList[..j])[p])
    {
      var partitionId := partitionList[j];
      if !(0 <= partitionId < numPartitions) {
        return None;
      }
      m := m[partitionId := m[partitionId] + [replicaConnection]];
      forall p | 0 <= p < numPartitions
        ensures m[p] == zkPartitionToReplicaMap[p] + Repeat(replicaConnection, multiset(partitionList[..j + 1])[p])
      {
        PrefixCountSnoc(partitionList, j, p);
        RepeatSnoc(replicaConnection, multiset(partitionList[..j])[p]);
      }
    }
    assert partitionList[..|partitionList|] == partitionList;
    r := Some(m);
  }

  lemma PrefixCountSnoc(ps: seq<int>, j: int, p: int)
    requires 0 <= j < |ps|
    ensures multiset(ps[..j + 1])[p] == multiset(ps[..j])[p] + if ps[j] == p then 1 else 0
  {
    assert ps[..j + 1] == ps[..j] + [ps[j]];
  }

  lemma RepeatSnoc(c: string, k: nat)
    ensures Repeat(c, k + 1) == Repeat(c, k) + [c]
  {
  }

  lemma ReplicasOfSnoc(entries: seq<ReplicaEntry>, i: int, p: int)
    requires 0 <= i < |entries|
    ensures ReplicasOf(entries[..i + 1], p)
              == ReplicasOf(entries[..i], p) + Repeat(entries[i].connection, multiset(entries[i].partitions)[p])
  {
    assert entries[..i + 1][..i] == entries[..i];
  }

  lemma ClaimsInRangeSnoc(entries: seq<ReplicaEntry>, i: int, n: int)
    requires 0 <= i < |entries| && ClaimsInRange(entries[..i], n)
    requires PartitionsInRange(entries[i].partitions, n)
    ensures ClaimsInRange(entries[..i + 1], n)
  {
    assert forall i' :: 0 <= i' < i ==> entries[..i + 1][i'] == entries[..i][i'];
  }

  /** The replicas listed for p are exactly the connections whose list holds p. */
  lemma {:induction false} ReplicasOfMembers(entries: seq<ReplicaEntry>, p: int, c: string)
    ensures c in ReplicasOf(entries, p) <==>
              exists i :: 0 <= i < |entries| && entries[i].connection == c && p in entries[i].partitions
    decreases |entries|
  {
    if entries != [] {
      var init := entries[..|entries| - 1];
      var last := entries[|entries| - 1];
      ReplicasOfMembers(init, p, c);
      assert forall i :: 0 <= i < |init| ==> init[i] == entries[i];
      var k := multiset(last.partitions)[p];
      assert k > 0 ==> Repeat(last.connection, k)[0] == last.connection;
      assert c in Repeat(last.connection, k) <==> c == last.connection && k > 0;
    }
  }

  /** With distinct connection strings, a connection appears in p's replica list exactly as often as
      p appears in that connection's partition list. */
  lemma {:induction false} ReplicasOfCount(entries: seq<ReplicaEntry>, p: int, i: int)
    requires DistinctConnections(entries) && 0 <= i < |entries|
    ensures multiset(ReplicasOf(entries, p))[entries[i].connection] == multiset(entries[i].partitions)[p]
    decreases |entries|
  {
    var init := entries[..|entries| - 1];
    var last := entries[|entries| - 1];
    var c := entries[i].connection;
    var k := multiset(last.partitions)[p];
    if i == |entries| - 1 {
      ReplicasOfMembers(init, p, c);
      assert c !in ReplicasOf(init, p);
    } else {
      assert init[i] == entries[i];
      ReplicasOfCount(init, p, i);
    }
    assert multiset(Repeat(last.connection, k))[c] == if c == last.connection then k else 0 by {
      RepeatCount(last.connection, k, c);
    }
  }

  lemma {:induction false} RepeatCount(c: string, k: nat, d: string)
    ensures multiset(Repeat(c, k))[d] == if d == c then k else 0
  {
    if k > 0 {
      assert Repeat(c, k) == Repeat(c, k - 1) + [c];
      RepeatCount(c, k - 1, d);
    }
  }

  // ---- the storage side ----

  /** getStorageConnections: the connection map of the store's metadata, or an empty map when
      there is no connection metadata. */
  function StorageConnections(connectionMetadata: Option<map<string, int>>): (m: map<string, int>)
    ensures connectionMetadata.None? ==> m == map[]
    ensures connectionMetadata.Some? ==> m == connectionMetadata.value
  {
    match connectionMetadata
    case None => map[]
    case Some(connections) => connections
  }

  /** How the storage admin call to one node ends. */
  datatype NodeOutcome =
    | Reported(statuses: map<int, bool>)
    | ConnectFailed
    | QueryFailed(message: string)

  /** The element before the first ':' (the first element of split(":")). */
  function PrefixBeforeColon(s: string): (h: string)
    ensures h <= s && ':' !in h
    ensures |h| < |s| ==> s[|h|] == ':'
  {
    if s == [] || s[0] == ':' then [] else [s[0]] + PrefixBeforeColon(s[1..])
  }

  predicate OnlyColons(s: string)
  {
    |s| > 0 && forall i :: 0 <= i < |s| ==> s[i] == ':'
  }

  /** split(":")[0]. A non-empty key made only of colons splits into no element at all, and
      taking element 0 throws. */
  function HostOf(key: string): Option<string>
  {
    if OnlyColons(key) then None else Some(PrefixBeforeColon(key))
  }

  /** getPartitionPerStorageNode for one connection: a failed connect gives an empty map; any other
      failure escapes and ends the run. */
  function Answer(query: (string, int) -> NodeOutcome, key: string, port: int): (r: Result<map<int, bool>>)
    ensures r.Err? <==> HostOf(key).None? || query(HostOf(key).value, port).QueryFailed?
    ensures r.Err? && HostOf(key).Some? ==> r.abort == StorageQueryFailed(query(HostOf(key).value, port).message)
    ensures r.Ok? ==> HostOf(key).Some?
    ensures r.Ok? ==> r.value == (match query(HostOf(key).value, port)
                                  case Reported(statuses) => statuses
                                  case _ => map[])
  {
    match HostOf(key)
    case None => Err(IndexOutOfBounds(0, 0))
    case Some(host) =>
      match query(host, port)
      case Reported(statuses) => Ok(statuses)
      case ConnectFailed => Ok(map[])
      case QueryFailed(message) => Err(StorageQueryFailed(message))
  }

  /** A node whose answer does not stop the run: it answered, and only with ids of existing partitions. */
  predicate NodeFine(query: (string, int) -> NodeOutcome, key: string, port: int, n: int)
  {
    var a := Answer(query, key, port);
    a.Ok? && forall pid :: pid in a.value ==> 0 <= pid < n
  }

  /** What a node that is not fine throws: its own failure, or the NullPointerException of the put
      for a partition id that has no map. */
  predicate NodeAbort(query: (string, int) -> NodeOutcome, key: string, port: int, n: int, abort: Abort)
  {
    var a := Answer(query, key, port);
    && !NodeFine(query, key, port, n)
    && (a.Err? ==> abort == a.abort)
    && (a.Ok? ==> abort == NullPointer)
  }

  /** The read-write status each storage node reports for p, keyed by connection string. */
  function StatusMapOf(conns: map<string, int>, query: (string, int) -> NodeOutcome, p: int): map<string, bool>
  {
    map c | c in conns && Answer(query, c, conns[c]).Ok? && p in Answer(query, c, conns[c]).value
      :: Answer(query, c, conns[c]).value[p]
  }

  function StatusMapOver(done: set<string>, conns: map<string, int>, query: (string, int) -> NodeOutcome, p: int)
    : map<string, bool>
  {
    map c | c in done && c in conns && Answer(query, c, conns[c]).Ok? && p in Answer(query, c, conns[c]).value
      :: Answer(query, c, conns[c]).value[p]
  }

  /** getStoragePartitionMapping: for every partition, the status each node reports for it. A node
      reporting a partition id outside [0, numPartitions) makes get return null and the put throw. */
  method GetStoragePartitionMapping(storageConnections: map<string, int>, query: (string, int) -> NodeOutcome,
                                    numPartitions: nat)
    returns (r: Result<map<int, map<string, bool>>>)
    ensures r.Ok? <==> forall c :: c in storageConnections ==> NodeFine(query, c, storageConnections[c], numPartitions)
    ensures r.Err? ==> exists c :: c in storageConnections && NodeAbort(query, c, storageConnections[c], numPartitions, r.abort)
    ensures r.Ok? ==> forall p :: p in r.value <==> 0 <= p < numPartitions
    ensures r.Ok? ==> forall p :: 0 <= p < numPartitions ==> r.value[p] == StatusMapOf(storageConnections, query, p)
  {
    var partitionToStorageAssignmentMap: map<int, map<string, bool>> := map[];
    for id := 0 to numPartitions
      invariant forall p :: p in partitionToStorageAssignmentMap <==> 0 <= p < id
      invariant forall p :: p in partitionToStorageAssignmentMap ==> partitionToStorageAssignmentMap[p] == map[]
    {
      partitionToStorageAssignmentMap := partitionToStorageAssignmentMap[id := map[]];
    }
    var remaining := storageConnections.Keys;
    ghost var done: set<string> := {};
    while remaining != {}
      invariant remaining + done == storageConnections.Keys && remaining !! done
      invariant forall c :: c in done ==> NodeFine(query, c, storageConnections[c], numPartitions)
      invariant forall p :: p in partitionToStorageAssignmentMap <==> 0 <= p < numPartitions
      invariant forall p :: 0 <= p < numPartitions ==>
                  partitionToStorageAssignmentMap[p] == StatusMapOver(done, storageConnections, query, p)
      decreases remaining
    {
      var key :| key in remaining;
      var answer := Answer(query, key, storageConnections[key]);
      if answer.Err? {
        return Err(answer.abort);
      }
      var added := AddNodeStatuses(partitionToStorageAssignmentMap, numPartitions, key, answer.value);
      if added.None? {
        return Err(NullPointer);
      }
      partitionToStorageAssignmentMap := added.value;
      forall p | 0 <= p < numPartitions
        ensures partitionToStorageAssignmentMap[p] == StatusMapOver(done + {key}, storageConnections, query, p)
      {
        StatusMapOverAdd(done, key, storageConnections, query, p);
      }
      remaining := remaining - {key};
      done := done + {key};
    }
    forall p | 0 <= p < numPartitions
      ensures StatusMapOver(done, storageConnections, query, p) == StatusMapOf(storageConnections, query, p)
    {
    }
    r := Ok(partitionToStorageAssignmentMap);
  }

  /** The forEach over one node's status map: record the node's status under each partition it
      reports, or find no map for an id outside [0, numPartitions). */
  method AddNodeStatuses(partitionToStorageAssignmentMap: map<int, map<string, bool>>, numPartitions: nat,
                         key: string, partitionStatusMap: map<int, bool>)
    returns (r: Option<map<int, map<string, bool>>>)
    requires forall p :: p in partitionToStorageAssignmentMap <==> 0 <= p < numPartitions
    ensures r.None? <==> exists pid :: pid in partitionStatusMap && !(0 <= pid < numPartitions)
    ensures r.Some? ==> forall p :: p in r.value <==> 0 <= p < numPartitions
    ensures r.Some? ==> forall p :: 0 <= p < numPartitions ==>
              r.value[p] == if p in partitionStatusMap
                            then partitionToStorageAssignmentMap[p][key := partitionStatusMap[p]]
                            else partitionToStorageAssignmentMap[p]
  {
    var m := partitionToStorageAssignmentMap;
    var pending := partitionStatusMap.Keys;
    while pending != {}
      invariant pending <= partitionStatusMap.Keys
      invariant forall pid :: pid in partitionStatusMap && pid !in pending ==> 0 <= pid < numPartitions
      invariant forall p :: p in m <==> 0 <= p < numPartitions
      invariant forall p :: 0 <= p < numPartitions ==>
                  m[p] == if p in partitionStatusMap && p !in pending
                          then partitionToStorageAssignmentMap[p][key := partitionStatusMap[p]]
                          else partitionToStorageAssignmentMap[p]
      decreases pending
    {
      var partitionId :| partitionId in pending;
      if !(0 <= partitionId < numPartitions) {
        return None;
      }
      m := m[partitionId := m[partitionId][key := partitionStatusMap[partitionId]]];
      pending := pending - {partitionId};
    }
    r := Some(m);
  }

  lemma StatusMapOverAdd(done: set<string>, key: string, conns: map<string, int>,
                         query: (string, int) -> NodeOutcome, p: int)
    requires key in conns && key !in done && Answer(query, key, conns[key]).Ok?
    ensures var a := Answer(query, key, conns[key]).value;
            StatusMapOver(done + {key}, conns, query, p)
              == if p in a then StatusMapOver(done, conns, query, p)[key := a[p]] else StatusMapOver(done, conns, query, p)
  {
  }

  /** A node whose connect failed reports nothing: it appears in no partition's status map. */
  lemma ConnectFailedContributesNothing(conns: map<string, int>, query: (string, int) -> NodeOutcome, c: string, p: int)
    requires c in conns
    requires HostOf(c).Some? && query(HostOf(c).value, conns[c]) == ConnectFailed
    ensures c !in StatusMapOf(conns, query, p)
  {
  }

  /** The host a connection string names: the part before its first ':'. */
  lemma HostOfHostPort(host: string, port: string)
    requires |host| > 0 && ':' !in host
    ensures HostOf(host + ":" + port) == Some(host)
  {
    var s := host + ":" + port;
    assert s[|host|] == ':';
    assert s[0] == host[0];
    assert s == host + (":" + port);
    HostPrefix(host, ":" + port);
  }

  lemma {:induction false} HostPrefix(host: string, rest: string)
    requires ':' !in host && |rest| > 0 && rest[0] == ':'
    ensures PrefixBeforeColon(host + rest) == host
    decreases |host|
  {
    if host != [] {
      assert (host + rest)[1..] == host[1..] + rest;
      HostPrefix(host[1..], rest);
    } else {
      assert host + rest == rest;
    }
  }
}
