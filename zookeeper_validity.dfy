/** Step 1 of verify: the ZooKeeper partition assignment checked on its own
    (buildZookeeperPartitionAssignmentsValidation). */
module ZookeeperValidity {
  import opened ValidationResults

  const ZkValidity := PartitionAssignmentZkValidity

  /** One server of the ZooKeeper partition assignment: its id and partitionsFor(serverId), in order. */
  datatype ServerAssignment = ServerAssignment(serverId: int, partitions: seq<int>)

  /** One (server, partition) pair met by the nested scan. */
  datatype Claim = Claim(serverId: int, partitionId: int)

  function ClaimsOf(sa: ServerAssignment): (cs: seq<Claim>)
    ensures |cs| == |sa.partitions|
    ensures forall k :: 0 <= k < |cs| ==> cs[k] == Claim(sa.serverId, sa.partitions[k])
  {
    seq(|sa.partitions|, k requires 0 <= k < |sa.partitions| => Claim(sa.serverId, sa.partitions[k]))
  }

  /** The claims in the order the nested loops meet them: servers in order, each server's partitions in order. */
  function Claims(a: seq<ServerAssignment>): seq<Claim>
  {
    if a == [] then [] else Claims(a[..|a| - 1]) + ClaimsOf(a[|a| - 1])
  }

  /** The state of the scan: the partitionToServerMap slots (0 meaning unclaimed), the results table,
      and the exception that stopped the scan, if any. */
  datatype ClaimScan = ClaimScan(owner: seq<int>, rows: seq<PartitionValidationResults>, abort: Option<Abort>)

  /** The result written for a claim by server c.serverId when the partition's slot holds owner. */
  function ClaimResult(owner: int, c: Claim): ValidationResult
  {
    if owner != 0 then Failed(ZkValidity, DuplicateClaim(owner, c.serverId)) else Succeeded(ZkValidity)
  }

  /** One iteration of the inner loop. An out-of-range id makes list.get throw before anything is written. */
  function ClaimStep(s: ClaimScan, c: Claim): (s': ClaimScan)
    requires |s.owner| == |s.rows|
    ensures |s'.owner| == |s'.rows| == |s.rows|
  {
    if s.abort.Some? then s
    else if !(0 <= c.partitionId < |s.owner|) then s.(abort := Some(IndexOutOfBounds(c.partitionId, |s.rows|)))
    else
      var o := s.owner[c.partitionId];
      ClaimScan(if o != 0 then s.owner else s.owner[c.partitionId := c.serverId],
                Put(s.rows, c.partitionId, ClaimResult(o, c)), None)
  }

  function Scan(init: ClaimScan, cs: seq<Claim>): (s: ClaimScan)
    requires |init.owner| == |init.rows|
    ensures |s.owner| == |s.rows| == |init.rows|
  {
    if cs == [] then init else ClaimStep(Scan(init, cs[..|cs| - 1]), cs[|cs| - 1])
  }

  /** The second loop: every partition whose slot is still 0 is marked as not handled by any server. */
  function MarkUnclaimed(owner: seq<int>, rows: seq<PartitionValidationResults>): (rows': seq<PartitionValidationResults>)
    requires |owner| == |rows|
    ensures |rows'| == |rows|
  {
    seq(|rows|, p requires 0 <= p < |rows| =>
      if owner[p] == 0 then PutIn(rows[p], Failed(ZkValidity, NotHandled(p))) else rows[p])
  }

  function InitialScan(rows: seq<PartitionValidationResults>): ClaimScan
  {
    ClaimScan(seq(|rows|, _ => 0), rows, None)
  }

  /** The whole step applied to a table: the scan, then, unless it threw, the sweep for unclaimed partitions. */
  function ZkValidation(rows: seq<PartitionValidationResults>, a: seq<ServerAssignment>): (s: ClaimScan)
    ensures |s.rows| == |rows|
  {
    var s := Scan(InitialScan(rows), Claims(a));
    if s.abort.Some? then s else s.(rows := MarkUnclaimed(s.owner, s.rows))
  }

  method BuildZookeeperPartitionAssignmentsValidation(assignment: seq<ServerAssignment>,
                                                      table: array<PartitionValidationResults>)
    returns (abort: Option<Abort>)
    modifies table
    ensures abort == ZkValidation(old(table[..]), assignment).abort
    ensures table[..] == ZkValidation(old(table[..]), assignment).rows
  {
    var n := table.Length;
    var partitionToServerMap := new int[n](_ => 0);
    ghost var init := InitialScan(table[..]);
    assert init.owner == partitionToServerMap[..];
    for i := 0 to |assignment|
      invariant Scan(init, Claims(assignment[..i])) == ClaimScan(partitionToServerMap[..], table[..], None)
    {
      var serverId := assignment[i].serverId;
      var partitions := assignment[i].partitions;
      ghost var done := Claims(assignment[..i]);
      ghost var inner := ClaimsOf(assignment[i]);
      assert done + inner[..0] == done;
      for j := 0 to |partitions|
        invariant Scan(init, done + inner[..j]) == ClaimScan(partitionToServerMap[..], table[..], None)
      {
        var partitionId := partitions[j];
        if partitionId < 0 || partitionId >= n {
          abort := Some(IndexOutOfBounds(partitionId, n));
          ScanStopsAtClaim(init, assignment, i, j);
          return;
        }
        ghost var before := ClaimScan(partitionToServerMap[..], table[..], None);
        var error: Detail := NoError;
        if partitionToServerMap[partitionId] != 0 {
          error := DuplicateClaim(partitionToServerMap[partitionId], serverId);
        } else {
          partitionToServerMap[partitionId] := serverId;
        }
        var validationResults := ValidationResult(ZkValidity, if error == NoError then Success else Failure, error);
        table[partitionId] := PutIn(table[partitionId], validationResults);
        assert ClaimStep(before, Claim(serverId, partitionId)) == ClaimScan(partitionToServerMap[..], table[..], None);
        ScanSnoc(init, done, inner, j);
      }
      assert inner[..|partitions|] == inner;
      assert assignment[..i + 1][..i] == assignment[..i];
    }
    assert assignment[..|assignment|] == assignment;
    ghost var scanned, owner := table[..], partitionToServerMap[..];
    assert Scan(init, Claims(assignment)) == ClaimScan(owner, scanned, None);
    for partitionId := 0 to n
      invariant partitionToServerMap[..] == owner
      invariant forall p :: 0 <= p < partitionId ==> table[p] == MarkUnclaimed(owner, scanned)[p]
      invariant forall p :: partitionId <= p < n ==> table[p] == scanned[p]
    {
      if partitionToServerMap[partitionId] == 0 {
        table[partitionId] := PutIn(table[partitionId], Failed(ZkValidity, NotHandled(partitionId)));
      }
    }
    assert table[..] == MarkUnclaimed(owner, scanned);
    abort := None;
  }

  // ---- facts about the claim sequence ----

  lemma ScanSnoc(init: ClaimScan, done: seq<Claim>, inner: seq<Claim>, j: nat)
    requires |init.owner| == |init.rows| && j < |inner|
    ensures Scan(init, done + inner[..j + 1]) == ClaimStep(Scan(init, done + inner[..j]), inner[j])
  {
    var cs := done + inner[..j + 1];
    assert cs[..|cs| - 1] == done + inner[..j];
  }

  lemma {:induction false} ClaimsAppend(a: seq<ServerAssignment>, b: seq<ServerAssignment>)
    ensures Claims(a + b) == Claims(a) + Claims(b)
    decreases |b|
  {
    if b == [] {
      assert a + b == a;
    } else {
      var b', last := b[..|b| - 1], b[|b| - 1];
      var ab := a + b;
      assert ab[..|ab| - 1] == a + b';
      assert ab[|ab| - 1] == last;
      assert Claims(ab) == Claims(a + b') + ClaimsOf(last);
      assert Claims(b) == Claims(b') + ClaimsOf(last);
      ClaimsAppend(a, b');
    }
  }

  lemma {:induction false} ScanAbortedStays(init: ClaimScan, cs: seq<Claim>, ds: seq<Claim>)
    requires |init.owner| == |init.rows|
    requires Scan(init, cs).abort.Some?
    ensures Scan(init, cs + ds) == Scan(init, cs)
    decreases |ds|
  {
    if ds == [] {
      assert cs + ds == cs;
    } else {
      assert (cs + ds)[..|cs + ds| - 1] == cs + ds[..|ds| - 1];
      ScanAbortedStays(init, cs, ds[..|ds| - 1]);
    }
  }

  lemma SeqAssoc<T>(w: seq<T>, x: seq<T>, y: seq<T>, z: seq<T>)
    ensures (w + (x + y)) + z == (w + x) + (y + z)
  {
  }

  /** The claims of the servers before i, of server i, and of the servers after it. */
  lemma ClaimsAround(a: seq<ServerAssignment>, i: nat)
    requires i < |a|
    ensures Claims(a) == (Claims(a[..i]) + ClaimsOf(a[i])) + Claims(a[i + 1..])
  {
    var front, back := a[..i + 1], a[i + 1..];
    assert front[..|front| - 1] == a[..i];
    assert front[|front| - 1] == a[i];
    assert Claims(front) == Claims(a[..i]) + ClaimsOf(a[i]);
    assert a == front + back;
    ClaimsAppend(front, back);
  }

  /** The claims, cut just after the j-th partition of the i-th server. */
  lemma ClaimsSplitAt(a: seq<ServerAssignment>, i: nat, j: nat)
    requires i < |a| && j < |a[i].partitions|
    ensures Claims(a) == (Claims(a[..i]) + ClaimsOf(a[i])[..j + 1]) + (ClaimsOf(a[i])[j + 1..] + Claims(a[i + 1..]))
  {
    ClaimsAround(a, i);
    var inner := ClaimsOf(a[i]);
    assert inner == inner[..j + 1] + inner[j + 1..];
    SeqAssoc(Claims(a[..i]), inner[..j + 1], inner[j + 1..], Claims(a[i + 1..]));
  }

  /** When the loops meet an out-of-range id at (i, j), the scan of all claims ends with that exception. */
  lemma ScanStopsAtClaim(init: ClaimScan, a: seq<ServerAssignment>, i: nat, j: nat)
    requires |init.owner| == |init.rows|
    requires i < |a| && j < |a[i].partitions|
    requires Scan(init, Claims(a[..i]) + ClaimsOf(a[i])[..j]).abort.None?
    requires !(0 <= a[i].partitions[j] < |init.rows|)
    ensures Scan(init, Claims(a)).abort == Some(IndexOutOfBounds(a[i].partitions[j], |init.rows|))
    ensures Scan(init, Claims(a)).rows == Scan(init, Claims(a[..i]) + ClaimsOf(a[i])[..j]).rows
  {
    var inner := ClaimsOf(a[i]);
    var done := Claims(a[..i]);
    ScanSnoc(init, done, inner, j);
    assert inner[j] == Claim(a[i].serverId, a[i].partitions[j]);
    var upTo := done + inner[..j + 1];
    assert Scan(init, upTo).abort == Some(IndexOutOfBounds(a[i].partitions[j], |init.rows|));
    ClaimsSplitAt(a, i, j);
    ScanAbortedStays(init, upTo, inner[j + 1..] + Claims(a[i + 1..]));
  }

  /** Every (server, partition) pair of the assignment is one of the scanned claims. */
  lemma {:induction false} ClaimsContain(a: seq<ServerAssignment>, i: nat, j: nat)
    requires i < |a| && j < |a[i].partitions|
    ensures Claim(a[i].serverId, a[i].partitions[j]) in Claims(a)
    decreases |a|
  {
    if i == |a| - 1 {
      assert ClaimsOf(a[i])[j] == Claim(a[i].serverId, a[i].partitions[j]);
    } else {
      var a' := a[..|a| - 1];
      assert a'[i] == a[i];
      ClaimsContain(a', i, j);
    }
  }

  /** The scan throws exactly when some claimed partition id lies outside [0, n). */
  lemma {:induction false} ScanAbortsIffOutOfRange(init: ClaimScan, cs: seq<Claim>)
    requires |init.owner| == |init.rows| && init.abort.None?
    ensures Scan(init, cs).abort.Some? <==> exists k :: 0 <= k < |cs| && !(0 <= cs[k].partitionId < |init.rows|)
    ensures Scan(init, cs).abort.Some? ==>
              exists k :: 0 <= k < |cs| && Scan(init, cs).abort == Some(IndexOutOfBounds(cs[k].partitionId, |init.rows|))
                                        && !(0 <= cs[k].partitionId < |init.rows|)
    decreases |cs|
  {
    if cs != [] {
      var cs' := cs[..|cs| - 1];
      ScanAbortsIffOutOfRange(init, cs');
      if Scan(init, cs').abort.Some? {
        var k :| 0 <= k < |cs'| && Scan(init, cs').abort == Some(IndexOutOfBounds(cs'[k].partitionId, |init.rows|))
                                && !(0 <= cs'[k].partitionId < |init.rows|);
        assert cs[k] == cs'[k];
      } else {
        forall k | 0 <= k < |cs| - 1 ensures 0 <= cs[k].partitionId < |init.rows| {
          assert cs[k] == cs'[k];
        }
      }
    }
  }

  /** Step 1 throws exactly when some server claims a partition id outside [0, n);
      when it does not throw, every claimed id is in range. */
  lemma ZkValidationAbortsIffOutOfRange(rows: seq<PartitionValidationResults>, a: seq<ServerAssignment>)
    ensures ZkValidation(rows, a).abort.Some? <==>
              exists c :: c in Claims(a) && !(0 <= c.partitionId < |rows|)
    ensures ZkValidation(rows, a).abort.Some? ==>
              exists c :: c in Claims(a) && !(0 <= c.partitionId < |rows|)
                          && ZkValidation(rows, a).abort == Some(IndexOutOfBounds(c.partitionId, |rows|))
    ensures ZkValidation(rows, a).abort.None? ==>
              forall i, j :: 0 <= i < |a| && 0 <= j < |a[i].partitions| ==> 0 <= a[i].partitions[j] < |rows|
  {
    var cs := Claims(a);
    ScanAbortsIffOutOfRange(InitialScan(rows), cs);
    if ZkValidation(rows, a).abort.None? {
      forall i, j | 0 <= i < |a| && 0 <= j < |a[i].partitions| ensures 0 <= a[i].partitions[j] < |rows| {
        ClaimsContain(a, i, j);
        var k :| 0 <= k < |cs| && cs[k] == Claim(a[i].serverId, a[i].partitions[j]);
      }
    }
  }

  // ---- the verdict per partition, against an independent description ----

  /** The servers that claim p, in scan order. */
  function Claimants(cs: seq<Claim>, p: int): seq<int>
  {
    if cs == [] then []
    else Claimants(cs[..|cs| - 1], p) + (if cs[|cs| - 1].partitionId == p then [cs[|cs| - 1].serverId] else [])
  }

  /** The first nonzero server id of ss, or 0 when there is none. */
  function FirstNonzero(ss: seq<int>): int
  {
    if ss == [] then 0 else if ss[0] != 0 then ss[0] else FirstNonzero(ss[1..])
  }

  lemma {:induction false} FirstNonzeroSnoc(ss: seq<int>, x: int)
    ensures FirstNonzero(ss + [x]) == if FirstNonzero(ss) != 0 then FirstNonzero(ss) else x
  {
    if ss != [] {
      assert (ss + [x])[1..] == ss[1..] + [x];
      FirstNonzeroSnoc(ss[1..], x);
    }
  }

  lemma {:induction false} FirstNonzeroZero(ss: seq<int>)
    ensures FirstNonzero(ss) == 0 <==> forall k :: 0 <= k < |ss| ==> ss[k] == 0
  {
    if ss != [] {
      FirstNonzeroZero(ss[1..]);
      assert forall k :: 1 <= k < |ss| ==> ss[k] == ss[1..][k - 1];
    }
  }

  /** What ZK_VALIDITY of partition p is when the servers ss claim it in this order: the first
      nonzero claimant keeps the partition; the verdict is that of the last claim, which fails naming
      the kept claimant and the last one unless no nonzero claim came before it; and a partition
      no nonzero server claims is reported as not handled by any server. */
  function ExpectedValidity(ss: seq<int>, p: int): ValidationResult
  {
    if FirstNonzero(ss) == 0 then Failed(ZkValidity, NotHandled(p))
    else if forall k :: 0 <= k < |ss| - 1 ==> ss[k] == 0 then Succeeded(ZkValidity)
    else Failed(ZkValidity, DuplicateClaim(FirstNonzero(ss), ss[|ss| - 1]))
  }

  /** One claim, seen from partition p: a claim of p moves the slot to the first nonzero claimant
      and writes ClaimResult; any other claim leaves p alone. */
  lemma ClaimStepAt(s: ClaimScan, c: Claim, p: int)
    requires |s.owner| == |s.rows| && 0 <= p < |s.rows|
    requires s.abort.None? && ClaimStep(s, c).abort.None?
    ensures c.partitionId == p ==>
              && ClaimStep(s, c).owner[p] == (if s.owner[p] != 0 then s.owner[p] else c.serverId)
              && ClaimStep(s, c).rows[p] == PutIn(s.rows[p], ClaimResult(s.owner[p], c))
    ensures c.partitionId != p ==> ClaimStep(s, c).owner[p] == s.owner[p] && ClaimStep(s, c).rows[p] == s.rows[p]
  {
  }

  /** The scan keeps, for partition p, the first nonzero claimant in the slot and the last
      claim's verdict in the table, and touches nothing else of p's entry. */
  lemma {:induction false} ScanTracksClaimants(rows: seq<PartitionValidationResults>, cs: seq<Claim>, p: int)
    requires 0 <= p < |rows|
    requires Scan(InitialScan(rows), cs).abort.None?
    ensures Scan(InitialScan(rows), cs).owner[p] == FirstNonzero(Claimants(cs, p))
    ensures SameExcept(Scan(InitialScan(rows), cs).rows[p], rows[p], ZkValidity)
    ensures Claimants(cs, p) == [] ==> Scan(InitialScan(rows), cs).rows[p] == rows[p]
    ensures Claimants(cs, p) != [] ==>
              var ss := Claimants(cs, p);
              ZkValidity in Scan(InitialScan(rows), cs).rows[p].validationResultsMap &&
              Scan(InitialScan(rows), cs).rows[p].validationResultsMap[ZkValidity]
                == ClaimResult(FirstNonzero(ss[..|ss| - 1]), Claim(ss[|ss| - 1], p))
    decreases |cs|
  {
    var init := InitialScan(rows);
    if cs == [] {
      assert init.owner[p] == 0;
    } else {
      var cs' := cs[..|cs| - 1];
      var c := cs[|cs| - 1];
      var s := Scan(init, cs');
      assert Scan(init, cs) == ClaimStep(s, c);
      assert s.abort.None?;
      ScanTracksClaimants(rows, cs', p);
      ClaimStepAt(s, c, p);
      var ss' := Claimants(cs', p);
      if c.partitionId == p {
        var ss := ss' + [c.serverId];
        assert Claimants(cs, p) == ss;
        assert ss[..|ss| - 1] == ss';
        FirstNonzeroSnoc(ss', c.serverId);
        PutInSameExcept(s.rows[p], ClaimResult(s.owner[p], c));
      } else {
        assert Claimants(cs, p) == ss';
      }
    }
  }

  /** ZK_VALIDITY of every partition after step 1, when step 1 did not throw. */
  lemma ZkValidityVerdict(rows: seq<PartitionValidationResults>, a: seq<ServerAssignment>, p: int)
    requires 0 <= p < |rows|
    requires ZkValidation(rows, a).abort.None?
    ensures ZkValidity in ZkValidation(rows, a).rows[p].validationResultsMap
    ensures ZkValidation(rows, a).rows[p].validationResultsMap[ZkValidity]
              == ExpectedValidity(Claimants(Claims(a), p), p)
    ensures SameExcept(ZkValidation(rows, a).rows[p], rows[p], ZkValidity)
  {
    var cs := Claims(a);
    var s := Scan(InitialScan(rows), cs);
    ScanTracksClaimants(rows, cs, p);
    var ss := Claimants(cs, p);
    if ss != [] {
      var ss' := ss[..|ss| - 1];
      assert ss == ss' + [ss[|ss| - 1]];
      FirstNonzeroSnoc(ss', ss[|ss| - 1]);
      FirstNonzeroZero(ss');
      assert forall k :: 0 <= k < |ss| - 1 ==> ss[k] == ss'[k];
    }
  }

  /** A partition claimed once, by a nonzero server id, passes. */
  lemma SoleClaimPasses(rows: seq<PartitionValidationResults>, a: seq<ServerAssignment>, p: int, s: int)
    requires 0 <= p < |rows|
    requires ZkValidation(rows, a).abort.None?
    requires Claimants(Claims(a), p) == [s] && s != 0
    ensures var m := ZkValidation(rows, a).rows[p].validationResultsMap;
            ZkValidity in m && m[ZkValidity] == Succeeded(ZkValidity)
  {
    ZkValidityVerdict(rows, a, p);
  }

  /** A partition claimed first by a nonzero server and then again fails, naming the first
      claimant (kept in partitionToServerMap) and the last one. */
  lemma DuplicateClaimFails(rows: seq<PartitionValidationResults>, a: seq<ServerAssignment>, p: int)
    requires 0 <= p < |rows|
    requires ZkValidation(rows, a).abort.None?
    requires var ss := Claimants(Claims(a), p); |ss| >= 2 && ss[0] != 0
    ensures var ss, m := Claimants(Claims(a), p), ZkValidation(rows, a).rows[p].validationResultsMap;
            ZkValidity in m && m[ZkValidity] == Failed(ZkValidity, DuplicateClaim(ss[0], ss[|ss| - 1]))
  {
    ZkValidityVerdict(rows, a, p);
  }

  /** A partition no server claims, or that only server id 0 claims (0 is the "unclaimed" value
      of partitionToServerMap), fails as not handled by any server. */
  lemma UnclaimedFails(rows: seq<PartitionValidationResults>, a: seq<ServerAssignment>, p: int)
    requires 0 <= p < |rows|
    requires ZkValidation(rows, a).abort.None?
    requires var ss := Claimants(Claims(a), p); forall k :: 0 <= k < |ss| ==> ss[k] == 0
    ensures var m := ZkValidation(rows, a).rows[p].validationResultsMap;
            ZkValidity in m && m[ZkValidity] == Failed(ZkValidity, NotHandled(p))
  {
    ZkValidityVerdict(rows, a, p);
    FirstNonzeroZero(Claimants(Claims(a), p));
  }

  /** Step 1 sets the status from the text ("".equals(error)), while the model tests the detail:
      for the two details step 1 records, the text is empty exactly when there is no error. */
  lemma ZkStatusFromText(d: Detail)
    requires d == NoError || d.DuplicateClaim?
    ensures ErrorText(d) == "" <==> d == NoError
    ensures (if ErrorText(d) == "" then Success else Failure) == (if d == NoError then Success else Failure)
  {
  }
}
