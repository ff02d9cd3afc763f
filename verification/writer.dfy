/** The edge writers `do_insert_samepassword` and `do_insert_samelocal_admin`
    (bloodhound-steroids.py lines 14-31 and 111-129) and the loops that call them
    once per group member. The database is abstracted as the sequence of outcomes
    of the writes, in the order they are issued: None when the write's `try`
    block raised (the query `print` of `do_insert_samelocal_admin`, `session.run`,
    `result.value()` or `len`; when the `print` raises, the write is never sent),
    Some(k) when the result held k records. */
module EdgeWriter {
  import opened Wrappers
  import opened Pairs

  type Outcome = Option<nat>

  /** No write succeeded. */
  predicate NoSuccess(outcomes: seq<Outcome>) {
    forall k :: 0 <= k < |outcomes| ==> outcomes[k].None?
  }

  /** Write `j` is the last one that succeeded. */
  predicate LastSuccessAt(outcomes: seq<Outcome>, j: int) {
    && 0 <= j < |outcomes|
    && outcomes[j].Some?
    && forall k :: j < k < |outcomes| ==> outcomes[k].None?
  }

  /** The counter a writer returns: the record count of the last successful
      write, or 0 when none succeeded (a failure leaves the counter alone, a
      success overwrites it). */
  function LastSuccess(outcomes: seq<Outcome>): (n: nat)
    ensures NoSuccess(outcomes) ==> n == 0
    ensures !NoSuccess(outcomes) ==> Some(n) in outcomes
    decreases |outcomes|
  {
    if outcomes == [] then 0
    else
      var init := outcomes[..|outcomes| - 1];
      var last := outcomes[|outcomes| - 1];
      assert outcomes == init + [last];
      if last.Some? then last.value else LastSuccess(init)
  }

  /** When some write succeeded, the count is the record count of the last
      successful one. */
  lemma {:induction false} LastSuccessIsLast(outcomes: seq<Outcome>)
    requires !NoSuccess(outcomes)
    ensures exists j :: LastSuccessAt(outcomes, j) && outcomes[j] == Some(LastSuccess(outcomes))
    decreases |outcomes|
  {
    var init := outcomes[..|outcomes| - 1];
    if outcomes[|outcomes| - 1].Some? {
      assert LastSuccessAt(outcomes, |init|);
    } else {
      var k :| 0 <= k < |outcomes| && outcomes[k].Some?;
      assert init[k] == outcomes[k];
      LastSuccessIsLast(init);
      var j :| LastSuccessAt(init, j) && init[j] == Some(LastSuccess(init));
      assert LastSuccessAt(outcomes, j);
    }
  }

  /** The total record count of all successful writes: what a running sum would
      report. */
  function SumSuccess(outcomes: seq<Outcome>): nat
    decreases |outcomes|
  {
    if outcomes == [] then 0
    else SumSuccess(outcomes[..|outcomes| - 1]) + (match outcomes[|outcomes| - 1] case Some(k) => k case None => 0)
  }

  /** The writer's count never exceeds what a sum would report. */
  lemma {:induction false} LastSuccessAtMostSum(outcomes: seq<Outcome>)
    ensures LastSuccess(outcomes) <= SumSuccess(outcomes)
    decreases |outcomes|
  {
    if outcomes != [] {
      LastSuccessAtMostSum(outcomes[..|outcomes| - 1]);
    }
  }

  /** The counter is overwritten, not summed: two successful writes of one record
      each report 1, not 2. */
  lemma CounterIsNotASum()
    ensures LastSuccess([Some(1), Some(1)]) == 1
    ensures SumSuccess([Some(1), Some(1)]) == 2
  {
    assert [Some(1), Some(1)][..1] == [Some(1)];
    assert [Some(1)][..0] == [];
  }

  /** A failed write leaves the counter as it was; a successful one overwrites
      it with its own record count. */
  lemma LastSuccessStep(outcomes: seq<Outcome>, o: Outcome)
    ensures LastSuccess(outcomes + [o]) == match o case None => LastSuccess(outcomes) case Some(k) => k
  {
    assert (outcomes + [o])[..|outcomes|] == outcomes;
  }

  /** One writer call: one write per peer, in peer order, each pairing the
      subject with that peer; returns the count of the last successful write. */
  method InsertEdges(subject: string, peers: seq<string>, outcomes: seq<Outcome>)
    returns (count: nat, writes: seq<Write>)
    requires |outcomes| == |peers|
    ensures writes == CallWrites(Call(subject, peers))
    ensures count == LastSuccess(outcomes)
  {
    count := 0;
    writes := [];
    for i := 0 to |peers|
      invariant |writes| == i
      invariant forall j :: 0 <= j < i ==> writes[j] == Write(subject, peers[j])
      invariant count == LastSuccess(outcomes[..i])
    {
      writes := writes + [Write(subject, peers[i])];
      assert outcomes[..i + 1] == outcomes[..i] + [outcomes[i]];
      LastSuccessStep(outcomes[..i], outcomes[i]);
      match outcomes[i]
      case Some(k) =>
        count := k;
      case None =>
    }
    forall j | 0 <= j < |peers|
      ensures writes[j] == CallWrites(Call(subject, peers))[j]
    {
      CallWriteAt(Call(subject, peers), j);
    }
    assert outcomes[..|peers|] == outcomes;
  }

  /** The caller's `updated` total: the sum of what each writer call returns,
      each call consuming the outcomes of its own writes in turn. */
  function Updated(calls: seq<Call>, outcomes: seq<Outcome>): (u: nat)
    requires |outcomes| == PeerTotal(calls)
    ensures NoSuccess(outcomes) ==> u == 0
    decreases |calls|
  {
    if calls == [] then 0
    else
      var n := |calls[0].peers|;
      assert NoSuccess(outcomes) ==> NoSuccess(outcomes[..n]) && NoSuccess(outcomes[n..]) by {
        if NoSuccess(outcomes) {
          forall k | 0 <= k < |outcomes[n..]|
            ensures outcomes[n..][k].None?
          {
            assert outcomes[n..][k] == outcomes[n + k];
          }
          forall k | 0 <= k < n
            ensures outcomes[..n][k].None?
          {
            assert outcomes[..n][k] == outcomes[k];
          }
        }
      }
      LastSuccess(outcomes[..n]) + Updated(calls[1..], outcomes[n..])
  }

  /** The caller's total is bounded by the sum over all writes. */
  lemma {:induction false} UpdatedAtMostSum(calls: seq<Call>, outcomes: seq<Outcome>)
    requires |outcomes| == PeerTotal(calls)
    ensures Updated(calls, outcomes) <= SumSuccess(outcomes)
    decreases |calls|
  {
    if calls != [] {
      var n := |calls[0].peers|;
      UpdatedAtMostSum(calls[1..], outcomes[n..]);
      LastSuccessAtMostSum(outcomes[..n]);
      SumSuccessConcat(outcomes[..n], outcomes[n..]);
      assert outcomes[..n] + outcomes[n..] == outcomes;
    }
  }

  lemma {:induction false} SumSuccessConcat(a: seq<Outcome>, b: seq<Outcome>)
    ensures SumSuccess(a + b) == SumSuccess(a) + SumSuccess(b)
    decreases |b|
  {
    if b == [] {
      assert a + b == a;
    } else {
      assert (a + b)[..|a + b| - 1] == a + b[..|b| - 1];
      SumSuccessConcat(a, b[..|b| - 1]);
    }
  }

  /** The caller's loop: call the writer once per member, each call consuming the
      outcomes of its own writes, and add up what each call returns. */
  method RunCalls(calls: seq<Call>, outcomes: seq<Outcome>) returns (updated: nat, writes: seq<Write>)
    requires |outcomes| == PeerTotal(calls)
    ensures updated == Updated(calls, outcomes)
    ensures writes == Writes(calls)
  {
    updated := 0;
    writes := [];
    var rest, left := calls, outcomes;
    while rest != []
      invariant |left| == PeerTotal(rest)
      invariant updated + Updated(rest, left) == Updated(calls, outcomes)
      invariant writes + Writes(rest) == Writes(calls)
      decreases |rest|
    {
      var n := |rest[0].peers|;
      var count, ws := InsertEdges(rest[0].subject, rest[0].peers, left[..n]);
      updated := updated + count;
      writes := writes + ws;
      rest, left := rest[1..], left[n..];
    }
  }
}
