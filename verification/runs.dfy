/** The two modules end to end, minus the database: from file contents to the
    writes attempted and the "Updated" total printed (bloodhound-steroids.py,
    do_samepass_user_file, do_samepass_nt_file and do_samelocaladmin). */
module Runs {
  import opened Wrappers
  import opened Seqs
  import opened IdentifierFiles
  import opened NtDump
  import opened Pairs
  import opened EdgeWriter

  /** What a module run does: the writes it attempts, in order, and the total it
      reports. */
  datatype Run = Run(writes: seq<Write>, updated: nat)

  /** Lists with the same members admit the same distinct pairs. */
  lemma DistinctPairSameMembers(scheme: Scheme, xs: seq<string>, ys: seq<string>, domain: string, w: Write)
    requires forall x :: x in xs <==> x in ys
    ensures DistinctPair(scheme, xs, domain, w) <==> DistinctPair(scheme, ys, domain, w)
  {
    if DistinctPair(scheme, xs, domain, w) {
      var a, b :| a in xs && b in xs && a != b && w == Write(Qualify(scheme, a, domain), Qualify(scheme, b, domain));
      assert a in ys && b in ys;
    }
    if DistinctPair(scheme, ys, domain, w) {
      var a, b :| a in ys && b in ys && a != b && w == Write(Qualify(scheme, a, domain), Qualify(scheme, b, domain));
      assert a in xs && b in xs;
    }
  }

  /** The list-file path (user files for `samepass` with `name@domain`, computer
      files for `samelocaladmin` with `name.domain`): the identifiers of all
      files, deduplicated into `order` (the iteration order of `list(set(...))`,
      which Python leaves unspecified), each paired with every other one. */
  function ListRun(scheme: Scheme, files: seq<FileLines>, domain: string, order: seq<string>, outcomes: seq<Outcome>): (r: Run)
    requires IsEnumeration(order, Collect(files))
    requires |outcomes| == |order| * (|order| - 1)
    ensures |r.writes| == |Elems(Collect(files))| * (|Elems(Collect(files))| - 1)
    ensures forall w :: w in r.writes <==> DistinctPair(scheme, Collect(files), domain, w)
    ensures forall w :: w in r.writes ==> w.source != w.target
    ensures r.updated <= SumSuccess(outcomes)
    ensures NoSuccess(outcomes) ==> r.updated == 0
  {
    var calls := GroupCalls(scheme, order, domain);
    AttemptCount(scheme, order, domain);
    EnumerationLength(order, Collect(files));
    NoSelfWrites(scheme, order, domain);
    UpdatedAtMostSum(calls, outcomes);
    assert forall w :: w in Writes(calls) <==> DistinctPair(scheme, Collect(files), domain, w) by {
      forall w
        ensures w in Writes(calls) <==> DistinctPair(scheme, Collect(files), domain, w)
      {
        GroupWritesExactly(scheme, order, domain, w);
        DistinctPairSameMembers(scheme, order, Collect(files), domain, w);
      }
    }
    Run(Writes(calls), Updated(calls, outcomes))
  }

  /** Number of member occurrences over all groups. */
  function Occurrences(groups: seq<seq<string>>): nat
    decreases |groups|
  {
    if groups == [] then 0 else |groups[0]| + Occurrences(groups[1..])
  }

  /** Lines 94-97: one call per member of every emitted group, group after group. */
  function DumpCalls(groups: seq<seq<string>>, domain: string): (calls: seq<Call>)
    ensures |calls| == Occurrences(groups)
    decreases |groups|
  {
    if groups == [] then []
    else GroupCalls(UserName, groups[0], domain) + DumpCalls(groups[1..], domain)
  }

  /** A dump write is attempted exactly when it pairs two different members of
      one emitted group. */
  lemma {:induction false} DumpCallsWrites(groups: seq<seq<string>>, domain: string, w: Write)
    ensures w in Writes(DumpCalls(groups, domain)) <==>
      exists k :: 0 <= k < |groups| && w in Writes(GroupCalls(UserName, groups[k], domain))
    decreases |groups|
  {
    if groups != [] {
      var rest := groups[1..];
      WritesConcatMembers(GroupCalls(UserName, groups[0], domain), DumpCalls(rest, domain), w);
      DumpCallsWrites(rest, domain, w);
      if k :| 0 <= k < |groups| && w in Writes(GroupCalls(UserName, groups[k], domain)) {
        if k > 0 {
          assert rest[k - 1] == groups[k];
        }
      }
      if k :| 0 <= k < |rest| && w in Writes(GroupCalls(UserName, rest[k], domain)) {
        assert groups[k + 1] == rest[k];
      }
    }
  }

  /** No dump write has the same node-name string at both ends. */
  lemma DumpNoSelfWrites(groups: seq<seq<string>>, domain: string)
    ensures forall w :: w in Writes(DumpCalls(groups, domain)) ==> w.source != w.target
  {
    forall w | w in Writes(DumpCalls(groups, domain))
      ensures w.source != w.target
    {
      DumpCallsWrites(groups, domain, w);
      var k :| 0 <= k < |groups| && w in Writes(GroupCalls(UserName, groups[k], domain));
      NoSelfWrites(UserName, groups[k], domain);
    }
  }

  /** `w` joins two different users whose entries carry the same hash. */
  ghost predicate SharedHash(es: seq<Entry>, domain: string, w: Write) {
    exists h, a, b :: a in UsersWithHash(es, h) && b in UsersWithHash(es, h) && a != b &&
      w == Write(Qualify(UserName, a, domain), Qualify(UserName, b, domain))
  }

  /** A list holding two different strings has more than one member. */
  lemma TwoDistinctMembers(us: seq<string>, a: string, b: string)
    requires a in us && b in us && a != b
    ensures |us| > 1
  {
  }

  /** Every dump write joins two different usernames sharing a hash. */
  lemma DumpWritesSound(es: seq<Entry>, domain: string, w: Write)
    requires w in Writes(DumpCalls(Emit(Group(es)), domain))
    ensures SharedHash(es, domain, w)
  {
    var groups := Emit(Group(es));
    DumpCallsWrites(groups, domain, w);
    var k :| 0 <= k < |groups| && w in Writes(GroupCalls(UserName, groups[k], domain));
    GroupWritesSound(UserName, groups[k], domain, w);
    EmittedGroups(es, groups[k]);
    var h :| h in Hashes(es) && UsersWithHash(es, h) == groups[k];
    var a, b :| a in groups[k] && b in groups[k] && a != b &&
      w == Write(Qualify(UserName, a, domain), Qualify(UserName, b, domain));
    assert a in UsersWithHash(es, h) && b in UsersWithHash(es, h);
  }

  /** Every pair of different usernames sharing a hash is written, including
      pairs sharing the empty-password hash. */
  lemma DumpWritesComplete(es: seq<Entry>, domain: string, w: Write)
    requires SharedHash(es, domain, w)
    ensures w in Writes(DumpCalls(Emit(Group(es)), domain))
  {
    var groups := Emit(Group(es));
    var h, a, b :| a in UsersWithHash(es, h) && b in UsersWithHash(es, h) && a != b &&
      w == Write(Qualify(UserName, a, domain), Qualify(UserName, b, domain));
    var us := UsersWithHash(es, h);
    TwoDistinctMembers(us, a, b);
    UsersWithHashOccurs(es, h);
    EmittedGroups(es, us);
    var k :| 0 <= k < |groups| && groups[k] == us;
    GroupWritesComplete(UserName, us, domain, a, b);
    DumpCallsWrites(groups, domain, w);
  }

  /** The dump path writes exactly the SamePassword edges between two different
      usernames sharing a hash: every such pair is attempted and nothing else is. */
  lemma DumpWritesShareHash(es: seq<Entry>, domain: string, w: Write)
    ensures w in Writes(DumpCalls(Emit(Group(es)), domain)) <==> SharedHash(es, domain, w)
  {
    if w in Writes(DumpCalls(Emit(Group(es)), domain)) {
      DumpWritesSound(es, domain, w);
    }
    if SharedHash(es, domain, w) {
      DumpWritesComplete(es, domain, w);
    }
  }

  /** The number of writes the dump path attempts for `file`, or 0 when it stops
      on a malformed line. */
  function DumpAttempts(file: FileLines, domain: string): nat {
    match DumpGroups(file)
    case Success(groups) => PeerTotal(DumpCalls(groups, domain))
    case Failure(_) => 0
  }

  /** The dump path: parse, group, emit, write. A malformed line stops the run
      before any write; an unopenable file gives a run without writes. */
  function DumpRun(file: FileLines, domain: string, outcomes: seq<Outcome>): (r: Result<Run, nat>)
    requires |outcomes| == DumpAttempts(file, domain)
    ensures r.Failure? <==> file.Some? && HasMalformed(file.value)
    ensures r.Failure? ==> r.error < |file.value| && ParseLine(file.value[r.error]).Malformed?
    ensures r.Failure? ==> forall i :: 0 <= i < r.error ==> !ParseLine(file.value[i]).Malformed?
    ensures file.None? ==> r == Success(Run([], 0))
    ensures r.Success? ==> forall w :: w in r.value.writes ==> w.source != w.target
    ensures r.Success? ==> r.value.updated <= SumSuccess(outcomes)
    ensures r.Success? && NoSuccess(outcomes) ==> r.value.updated == 0
  {
    match DumpGroups(file)
    case Failure(i) =>
      assert ParseDump(file.value) == Failure(i);
      assert forall j :: 0 <= j < i ==> !ParseLine(file.value[j]).Malformed? by {
        ParseDumpFirstMalformed(file.value);
      }
      Failure(i)
    case Success(groups) =>
      var calls := DumpCalls(groups, domain);
      DumpNoSelfWrites(groups, domain);
      UpdatedAtMostSum(calls, outcomes);
      Success(Run(Writes(calls), Updated(calls, outcomes)))
  }

  /** For a dump without malformed lines, the run attempts exactly the writes
      between different users sharing a hash. */
  lemma DumpRunWrites(lines: seq<string>, domain: string, w: Write)
    requires !HasMalformed(lines)
    ensures forall outcomes :: |outcomes| == DumpAttempts(Some(lines), domain) ==>
      DumpRun(Some(lines), domain, outcomes).Success? &&
      (w in DumpRun(Some(lines), domain, outcomes).value.writes <==> SharedHash(Entries(lines), domain, w))
  {
    ParseDumpEntries(lines);
    DumpWritesShareHash(Entries(lines), domain, w);
  }
}
