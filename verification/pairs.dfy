/** Turning a group of raw names into edge-writer calls: every member is
    qualified with the domain (`name@domain` for users, `name.domain` for
    computers) and paired with every member that is a different string
    (bloodhound-steroids.py lines 51-53, 94-97 and 149-151). */
module Pairs {
  import opened Seqs

  /** How a raw name becomes a node name. */
  datatype Scheme = UserName | ComputerName

  function Separator(scheme: Scheme): char {
    match scheme
    case UserName => '@'
    case ComputerName => '.'
  }

  /** `'%s@%s' % (name, domain)` or `'%s.%s' % (name, domain)`. */
  function Qualify(scheme: Scheme, name: string, domain: string): (q: string)
    ensures |q| == |name| + 1 + |domain|
    ensures q[|name|] == Separator(scheme)
  {
    name + [Separator(scheme)] + domain
  }

  /** The node name starts with the raw name and ends with the domain, with the
      separator between them. */
  lemma QualifyLayout(scheme: Scheme, name: string, domain: string)
    ensures Qualify(scheme, name, domain)[..|name|] == name
    ensures Qualify(scheme, name, domain)[|name| + 1..] == domain
  {
  }

  /** Within one domain, two raw names are equal exactly when their node-name
      strings are, so comparing raw names (as the script does) and comparing
      node-name strings agree. The database matches names after upper-casing,
      which this equality does not capture. */
  lemma QualifyInjective(scheme: Scheme, a: string, b: string, domain: string)
    ensures Qualify(scheme, a, domain) == Qualify(scheme, b, domain) <==> a == b
  {
    if Qualify(scheme, a, domain) == Qualify(scheme, b, domain) {
      assert |a| == |b|;
      assert a == Qualify(scheme, a, domain)[..|a|];
    }
  }

  /** The qualified names of a list of raw names, in order. */
  function QualifyAll(scheme: Scheme, names: seq<string>, domain: string): (qs: seq<string>)
    ensures |qs| == |names|
    decreases |names|
  {
    if names == [] then [] else [Qualify(scheme, names[0], domain)] + QualifyAll(scheme, names[1..], domain)
  }

  /** The `i`-th node name is the `i`-th raw name, qualified. */
  lemma {:induction false} QualifyAllAt(scheme: Scheme, names: seq<string>, domain: string, i: nat)
    requires i < |names|
    ensures QualifyAll(scheme, names, domain)[i] == Qualify(scheme, names[i], domain)
    decreases |names|
  {
    if i > 0 {
      QualifyAllAt(scheme, names[1..], domain, i - 1);
    }
  }

  /** One call of the edge writer: the member's node name and the node names of
      its peers, in group order. */
  datatype Call = Call(subject: string, peers: seq<string>)

  /** One write attempt: create the two edges between `source` and `target`. */
  datatype Write = Write(source: string, target: string)

  /** One call per member of the group, in group order; a member that occurs
      twice gets two calls. */
  function GroupCalls(scheme: Scheme, group: seq<string>, domain: string): (calls: seq<Call>)
    ensures |calls| == |group|
  {
    MemberCalls(scheme, group, group, domain)
  }

  /** The calls for `members`, each paired with the rest of `group`. */
  function MemberCalls(scheme: Scheme, group: seq<string>, members: seq<string>, domain: string): (calls: seq<Call>)
    ensures |calls| == |members|
    decreases |members|
  {
    if members == [] then []
    else
      [Call(Qualify(scheme, members[0], domain), QualifyAll(scheme, Without(group, members[0]), domain))]
        + MemberCalls(scheme, group, members[1..], domain)
  }

  /** The call for the `i`-th member pairs its node name with the node names of
      the rest of the group. */
  lemma {:induction false} MemberCallAt(scheme: Scheme, group: seq<string>, members: seq<string>, domain: string, i: nat)
    requires i < |members|
    ensures MemberCalls(scheme, group, members, domain)[i] ==
      Call(Qualify(scheme, members[i], domain), QualifyAll(scheme, Without(group, members[i]), domain))
    decreases |members|
  {
    if i > 0 {
      MemberCallAt(scheme, group, members[1..], domain, i - 1);
    }
  }

  /** The writes one call attempts, one per peer, in peer order. */
  function CallWrites(c: Call): (ws: seq<Write>)
    ensures |ws| == |c.peers|
    decreases |c.peers|
  {
    if c.peers == [] then [] else [Write(c.subject, c.peers[0])] + CallWrites(Call(c.subject, c.peers[1..]))
  }

  /** The `j`-th write of a call joins its subject with its `j`-th peer. */
  lemma {:induction false} CallWriteAt(c: Call, j: nat)
    requires j < |c.peers|
    ensures CallWrites(c)[j] == Write(c.subject, c.peers[j])
    decreases |c.peers|
  {
    if j > 0 {
      CallWriteAt(Call(c.subject, c.peers[1..]), j - 1);
    }
  }

  /** Number of peers over all calls: how many writes the calls attempt. */
  function PeerTotal(calls: seq<Call>): nat
    decreases |calls|
  {
    if calls == [] then 0 else |calls[0].peers| + PeerTotal(calls[1..])
  }

  /** Every write attempted by a sequence of calls, in order. */
  function Writes(calls: seq<Call>): (ws: seq<Write>)
    ensures |ws| == PeerTotal(calls)
    decreases |calls|
  {
    if calls == [] then [] else CallWrites(calls[0]) + Writes(calls[1..])
  }

  lemma {:induction false} WritesConcat(a: seq<Call>, b: seq<Call>)
    ensures Writes(a + b) == Writes(a) + Writes(b)
    decreases |a|
  {
    if a == [] {
      assert a + b == b;
    } else {
      assert (a + b)[0] == a[0];
      assert (a + b)[1..] == a[1..] + b;
      WritesConcat(a[1..], b);
    }
  }

  /** A write of two call sequences run one after the other is a write of one of them. */
  lemma WritesConcatMembers(a: seq<Call>, b: seq<Call>, w: Write)
    ensures w in Writes(a + b) <==> w in Writes(a) || w in Writes(b)
  {
    WritesConcat(a, b);
  }

  /** A write is attempted exactly when it pairs some call's subject with one of
      that call's peers. */
  ghost predicate Attempted(calls: seq<Call>, w: Write) {
    exists i :: 0 <= i < |calls| && w.source == calls[i].subject && w.target in calls[i].peers
  }

  lemma {:induction false} WritesMembers(calls: seq<Call>, w: Write)
    ensures w in Writes(calls) <==> Attempted(calls, w)
    decreases |calls|
  {
    if calls != [] {
      WritesMembers(calls[1..], w);
      var cw := CallWrites(calls[0]);
      assert w in cw <==> w.source == calls[0].subject && w.target in calls[0].peers by {
        if w.source == calls[0].subject && w.target in calls[0].peers {
          var j :| 0 <= j < |calls[0].peers| && calls[0].peers[j] == w.target;
          CallWriteAt(calls[0], j);
        }
        if w in cw {
          var j :| 0 <= j < |cw| && cw[j] == w;
          CallWriteAt(calls[0], j);
          assert calls[0].peers[j] in calls[0].peers;
        }
      }
      if Attempted(calls, w) {
        var i :| 0 <= i < |calls| && w.source == calls[i].subject && w.target in calls[i].peers;
        if i > 0 {
          assert calls[1..][i - 1] == calls[i];
        }
      }
      if Attempted(calls[1..], w) {
        var i :| 0 <= i < |calls[1..]| && w.source == calls[1..][i].subject && w.target in calls[1..][i].peers;
        assert calls[i + 1] == calls[1..][i];
      }
    }
  }

  /** `w` joins two different members of `group`. */
  ghost predicate DistinctPair(scheme: Scheme, group: seq<string>, domain: string, w: Write) {
    exists a, b :: a in group && b in group && a != b &&
      w == Write(Qualify(scheme, a, domain), Qualify(scheme, b, domain))
  }

  /** Every write attempted for a group joins two different members. */
  lemma GroupWritesSound(scheme: Scheme, group: seq<string>, domain: string, w: Write)
    requires w in Writes(GroupCalls(scheme, group, domain))
    ensures DistinctPair(scheme, group, domain, w)
  {
    var calls := GroupCalls(scheme, group, domain);
    WritesMembers(calls, w);
    var i :| 0 <= i < |calls| && w.source == calls[i].subject && w.target in calls[i].peers;
    MemberCallAt(scheme, group, group, domain, i);
    var others := Without(group, group[i]);
    var j :| 0 <= j < |calls[i].peers| && calls[i].peers[j] == w.target;
    QualifyAllAt(scheme, others, domain, j);
    assert others[j] in others;
    WithoutMembers(group, group[i], others[j]);
    assert w == Write(Qualify(scheme, group[i], domain), Qualify(scheme, others[j], domain));
  }

  /** Every ordered pair of different members is attempted. */
  lemma GroupWritesComplete(scheme: Scheme, group: seq<string>, domain: string, a: string, b: string)
    requires a in group && b in group && a != b
    ensures Write(Qualify(scheme, a, domain), Qualify(scheme, b, domain)) in Writes(GroupCalls(scheme, group, domain))
  {
    var calls := GroupCalls(scheme, group, domain);
    var w := Write(Qualify(scheme, a, domain), Qualify(scheme, b, domain));
    var i :| 0 <= i < |group| && group[i] == a;
    var others := Without(group, a);
    WithoutMembers(group, a, b);
    var j :| 0 <= j < |others| && others[j] == b;
    MemberCallAt(scheme, group, group, domain, i);
    QualifyAllAt(scheme, others, domain, j);
    assert calls[i].peers[j] == w.target;
    assert Attempted(calls, w);
    WritesMembers(calls, w);
  }

  /** The writes for a group are exactly the ordered pairs of different members:
      every such pair is attempted and nothing else is. */
  lemma GroupWritesExactly(scheme: Scheme, group: seq<string>, domain: string, w: Write)
    ensures w in Writes(GroupCalls(scheme, group, domain)) <==> DistinctPair(scheme, group, domain, w)
  {
    if w in Writes(GroupCalls(scheme, group, domain)) {
      GroupWritesSound(scheme, group, domain, w);
    }
    if DistinctPair(scheme, group, domain, w) {
      var a, b :| a in group && b in group && a != b &&
        w == Write(Qualify(scheme, a, domain), Qualify(scheme, b, domain));
      GroupWritesComplete(scheme, group, domain, a, b);
    }
  }

  /** No write has the same node-name string at both ends. */
  lemma NoSelfWrites(scheme: Scheme, group: seq<string>, domain: string)
    ensures forall w :: w in Writes(GroupCalls(scheme, group, domain)) ==> w.source != w.target
  {
    forall w | w in Writes(GroupCalls(scheme, group, domain))
      ensures w.source != w.target
    {
      GroupWritesSound(scheme, group, domain, w);
      var a, b :| a in group && b in group && a != b &&
        w == Write(Qualify(scheme, a, domain), Qualify(scheme, b, domain));
      QualifyInjective(scheme, a, b, domain);
    }
  }

  /** Raw names that differ only in case are different members, so they are
      paired with each other, although the database's upper-cased match sends
      both ends of that write to the same node. */
  lemma CaseVariantsPaired()
    ensures Write("bob@corp", "BOB@corp") in Writes(GroupCalls(UserName, ["bob", "BOB"], "corp"))
  {
    assert Qualify(UserName, "bob", "corp") == "bob@corp";
    assert Qualify(UserName, "BOB", "corp") == "BOB@corp";
    GroupWritesComplete(UserName, ["bob", "BOB"], "corp", "bob", "BOB");
  }

  /** Calls whose peer lists all have length `k` attempt `k` writes each. */
  lemma {:induction false} UniformPeerTotal(calls: seq<Call>, k: nat)
    requires forall i :: 0 <= i < |calls| ==> |calls[i].peers| == k
    ensures PeerTotal(calls) == |calls| * k
    decreases |calls|
  {
    if calls != [] {
      UniformPeerTotal(calls[1..], k);
      assert |calls| * k == k + (|calls| - 1) * k;
    }
  }

  /** The `i`-th member is paired with every member other than itself. */
  lemma PeerCount(scheme: Scheme, group: seq<string>, domain: string, i: nat)
    requires i < |group|
    ensures |GroupCalls(scheme, group, domain)[i].peers| == |group| - Count(group, group[i])
  {
    MemberCallAt(scheme, group, group, domain, i);
  }

  /** A group of N distinct names attempts exactly N*(N-1) writes. */
  lemma AttemptCount(scheme: Scheme, group: seq<string>, domain: string)
    requires NoDups(group)
    ensures |Writes(GroupCalls(scheme, group, domain))| == |group| * (|group| - 1)
  {
    var calls := GroupCalls(scheme, group, domain);
    if group != [] {
      var k: nat := |group| - 1;
      forall i | 0 <= i < |calls|
        ensures |calls[i].peers| == k
      {
        PeerCount(scheme, group, domain, i);
        NoDupsCount(group, group[i]);
      }
      UniformPeerTotal(calls, k);
      assert |Writes(calls)| == PeerTotal(calls) == |calls| * k;
    }
  }

  /** Two enumerations of the same distinct names attempt the same set of writes:
      the unspecified order of `list(set(...))` changes only the order of the
      writes. */
  lemma EnumerationOrderIrrelevant(scheme: Scheme, xs: seq<string>, o1: seq<string>, o2: seq<string>, domain: string)
    requires IsEnumeration(o1, xs) && IsEnumeration(o2, xs)
    ensures Elems(Writes(GroupCalls(scheme, o1, domain))) == Elems(Writes(GroupCalls(scheme, o2, domain)))
  {
    forall w | w in Writes(GroupCalls(scheme, o1, domain))
      ensures w in Writes(GroupCalls(scheme, o2, domain))
    {
      GroupWritesExactly(scheme, o1, domain, w);
      GroupWritesExactly(scheme, o2, domain, w);
    }
    forall w | w in Writes(GroupCalls(scheme, o2, domain))
      ensures w in Writes(GroupCalls(scheme, o1, domain))
    {
      GroupWritesExactly(scheme, o1, domain, w);
      GroupWritesExactly(scheme, o2, domain, w);
    }
  }

  /** A name listed twice in a hash bucket gets its own call each time, and the
      other member is paired with both copies. */
  lemma DuplicateMemberScenario()
    ensures GroupCalls(UserName, ["bob", "bob", "amy"], "corp") ==
      [Call("bob@corp", ["amy@corp"]), Call("bob@corp", ["amy@corp"]), Call("amy@corp", ["bob@corp", "bob@corp"])]
  {
    var g := ["bob", "bob", "amy"];
    ScenarioPeers();
    ScenarioNames();
    MemberCallAt(UserName, g, g, "corp", 0);
    MemberCallAt(UserName, g, g, "corp", 1);
    MemberCallAt(UserName, g, g, "corp", 2);
  }

  /** The peer lists of the duplicated-member scenario. */
  lemma ScenarioPeers()
    ensures Without(["bob", "bob", "amy"], "bob") == ["amy"]
    ensures Without(["bob", "bob", "amy"], "amy") == ["bob", "bob"]
  {
    WithoutBob();
    WithoutAmy();
  }

  /** Leaving out bob removes both copies. */
  lemma WithoutBob()
    ensures Without(["bob", "bob", "amy"], "bob") == ["amy"]
  {
    var g: seq<string> := ["bob", "bob", "amy"];
    assert g[..2] == ["bob", "bob"];
    assert g[..2][..1] == ["bob"];
    assert Without(["bob"], "bob") == [] by {
      assert g[..2][..1][..0] == [];
    }
    assert Without(["bob", "bob"], "bob") == [];
  }

  /** Leaving out amy keeps both copies of bob. */
  lemma WithoutAmy()
    ensures Without(["bob", "bob", "amy"], "amy") == ["bob", "bob"]
  {
    var g: seq<string> := ["bob", "bob", "amy"];
    assert g[..2] == ["bob", "bob"];
    assert g[..2][..1] == ["bob"];
    assert Without(["bob"], "amy") == ["bob"] by {
      assert g[..2][..1][..0] == [];
    }
    assert Without(["bob", "bob"], "amy") == ["bob", "bob"];
  }

  /** The node names of the scenario's members. */
  lemma ScenarioNames()
    ensures Qualify(UserName, "bob", "corp") == "bob@corp"
    ensures Qualify(UserName, "amy", "corp") == "amy@corp"
    ensures QualifyAll(UserName, ["amy"], "corp") == ["amy@corp"]
    ensures QualifyAll(UserName, ["bob", "bob"], "corp") == ["bob@corp", "bob@corp"]
  {
  }
}
