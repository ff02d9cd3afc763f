/** The dump-file path of the `samepass` module (bloodhound-steroids.py,
    do_samepass_nt_file): parse `account:rid:lm:nt:...` records, group the account
    names by password hash in first-seen order, and keep the groups with more
    than one member. */
module NtDump {
  import opened Wrappers
  import opened Text
  import opened Seqs

  /** One parsed record: the account name and the hash found in field 3. */
  datatype Entry = Entry(username: string, hash: string)

  /** What one line of the dump yields: nothing (blank after stripping), an entry,
      or a malformed record, on which the script stops with an IndexError. */
  datatype LineParse = Blank | Parsed(entry: Entry) | Malformed

  /** The NT hash of the empty password. */
  const EmptyPasswordHash: string := "31d6cfe0d16ae931b73c59d7e0c089c0"

  /** The user part of an account field: the whole field when it has no
      backslash, otherwise the second backslash-separated segment. */
  function AccountName(field: string): (u: string)
    ensures '\\' !in u
    ensures '\\' !in field ==> u == field
    ensures forall c :: c in u ==> c in field
  {
    var id := Split(field, '\\');
    var u := if |id| == 1 then id[0] else id[1];
    assert forall c :: c in u ==> c in field by {
      forall c | c in u {
        PartInJoin(id, '\\', if |id| == 1 then 0 else 1, c);
      }
    }
    u
  }

  /** For `DOMAIN\user` the name is `user`; with further backslashes it is still
      the segment right after the first one, not the last segment. */
  lemma {:induction false} AccountNameOfSegments(segs: seq<string>)
    requires |segs| >= 2
    requires forall i :: 0 <= i < |segs| ==> '\\' !in segs[i]
    ensures AccountName(Join(segs, '\\')) == segs[1]
  {
    SplitJoin(segs, '\\');
  }

  /** Parse a right-stripped, non-blank line: split on colons; fewer than four
      fields is malformed, otherwise the account is field 0 and the hash field 3. */
  function ParseRecord(clean: string): (p: LineParse)
    ensures !p.Blank?
    ensures p.Malformed? <==> Count(clean, ':') < 3
    ensures p.Parsed? ==> ':' !in p.entry.hash && ':' !in p.entry.username && '\\' !in p.entry.username
  {
    var fields := Split(clean, ':');
    if |fields| < 4 then Malformed else Parsed(Entry(AccountName(fields[0]), fields[3]))
  }

  /** The fields of a record come back out of it: a record assembled from
      colon-free fields parses to the account name of field 0 and the hash in
      field 3, whatever follows. */
  lemma ParseRecordOfFields(account: string, rid: string, lm: string, nt: string, rest: seq<string>)
    requires forall i :: 0 <= i < |[account, rid, lm, nt] + rest| ==> ':' !in ([account, rid, lm, nt] + rest)[i]
    ensures ParseRecord(Join([account, rid, lm, nt] + rest, ':')) == Parsed(Entry(AccountName(account), nt))
  {
    SplitJoin([account, rid, lm, nt] + rest, ':');
  }

  /** One line of the dump, as the loop body treats it. */
  function ParseLine(line: string): (p: LineParse)
    ensures p.Blank? <==> RStrip(line) == []
    ensures p.Malformed? <==> RStrip(line) != [] && Count(RStrip(line), ':') < 3
  {
    var clean := RStrip(line);
    if |clean| == 0 then Blank else ParseRecord(clean)
  }

  /** The entries of the parsed lines, in file order (blank lines skipped). */
  function Entries(lines: seq<string>): (es: seq<Entry>)
    ensures |es| <= |lines|
    decreases |lines|
  {
    if lines == [] then []
    else
      var p := ParseLine(lines[|lines| - 1]);
      Entries(lines[..|lines| - 1]) + (if p.Parsed? then [p.entry] else [])
  }

  /** Entries keep file order: parsing a concatenation concatenates. */
  lemma {:induction false} EntriesConcat(a: seq<string>, b: seq<string>)
    ensures Entries(a + b) == Entries(a) + Entries(b)
    decreases |b|
  {
    if b == [] {
      assert a + b == a;
    } else {
      assert (a + b)[..|a + b| - 1] == a + b[..|b| - 1];
      assert (a + b)[|a + b| - 1] == b[|b| - 1];
      EntriesConcat(a, b[..|b| - 1]);
    }
  }

  ghost predicate HasMalformed(lines: seq<string>) {
    exists i :: 0 <= i < |lines| && ParseLine(lines[i]).Malformed?
  }

  /** The parsing loop: the entries of all lines, or the index of the first
      malformed line, at which the script raises before anything is written. */
  function ParseDump(lines: seq<string>): (r: Result<seq<Entry>, nat>)
    ensures r.Failure? <==> HasMalformed(lines)
    ensures r.Failure? ==> r.error < |lines| && ParseLine(lines[r.error]).Malformed?
    decreases |lines|
  {
    if lines == [] then Success([])
    else
      var init, last := lines[..|lines| - 1], lines[|lines| - 1];
      var p := ParseLine(last);
      var r := ParseDump(init);
      assert lines == init + [last];
      MalformedSnoc(init, last);
      if r.Failure? then
        assert lines[r.error] == init[r.error];
        Failure(r.error)
      else if p.Malformed? then
        assert lines[|init|] == last;
        Failure(|init|)
      else
        Success(r.value + (if p.Parsed? then [p.entry] else []))
  }

  /** Appending a line keeps the verdicts of the lines before it. */
  lemma MalformedSnoc(init: seq<string>, line: string)
    ensures forall i :: 0 <= i < |init| ==> (init + [line])[i] == init[i]
    ensures HasMalformed(init + [line]) <==> HasMalformed(init) || ParseLine(line).Malformed?
  {
    var lines := init + [line];
    if HasMalformed(lines) && !ParseLine(line).Malformed? {
      var i :| 0 <= i < |lines| && ParseLine(lines[i]).Malformed?;
      assert i < |init| && lines[i] == init[i];
    }
    if HasMalformed(init) {
      var i :| 0 <= i < |init| && ParseLine(init[i]).Malformed?;
      assert lines[i] == init[i];
    }
    if ParseLine(line).Malformed? {
      assert lines[|init|] == line;
    }
  }

  /** The reported line is the first malformed one: every line before it parses. */
  lemma {:induction false} ParseDumpFirstMalformed(lines: seq<string>)
    ensures ParseDump(lines).Failure? ==>
      forall i :: 0 <= i < ParseDump(lines).error ==> !ParseLine(lines[i]).Malformed?
    decreases |lines|
  {
    if lines != [] && ParseDump(lines).Failure? {
      var init := lines[..|lines| - 1];
      ParseDumpFirstMalformed(init);
      forall i | 0 <= i < ParseDump(lines).error
        ensures !ParseLine(lines[i]).Malformed?
      {
        assert lines[i] == init[i];
        if ParseDump(init).Success? {
          assert !HasMalformed(init);
        }
      }
    }
  }

  /** A dump without malformed lines parses to its entries in file order. */
  lemma {:induction false} ParseDumpEntries(lines: seq<string>)
    ensures ParseDump(lines).Success? ==> ParseDump(lines).value == Entries(lines)
    decreases |lines|
  {
    if lines != [] {
      ParseDumpEntries(lines[..|lines| - 1]);
    }
  }

  /** The usernames of the entries carrying hash `h`, in file order, duplicates
      kept. */
  function UsersWithHash(es: seq<Entry>, h: string): (us: seq<string>)
    ensures |us| <= |es|
    decreases |es|
  {
    if es == [] then []
    else
      var e := es[|es| - 1];
      UsersWithHash(es[..|es| - 1], h) + (if e.hash == h then [e.username] else [])
  }

  /** The hashes of the entries, in file order. */
  function Hashes(es: seq<Entry>): (hs: seq<string>)
    ensures |hs| == |es|
    ensures forall i :: 0 <= i < |es| ==> hs[i] == es[i].hash
    decreases |es|
  {
    if es == [] then [] else Hashes(es[..|es| - 1]) + [es[|es| - 1].hash]
  }

  /** One entry of the `grouped_nt` dictionary: a hash and its usernames. */
  datatype Bucket = Bucket(hash: string, users: seq<string>)

  /** The dictionary's keys, in insertion order. */
  function Keys(g: seq<Bucket>): (ks: seq<string>)
    ensures |ks| == |g|
    ensures forall i :: 0 <= i < |g| ==> ks[i] == g[i].hash
    decreases |g|
  {
    if g == [] then [] else [g[0].hash] + Keys(g[1..])
  }

  /** `grouped_nt[h]`, or the empty list when `h` is not a key. */
  function Lookup(g: seq<Bucket>, h: string): seq<string>
    decreases |g|
  {
    if g == [] then [] else if g[0].hash == h then g[0].users else Lookup(g[1..], h)
  }

  /** Lines 82-85: append the username to its hash's list, or open a new list at
      the end of the dictionary. */
  function AddEntry(g: seq<Bucket>, e: Entry): (g': seq<Bucket>)
    ensures (forall i :: 0 <= i < |g| ==> g[i].users != []) ==> forall i :: 0 <= i < |g'| ==> g'[i].users != []
    decreases |g|
  {
    if g == [] then [Bucket(e.hash, [e.username])]
    else if g[0].hash == e.hash then [g[0].(users := g[0].users + [e.username])] + g[1..]
    else [g[0]] + AddEntry(g[1..], e)
  }

  /** Adding an entry only extends its own hash's list. */
  lemma {:induction false} AddEntryLookup(g: seq<Bucket>, e: Entry, h: string)
    ensures Lookup(AddEntry(g, e), h) == Lookup(g, h) + (if h == e.hash then [e.username] else [])
    decreases |g|
  {
    if g != [] && g[0].hash != e.hash {
      AddEntryLookup(g[1..], e, h);
      assert AddEntry(g, e)[1..] == AddEntry(g[1..], e);
    } else if g != [] {
      assert AddEntry(g, e)[1..] == g[1..];
    }
  }

  /** Adding an entry appends its hash to the keys exactly when it is new. */
  lemma {:induction false} AddEntryKeys(g: seq<Bucket>, e: Entry)
    ensures Keys(AddEntry(g, e)) == if e.hash in Keys(g) then Keys(g) else Keys(g) + [e.hash]
    decreases |g|
  {
    if g != [] && g[0].hash != e.hash {
      AddEntryKeys(g[1..], e);
      var g' := AddEntry(g, e);
      assert g'[0] == g[0] && g'[1..] == AddEntry(g[1..], e);
      assert e.hash in Keys(g) <==> e.hash in Keys(g[1..]);
    } else if g != [] {
      var g' := AddEntry(g, e);
      assert g'[0].hash == g[0].hash && g'[1..] == g[1..];
      assert Keys(g)[0] == e.hash;
    }
  }

  /** The sum of the bucket sizes. */
  function TotalSize(g: seq<Bucket>): nat
    decreases |g|
  {
    if g == [] then 0 else |g[0].users| + TotalSize(g[1..])
  }

  lemma {:induction false} AddEntrySize(g: seq<Bucket>, e: Entry)
    ensures TotalSize(AddEntry(g, e)) == TotalSize(g) + 1
    decreases |g|
  {
    if g != [] && g[0].hash != e.hash {
      AddEntrySize(g[1..], e);
      assert AddEntry(g, e)[1..] == AddEntry(g[1..], e);
    } else if g != [] {
      assert AddEntry(g, e)[1..] == g[1..];
    }
  }

  /** Lines 81-85: the hash-to-usernames dictionary, built in one pass. */
  function Group(es: seq<Entry>): (g: seq<Bucket>)
    ensures forall i :: 0 <= i < |g| ==> g[i].users != []
    decreases |es|
  {
    if es == [] then [] else AddEntry(Group(es[..|es| - 1]), es[|es| - 1])
  }

  /** Keys appear in first-seen order: they are the entries' hashes, deduplicated
      keeping first occurrences. */
  lemma {:induction false} GroupKeys(es: seq<Entry>)
    ensures Keys(Group(es)) == Dedup(Hashes(es))
    decreases |es|
  {
    if es != [] {
      var init := es[..|es| - 1];
      GroupKeys(init);
      AddEntryKeys(Group(init), es[|es| - 1]);
      assert Hashes(es)[..|es| - 1] == Hashes(init);
    }
  }

  /** Every entry's username lands in the list of its own hash, in file order,
      duplicates preserved, and nowhere else. */
  lemma {:induction false} GroupLookup(es: seq<Entry>, h: string)
    ensures Lookup(Group(es), h) == UsersWithHash(es, h)
    decreases |es|
  {
    if es != [] {
      var init := es[..|es| - 1];
      GroupLookup(init, h);
      AddEntryLookup(Group(init), es[|es| - 1], h);
    }
  }

  /** The bucket sizes add up to the number of parsed entries. */
  lemma {:induction false} GroupSize(es: seq<Entry>)
    ensures TotalSize(Group(es)) == |es|
    decreases |es|
  {
    if es != [] {
      GroupSize(es[..|es| - 1]);
      AddEntrySize(Group(es[..|es| - 1]), es[|es| - 1]);
    }
  }

  /** With distinct keys, each bucket holds what a lookup of its key returns. */
  lemma {:induction false} LookupAt(g: seq<Bucket>, i: nat)
    requires NoDups(Keys(g))
    requires i < |g|
    ensures Lookup(g, g[i].hash) == g[i].users
    decreases |g|
  {
    if i > 0 {
      assert Keys(g[1..]) == Keys(g)[1..];
      assert Keys(g)[0] != Keys(g)[i];
      LookupAt(g[1..], i - 1);
    }
  }

  /** Every bucket of the dictionary is exactly the file-ordered list of the
      usernames with its hash. */
  lemma GroupBucket(es: seq<Entry>, i: nat)
    requires i < |Group(es)|
    ensures Group(es)[i].users == UsersWithHash(es, Group(es)[i].hash)
  {
    GroupKeys(es);
    LookupAt(Group(es), i);
    GroupLookup(es, Group(es)[i].hash);
  }

  /** Lines 91-92: the lists with more than one member, in key order. */
  function Emit(g: seq<Bucket>): (final: seq<seq<string>>)
    ensures forall k :: 0 <= k < |final| ==> |final[k]| > 1
    decreases |g|
  {
    if g == [] then []
    else (if |g[0].users| > 1 then [g[0].users] else []) + Emit(g[1..])
  }

  /** A bucket is emitted exactly when it has more than one member. */
  lemma {:induction false} EmitMembers(g: seq<Bucket>, us: seq<string>)
    ensures us in Emit(g) <==> |us| > 1 && exists i :: 0 <= i < |g| && g[i].users == us
    decreases |g|
  {
    if g != [] {
      EmitMembers(g[1..], us);
      if exists i :: 0 <= i < |g| && g[i].users == us {
        var i :| 0 <= i < |g| && g[i].users == us;
        if i > 0 {
          assert g[1..][i - 1].users == us;
        }
      }
      if exists i :: 0 <= i < |g[1..]| && g[1..][i].users == us {
        var i :| 0 <= i < |g[1..]| && g[1..][i].users == us;
        assert g[i + 1].users == us;
      }
    }
  }

  /** The buckets' lists, in key order. */
  function UserLists(g: seq<Bucket>): (ls: seq<seq<string>>)
    ensures |ls| == |g|
    ensures forall i :: 0 <= i < |g| ==> ls[i] == g[i].users
    decreases |g|
  {
    if g == [] then [] else [g[0].users] + UserLists(g[1..])
  }

  /** Every bucket of more than one member is emitted once, on its own: a list
      is emitted as many times as buckets hold it. */
  lemma {:induction false} EmitCount(g: seq<Bucket>, us: seq<string>)
    ensures Count(Emit(g), us) == if |us| > 1 then Count(UserLists(g), us) else 0
    decreases |g|
  {
    if g != [] {
      var head := if |g[0].users| > 1 then [g[0].users] else [];
      EmitCount(g[1..], us);
      CountConcat(head, Emit(g[1..]), us);
      CountConcat([g[0].users], UserLists(g[1..]), us);
      CountSingle(g[0].users, us);
      if |g[0].users| <= 1 {
        assert Count(head, us) == 0;
      }
    }
  }

  /** The username lists of the hashes `hs`, in order. */
  function ListsOf(es: seq<Entry>, hs: seq<string>): (ls: seq<seq<string>>)
    ensures |ls| == |hs|
    ensures forall i :: 0 <= i < |hs| ==> ls[i] == UsersWithHash(es, hs[i])
    decreases |hs|
  {
    if hs == [] then [] else [UsersWithHash(es, hs[0])] + ListsOf(es, hs[1..])
  }

  /** A list of two or more usernames is emitted once per distinct hash whose
      username list it is; several hashes with the same users emit it several
      times. */
  lemma EmittedGroupsCount(es: seq<Entry>, us: seq<string>)
    ensures Count(Emit(Group(es)), us) == if |us| > 1 then Count(ListsOf(es, Dedup(Hashes(es))), us) else 0
  {
    var g := Group(es);
    GroupKeys(es);
    EmitCount(g, us);
    assert UserLists(g) == ListsOf(es, Keys(g)) by {
      forall i | 0 <= i < |g|
        ensures UserLists(g)[i] == ListsOf(es, Keys(g))[i]
      {
        GroupBucket(es, i);
      }
    }
  }

  /** Lines 88-90: the name lists printed as "empty hash, will not be
      processed", one per dictionary key equal to the empty-password hash. */
  function EmptyHashReport(g: seq<Bucket>): (report: seq<seq<string>>)
    ensures |report| <= |g|
    decreases |g|
  {
    if g == [] then []
    else (if g[0].hash == EmptyPasswordHash then [g[0].users] else []) + EmptyHashReport(g[1..])
  }

  /** A report lists the lookups of the keys equal to the empty hash. */
  lemma {:induction false} EmptyHashReportKeys(g: seq<Bucket>)
    requires NoDups(Keys(g))
    ensures EmptyHashReport(g) == if EmptyPasswordHash in Keys(g) then [Lookup(g, EmptyPasswordHash)] else []
    decreases |g|
  {
    if g != [] {
      assert Keys(g[1..]) == Keys(g)[1..];
      assert forall x :: x in Keys(g) <==> x == g[0].hash || x in Keys(g[1..]);
      EmptyHashReportKeys(g[1..]);
      if g[0].hash == EmptyPasswordHash {
        assert Keys(g)[0] == EmptyPasswordHash;
        assert EmptyPasswordHash !in Keys(g[1..]);
      }
    }
  }

  /** The users with an empty password are reported once, all together, when
      there are any. */
  lemma EmptyHashReportedOnce(es: seq<Entry>)
    ensures EmptyHashReport(Group(es)) ==
      if UsersWithHash(es, EmptyPasswordHash) != [] then [UsersWithHash(es, EmptyPasswordHash)] else []
  {
    GroupKeys(es);
    GroupLookup(es, EmptyPasswordHash);
    EmptyHashReportKeys(Group(es));
    LookupKeys(Group(es), EmptyPasswordHash);
  }

  /** A key is absent exactly when its lookup is empty (buckets are never empty). */
  lemma {:induction false} LookupKeys(g: seq<Bucket>, h: string)
    requires forall i :: 0 <= i < |g| ==> g[i].users != []
    ensures h in Keys(g) <==> Lookup(g, h) != []
    decreases |g|
  {
    if g != [] {
      assert Keys(g[1..]) == Keys(g)[1..];
      assert forall x :: x in Keys(g) <==> x == g[0].hash || x in Keys(g[1..]);
      LookupKeys(g[1..], h);
    }
  }

  /** Only hashes that occur have users. */
  lemma {:induction false} UsersWithHashOccurs(es: seq<Entry>, h: string)
    ensures UsersWithHash(es, h) != [] <==> h in Hashes(es)
    decreases |es|
  {
    if es != [] {
      var init := es[..|es| - 1];
      UsersWithHashOccurs(init, h);
      assert Hashes(es) == Hashes(init) + [es[|es| - 1].hash];
    }
  }

  /** The emitted groups are exactly the per-hash username lists of more than one
      member. */
  lemma EmittedGroups(es: seq<Entry>, us: seq<string>)
    ensures us in Emit(Group(es)) <==> |us| > 1 && exists h :: h in Hashes(es) && UsersWithHash(es, h) == us
  {
    var g := Group(es);
    EmitMembers(g, us);
    GroupKeys(es);
    if us in Emit(g) {
      var i :| 0 <= i < |g| && g[i].users == us;
      GroupBucket(es, i);
      assert g[i].hash in Keys(g);
    }
    if |us| > 1 && exists h :: h in Hashes(es) && UsersWithHash(es, h) == us {
      var h :| h in Hashes(es) && UsersWithHash(es, h) == us;
      assert h in Keys(g);
      var i :| 0 <= i < |Keys(g)| && Keys(g)[i] == h;
      GroupBucket(es, i);
    }
  }

  /** The script announces that users with the empty-password hash "will not be
      processed", yet their list is emitted like any other once it has two
      members: the announcement does not skip the bucket. */
  lemma EmptyPasswordGroupStillEmitted(es: seq<Entry>)
    requires |UsersWithHash(es, EmptyPasswordHash)| > 1
    ensures UsersWithHash(es, EmptyPasswordHash) in Emit(Group(es))
    ensures EmptyHashReport(Group(es)) == [UsersWithHash(es, EmptyPasswordHash)]
  {
    UsersWithHashOccurs(es, EmptyPasswordHash);
    EmittedGroups(es, UsersWithHash(es, EmptyPasswordHash));
    EmptyHashReportedOnce(es);
  }

  /** The groups the dump path hands to the edge writer. A dump that could not be
      opened gives none; a malformed line stops the run at that line. */
  function DumpGroups(file: Option<seq<string>>): (r: Result<seq<seq<string>>, nat>)
    ensures file.None? ==> r == Success([])
    ensures r.Failure? <==> file.Some? && HasMalformed(file.value)
    ensures r.Failure? ==> r.error < |file.value| && ParseLine(file.value[r.error]).Malformed?
    ensures r.Success? ==> forall k :: 0 <= k < |r.value| ==> |r.value[k]| > 1
  {
    if file.None? then Success([])
    else
      match ParseDump(file.value)
      case Failure(i) => Failure(i)
      case Success(es) => Success(Emit(Group(es)))
  }

  /** Two users sharing two passwords: their list is emitted once per hash. */
  lemma RepeatedGroupScenario()
    ensures var es := [Entry("a", "h1"), Entry("b", "h1"), Entry("a", "h2"), Entry("b", "h2")];
            Count(Emit(Group(es)), ["a", "b"]) == 2
  {
    var es := [Entry("a", "h1"), Entry("b", "h1"), Entry("a", "h2"), Entry("b", "h2")];
    var g1 := [Bucket("h1", ["a"])];
    var g2 := [Bucket("h1", ["a", "b"])];
    var g3 := [Bucket("h1", ["a", "b"]), Bucket("h2", ["a"])];
    var g4 := [Bucket("h1", ["a", "b"]), Bucket("h2", ["a", "b"])];
    assert es[..1][..0] == [];
    assert Group(es[..1]) == g1;
    assert es[..2][..1] == es[..1];
    assert g1[1..] == [];
    assert ["a"] + ["b"] == ["a", "b"];
    assert AddEntry(g1, Entry("b", "h1")) == g2;
    assert Group(es[..2]) == g2;
    assert es[..3][..2] == es[..2];
    assert "h1" != "h2";
    assert g2[1..] == [];
    assert AddEntry(g2, Entry("a", "h2")) == g3;
    assert Group(es[..3]) == g3;
    assert es[..4] == es;
    assert g3[1..][1..] == [];
    assert AddEntry(g3[1..], Entry("b", "h2")) == [Bucket("h2", ["a", "b"])];
    assert AddEntry(g3, Entry("b", "h2")) == g4;
    assert Group(es) == g4;
    EmitCount(g4, ["a", "b"]);
    assert UserLists(g4) == [["a", "b"]] + [["a", "b"]];
    CountConcat([["a", "b"]], [["a", "b"]], ["a", "b"]);
    CountSingle(["a", "b"], ["a", "b"]);
  }

  /** Two users sharing a hash and one user with the empty-password hash: the
      pair forms the only group and the third user is only reported. */
  lemma SharedHashScenario()
    ensures var es := [Entry("carol", "aad3b435b51404eeaad3b435b51404ee"),
                       Entry("dave", "aad3b435b51404eeaad3b435b51404ee"),
                       Entry("eve", EmptyPasswordHash)];
            && Emit(Group(es)) == [["carol", "dave"]]
            && EmptyHashReport(Group(es)) == [["eve"]]
  {
    var h := "aad3b435b51404eeaad3b435b51404ee";
    var es := [Entry("carol", h), Entry("dave", h), Entry("eve", EmptyPasswordHash)];
    assert h[0] != EmptyPasswordHash[0];
    assert es[..1] == [Entry("carol", h)];
    assert es[..2] == [Entry("carol", h), Entry("dave", h)];
    assert es[..2][..1] == es[..1];
    assert Group(es[..1]) == [Bucket(h, ["carol"])] by {
      assert es[..1][..0] == [];
    }
    assert ["carol"] + ["dave"] == ["carol", "dave"];
    assert [Bucket(h, ["carol"])][1..] == [];
    assert AddEntry([Bucket(h, ["carol"])], Entry("dave", h)) == [Bucket(h, ["carol", "dave"])];
    assert Group(es[..2]) == [Bucket(h, ["carol", "dave"])];
    var g := [Bucket(h, ["carol", "dave"]), Bucket(EmptyPasswordHash, ["eve"])];
    assert AddEntry([Bucket(h, ["carol", "dave"])], Entry("eve", EmptyPasswordHash)) == g;
    assert Group(es) == g;
    assert g[1..][1..] == [];
    assert Emit(g[1..]) == [];
    assert Emit(g) == [["carol", "dave"]] + Emit(g[1..]);
  }
}
