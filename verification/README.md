# bloodhound-steroids, modelled in Dafny

`bloodhound-steroids.py` adds edges to a BloodHound graph database. The
`samepass` module adds `SamePassword` edges between user accounts. The
`samelocaladmin` module adds `SameLocalAdmin` edges between computer accounts.
The pure logic of the script is modelled here, with the database abstracted away.

- **List files** (`do_samepass_user_file`, `do_samelocaladmin`): each line is
  right-stripped with Python's `rstrip()`. Lines that become empty are dropped.
  The survivors from all files are pooled and deduplicated with
  `list(set(...))`. Python leaves the order of that list unspecified, so the
  model takes the order as a parameter `order`. The only requirement is that
  `order` lists every distinct identifier exactly once (`Seqs.IsEnumeration`).
  `Seqs.Dedup` is one such order.
- **Dump file** (`do_samepass_nt_file`): each non-blank line is split on `:`.
  The hash is field 3. The account is field 0, and inside it the username is
  the segment after the first backslash, not the last segment. Usernames are
  grouped by hash in an insertion-ordered dictionary. The lists with more than
  one member are emitted, one per hash, so users who share several passwords
  have their list emitted once for each (`NtDump.EmittedGroupsCount`).
- **Pairs**: each member of a group is qualified as `name@domain` (users) or
  `name.domain` (computers). It is paired with every member that is a different
  string.
- **Edge writers** (`do_insert_samepassword`, `do_insert_samelocal_admin`):
  there is one write per peer. The database is replaced by a sequence of
  outcomes, one per write in issue order. `None` means the write's `try` block
  raised: the query `print` of `do_insert_samelocal_admin` (line 124),
  `session.run`, `result.value()` or `len` (lines 27-28 and 125-126). When that
  `print` raises, the write is never sent.
  `Some(k)` means the result held `k` records.
- **Dispatcher** (`__main__`): decides the exit status (0 or 1), or which
  module runs with which inputs.

Two quirks of the code are modelled as written, each with a lemma that shows it:

- The script prints that the users with the empty-password hash
  `31d6cfe0d16ae931b73c59d7e0c089c0` "will not be processed" (lines 88-90).
  Lines 91-92 still emit that bucket when it has two or more members, so those
  users are paired like any others (`NtDump.EmptyPasswordGroupStillEmitted`).
- The writer's counter is overwritten on every successful write, not added to.
  A writer call therefore returns the record count of its last successful write
  (`EdgeWriter.CounterIsNotASum`). The caller adds up these per-call values.

Two error paths of the dump path:

- A dump file that cannot be opened is not fatal. The error is printed, no
  entries are read and nothing is written (`Runs.DumpRun` with `None`).
- A dump line with fewer than four colon fields raises `IndexError` at line 78.
  Parsing finishes before any write, so the run stops with no writes at all.
  The model returns `Failure(i)`, where `i` is the index of the first such line.

## Model

| member | source | states |
|---|---|---|
| Text.RStrip | bloodhound-steroids.py:45 | the stripped line is a prefix of the line, is empty or ends in a non-whitespace character, and everything removed is whitespace in Python's `isspace` sense |
| Text.RStripUnique | bloodhound-steroids.py:45 | any prefix with those three properties equals `rstrip()`, so they fully describe it |
| Text.RStripIdempotent | bloodhound-steroids.py:45 | stripping an already stripped line changes nothing |
| Text.Split | bloodhound-steroids.py:72 | `split(sep)` gives one more part than there are separators, no part holds the separator, and joining the parts back gives the input |
| Text.SplitJoin | bloodhound-steroids.py:72-74 | round trip: splitting a join of separator-free parts gives those parts back |
| Seqs.Dedup | bloodhound-steroids.py:49 | first-occurrence deduplication lists every distinct element exactly once: a valid order for `list(set(...))` |
| Seqs.EnumerationCount | bloodhound-steroids.py:49 | a deduplicated list holds each element of the input exactly once and nothing else |
| Seqs.EnumerationLength | bloodhound-steroids.py:147 | every order of the deduplicated list has the same length, the number of distinct identifiers |
| Seqs.Without | bloodhound-steroids.py:53 | a peer list is shorter than the group by the subject's number of occurrences |
| Seqs.WithoutMembers | bloodhound-steroids.py:53 | a name is a peer iff it is a member of the group other than the subject |
| Seqs.WithoutCount | bloodhound-steroids.py:97 | every member other than the subject occurs among the peers as often as in the group, and the subject not at all |
| IdentifierFiles.CleanLines | bloodhound-steroids.py:44-47 | every kept identifier is non-empty and has no trailing whitespace; there are at most as many as lines |
| IdentifierFiles.CleanLinesMembers | bloodhound-steroids.py:44-47 | a string is kept iff it is non-empty and is the right-stripped form of some line |
| IdentifierFiles.CleanLinesConcat | bloodhound-steroids.py:44-47 | cleaning keeps file order: cleaning concatenated lines concatenates the cleaned parts |
| IdentifierFiles.CleanLinesIdempotent | bloodhound-steroids.py:142-145 | cleaning an already cleaned list changes nothing |
| IdentifierFiles.Collect | bloodhound-steroids.py:37-47 | the pooled identifiers of all files are non-empty and right-stripped |
| IdentifierFiles.CollectMembers | bloodhound-steroids.py:37-47 | an identifier is pooled iff some openable file keeps it; an unopenable file contributes nothing |
| IdentifierFiles.IdentifierListExactlyOnce | bloodhound-steroids.py:142-147 | the deduplicated list holds each non-empty right-stripped line of an openable file exactly once, and nothing else |
| NtDump.AccountName | bloodhound-steroids.py:74-77 | the username has no backslash, is the whole field when the field has none, and uses only characters of the field |
| NtDump.AccountNameOfSegments | bloodhound-steroids.py:74-77 | for a field with backslashes, the username is the second segment (index 1), not the last one |
| NtDump.ParseRecord | bloodhound-steroids.py:72-78 | a record is malformed iff it has fewer than three colons; otherwise the hash and username hold no colon |
| NtDump.ParseRecordOfFields | bloodhound-steroids.py:72-78 | a record built from colon-free fields parses to the account name of field 0 and the hash of field 3, whatever fields follow |
| NtDump.ParseLine | bloodhound-steroids.py:70-78 | a line is skipped iff it strips to nothing, and is malformed iff its stripped form has fewer than three colons |
| NtDump.ParseDump | bloodhound-steroids.py:69-79 | parsing fails iff some line is malformed, and the reported index is a malformed line |
| NtDump.ParseDumpFirstMalformed | bloodhound-steroids.py:69-79 | every line before the reported one parses, so the script stops at the first malformed line |
| NtDump.Entries | bloodhound-steroids.py:69-79 | at most one entry per line |
| NtDump.ParseDumpEntries | bloodhound-steroids.py:69-79 | when parsing succeeds, it yields the entries of the non-blank lines |
| NtDump.EntriesConcat | bloodhound-steroids.py:69-79 | entries keep file order: parsing concatenated lines concatenates the entries |
| NtDump.Hashes | bloodhound-steroids.py:81-82 | one hash per entry, the i-th being the i-th entry's hash |
| NtDump.AddEntry | bloodhound-steroids.py:82-85 | adding an entry to a dictionary whose lists are all non-empty keeps every list non-empty |
| NtDump.AddEntryLookup | bloodhound-steroids.py:82-85 | adding an entry appends its username to its own hash's list and leaves every other list unchanged |
| NtDump.AddEntryKeys | bloodhound-steroids.py:82-85 | adding an entry appends its hash to the keys iff the hash is new |
| NtDump.AddEntrySize | bloodhound-steroids.py:82-85 | adding an entry grows the total bucket size by one |
| NtDump.Group | bloodhound-steroids.py:81-85 | every list of the grouped dictionary is non-empty |
| NtDump.GroupKeys | bloodhound-steroids.py:81-85 | the dictionary's keys are the entries' hashes in first-seen order, each once |
| NtDump.GroupLookup | bloodhound-steroids.py:81-85 | the list for a hash is the usernames of the entries with that hash, in file order, with duplicates kept |
| NtDump.GroupSize | bloodhound-steroids.py:81-85 | the bucket sizes add up to the number of parsed entries |
| NtDump.GroupBucket | bloodhound-steroids.py:81-85 | every bucket holds exactly the usernames with its own hash |
| NtDump.Emit | bloodhound-steroids.py:91-92 | every emitted list has more than one member |
| NtDump.EmitMembers | bloodhound-steroids.py:91-92 | a list is emitted iff it is some bucket's list and has more than one member |
| NtDump.EmittedGroups | bloodhound-steroids.py:87-92 | the emitted lists are exactly the per-hash username lists with more than one member |
| NtDump.EmitCount | bloodhound-steroids.py:87-92 | a list of two or more members is emitted exactly as many times as buckets hold it, and a shorter list never |
| NtDump.EmittedGroupsCount | bloodhound-steroids.py:81-92 | a list of two or more members is emitted once per distinct hash whose username list it is, so hashes with the same users emit it repeatedly; a shorter list never |
| NtDump.EmptyHashReport | bloodhound-steroids.py:87-90 | there is at most one printed report per dictionary key |
| NtDump.EmptyHashReportedOnce | bloodhound-steroids.py:87-90 | the users with the empty-password hash are printed once, all together, and only if there are any |
| NtDump.EmptyPasswordGroupStillEmitted | bloodhound-steroids.py:87-92 | an empty-password bucket with two or more members is both reported and emitted: the report does not skip it |
| NtDump.DumpGroups | bloodhound-steroids.py:63-92 | a dump yields groups of two or more members; it fails iff a line is malformed, at a malformed line; an unopenable dump yields no groups and no failure |
| NtDump.RepeatedGroupScenario | bloodhound-steroids.py:81-92 | a and b both share h1 and both share h2: [a, b] is emitted twice |
| NtDump.SharedHashScenario | bloodhound-steroids.py:81-92 | carol and dave share a hash and eve has the empty hash: the only group is [carol, dave], and eve is only reported |
| Pairs.Qualify | bloodhound-steroids.py:52-53 | a node name is one character longer than raw name and domain together, and that character, right after the raw name, is `@` for users and `.` for computers |
| Pairs.QualifyLayout | bloodhound-steroids.py:150-151 | a node name starts with the raw name and ends with the domain |
| Pairs.QualifyInjective | bloodhound-steroids.py:150-151 | within one domain, raw names are equal iff their node names are |
| Pairs.GroupCalls | bloodhound-steroids.py:94-97 | a group gets one writer call per member occurrence |
| Pairs.MemberCalls | bloodhound-steroids.py:95-97 | one writer call per listed member |
| Pairs.QualifyAll | bloodhound-steroids.py:97 | one node name per raw name |
| Pairs.QualifyAllAt | bloodhound-steroids.py:97 | the qualified peer list keeps the order of the raw names, qualifying each in place |
| Pairs.MemberCallAt | bloodhound-steroids.py:94-97 | the call for the i-th member pairs its node name with the node names of every member whose raw name differs from it, in group order |
| Pairs.CallWrites | bloodhound-steroids.py:24-27 | one write per peer |
| Pairs.Writes | bloodhound-steroids.py:94-97 | the calls attempt as many writes as they have peers in total |
| Pairs.CallWriteAt | bloodhound-steroids.py:24-27 | a call's j-th write joins its subject with its j-th peer |
| Pairs.GroupWritesSound | bloodhound-steroids.py:51-53 | every write for a group joins the node names of two different members |
| Pairs.GroupWritesComplete | bloodhound-steroids.py:51-53 | every ordered pair of different members is written |
| Pairs.GroupWritesExactly | bloodhound-steroids.py:149-151 | the writes for a group are exactly the ordered pairs of different members |
| Pairs.NoSelfWrites | bloodhound-steroids.py:53 | no write has the same node-name string at both ends |
| Pairs.CaseVariantsPaired | bloodhound-steroids.py:18-19 | raw names differing only in case, such as bob and BOB, are paired with each other, although the upper-cased match sends both ends to one database node |
| Pairs.PeerCount | bloodhound-steroids.py:96-97 | the i-th member's call has one peer per group entry that is not a copy of that member |
| Pairs.AttemptCount | bloodhound-steroids.py:149-151 | a group of N distinct names makes exactly N*(N-1) write attempts |
| Pairs.EnumerationOrderIrrelevant | bloodhound-steroids.py:147-151 | any two orders of the same deduplicated set attempt the same set of writes |
| Pairs.ScenarioPeers | bloodhound-steroids.py:96-97 | for the bucket bob, bob, amy, bob's peers are amy alone and amy's peers are both copies of bob |
| Pairs.DuplicateMemberScenario | bloodhound-steroids.py:94-97 | a username listed twice in a bucket gets its own call each time, and the other member is paired with both copies |
| EdgeWriter.LastSuccess | bloodhound-steroids.py:24-31 | a writer returns 0 when no write succeeded, and otherwise a record count returned by one of its writes |
| EdgeWriter.LastSuccessIsLast | bloodhound-steroids.py:121-129 | when some write succeeded, the writer returns the record count of the last successful write |
| EdgeWriter.LastSuccessStep | bloodhound-steroids.py:121-128 | a failed write leaves the counter unchanged; a successful write overwrites it |
| EdgeWriter.LastSuccessAtMostSum | bloodhound-steroids.py:24-31 | a writer's return value never exceeds the sum of its writes' record counts |
| EdgeWriter.CounterIsNotASum | bloodhound-steroids.py:28 | two successful one-record writes return 1, while a sum would give 2 |
| EdgeWriter.InsertEdges | bloodhound-steroids.py:14-31 | a writer call writes subject-to-peer once per peer, in peer order, and returns the last successful write's count |
| EdgeWriter.UpdatedAtMostSum | bloodhound-steroids.py:51-53 | the caller's total never exceeds the sum of all record counts |
| EdgeWriter.Updated | bloodhound-steroids.py:94-97 | the caller's `updated +=` total is 0 when every write fails |
| EdgeWriter.RunCalls | bloodhound-steroids.py:94-97 | the caller's loop attempts every call's writes in order and sums the per-call return values |
| Runs.ListRun | bloodhound-steroids.py:33-55 | a list-file run makes N*(N-1) writes for N distinct identifiers, exactly one per ordered pair of different identifiers, none with the same node-name string at both ends; its total is bounded by the sum of record counts, and is 0 when every write fails |
| Runs.DumpCalls | bloodhound-steroids.py:94-97 | one writer call per member occurrence over all emitted groups |
| Runs.DumpCallsWrites | bloodhound-steroids.py:94-97 | a dump write is attempted iff it pairs two members of one emitted group |
| Runs.DumpNoSelfWrites | bloodhound-steroids.py:94-97 | no dump write has the same node-name string at both ends |
| Runs.DumpWritesSound | bloodhound-steroids.py:81-97 | every dump write joins two different usernames sharing a hash |
| Runs.DumpWritesComplete | bloodhound-steroids.py:81-97 | every pair of different usernames sharing a hash, the empty-password hash included, is written |
| Runs.DumpWritesShareHash | bloodhound-steroids.py:81-97 | the dump path writes exactly the pairs of different usernames that share a hash, including the empty-password hash |
| Runs.DumpRun | bloodhound-steroids.py:57-99 | a dump run stops at the first malformed line, writes nothing for an unopenable file, never writes the same node-name string at both ends, and reports a total bounded by the record counts |
| Runs.DumpRunWrites | bloodhound-steroids.py:57-99 | for a well-formed dump, the run's writes are exactly the shared-hash pairs of its entries |
| Dispatcher.Dispatch | bloodhound-steroids.py:180-236 | `--list` gives exit 0; `samepass` runs iff there is a host, a non-empty domain and exactly one of user lists and dump file; `samelocaladmin` runs iff there is a host, a non-empty domain and a computer list; anything else gives exit 1 |

## Left out

- The Neo4j driver, its sessions and the Cypher text are left out. This
  includes the `toUpper` name matching and the edge creation. Each write is
  reduced to its outcome (`EdgeWriter.Outcome`), supplied as an input sequence.
- Opening files and printing open errors are left out. A file is given as its
  lines, or `None` when it could not be opened.
- A read or decode error while iterating an opened file is left out. The
  loops at lines 43-47, 68-79 and 141-145 run in the `else:` branch, outside
  the `except`, so such an error aborts the whole run. The model treats every
  opened file as its complete list of lines.
- Errors from `with driver.session()` (lines 25 and 122) are left out. The
  session is opened and closed outside the `try`, so such an error aborts the
  whole run. An `Outcome` only covers errors inside the `try`.
- Pairs.NoSelfWrites, Runs.DumpNoSelfWrites, Runs.ListRun and Runs.DumpRun
  compare node names as strings. The database matches them after `toUpper`
  (lines 18-19 and 115-116), so raw names differing only in case, such as
  `bob` and `BOB`, give writes whose two ends are the same database node
  (`Pairs.CaseVariantsPaired`). Upper-casing is not modelled.
- Splitting a file's text into lines is left out. Lines are given as Python's
  file iteration would yield them.
- argparse and the help text are left out.
- The bolt URI and the `int(options.port)` conversion (line 201) are left out.
  A non-numeric port would raise there, after the host check.
- Logging configuration is left out.
- The driver construction at line 215 is left out. It happens before the
  module-specific checks, and its failures are not modelled.
- `do_samepass` (lines 101-109) adds the totals of the user-list path and the
  dump path. The dispatcher never lets both run together, so the model runs
  only the selected one.
- Printing of `Updated : N`, of query text and of exceptions is left out. The
  total and the decisions are returned instead.
- The process exit status after a module has run is left out: 0 normally, and 1
  when a malformed dump line raises. The model returns `Failure(i)` from
  `Runs.DumpRun` instead.
- The global `options.domain` is passed as an explicit `domain` parameter.
- Runs.ListRun and Runs.DumpRun require exactly one outcome per attempted
  write. The database is abstracted as that sequence of outcomes, so its length
  is fixed by the writes the run makes.
