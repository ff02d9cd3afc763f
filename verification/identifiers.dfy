/** Reading user-list and computer-list files: every line is right-stripped, lines
    that strip to nothing are dropped, and the survivors of all files are pooled
    and then deduplicated (bloodhound-steroids.py, do_samepass_user_file and
    do_samelocaladmin). */
module IdentifierFiles {
  import opened Wrappers
  import opened Text
  import opened Seqs

  /** One file named on the command line: the lines Python's file iteration yields
      (line terminators included), or None when opening the file raised. */
  type FileLines = Option<seq<string>>

  /** The identifiers one file contributes, in file order: each one is a
      non-empty line with its trailing whitespace removed. */
  function CleanLines(lines: seq<string>): (ids: seq<string>)
    ensures |ids| <= |lines|
    ensures forall i :: 0 <= i < |ids| ==> ids[i] != [] && RightTrimmed(ids[i])
    decreases |lines|
  {
    if lines == [] then []
    else
      var clean := RStrip(lines[|lines| - 1]);
      CleanLines(lines[..|lines| - 1]) + (if |clean| > 0 then [clean] else [])
  }

  /** `x` is what some line of `lines` right-strips to. */
  ghost predicate StripsFrom(lines: seq<string>, x: string) {
    exists l :: l in lines && RStrip(l) == x
  }

  /** A string is kept exactly when it is non-empty and is the right-stripped
      form of some line: no kept line is lost, nothing else gets in. */
  lemma {:induction false} CleanLinesMembers(lines: seq<string>, x: string)
    ensures x in CleanLines(lines) <==> x != [] && StripsFrom(lines, x)
    decreases |lines|
  {
    if lines != [] {
      var init := lines[..|lines| - 1];
      var last := lines[|lines| - 1];
      assert lines == init + [last];
      CleanLinesMembers(init, x);
      if StripsFrom(lines, x) && !StripsFrom(init, x) {
        var l :| l in lines && RStrip(l) == x;
        assert l == last;
      }
      if StripsFrom(init, x) {
        var l :| l in init && RStrip(l) == x;
        assert l in lines;
      }
      if RStrip(last) == x {
        assert last in lines;
      }
    }
  }

  /** Cleaning keeps file order: the lines of a concatenation clean to the
      concatenation of the cleaned parts. */
  lemma {:induction false} CleanLinesConcat(a: seq<string>, b: seq<string>)
    ensures CleanLines(a + b) == CleanLines(a) + CleanLines(b)
    decreases |b|
  {
    if b == [] {
      assert a + b == a;
    } else {
      var init := b[..|b| - 1];
      assert (a + b)[..|a + b| - 1] == a + init;
      assert (a + b)[|a + b| - 1] == b[|b| - 1];
      CleanLinesConcat(a, init);
    }
  }

  /** An identifier that is already clean is kept as it is. */
  lemma CleanLinesSingle(s: string)
    requires s != [] && RightTrimmed(s)
    ensures CleanLines([s]) == [s]
  {
    assert [s][..0] == [];
  }

  /** Cleaning is stable: cleaning already-clean identifiers changes nothing. */
  lemma {:induction false} CleanLinesIdempotent(lines: seq<string>)
    ensures CleanLines(CleanLines(lines)) == CleanLines(lines)
    decreases |lines|
  {
    if lines != [] {
      var init := lines[..|lines| - 1];
      var clean := RStrip(lines[|lines| - 1]);
      var tail: seq<string> := if |clean| > 0 then [clean] else [];
      assert CleanLines(lines) == CleanLines(init) + tail;
      CleanLinesIdempotent(init);
      CleanLinesConcat(CleanLines(init), tail);
      if |clean| > 0 {
        CleanLinesSingle(clean);
      }
    }
  }

  /** The pooled identifiers of every file that could be opened, in command-line
      order; a file that could not be opened contributes nothing. */
  function Collect(files: seq<FileLines>): (ids: seq<string>)
    ensures forall i :: 0 <= i < |ids| ==> ids[i] != [] && RightTrimmed(ids[i])
    decreases |files|
  {
    if files == [] then []
    else
      var last := files[|files| - 1];
      Collect(files[..|files| - 1]) + (if last.Some? then CleanLines(last.value) else [])
  }

  /** `x` is kept from the `k`-th file. */
  ghost predicate KeptFrom(files: seq<FileLines>, x: string) {
    exists k :: 0 <= k < |files| && files[k].Some? && x in CleanLines(files[k].value)
  }

  /** The pool holds exactly what some openable file keeps; unopenable files
      contribute nothing. */
  lemma {:induction false} CollectMembers(files: seq<FileLines>, x: string)
    ensures x in Collect(files) <==> KeptFrom(files, x)
    decreases |files|
  {
    if files != [] {
      var init := files[..|files| - 1];
      var last := files[|files| - 1];
      CollectMembers(init, x);
      if KeptFrom(files, x) && !KeptFrom(init, x) {
        var k :| 0 <= k < |files| && files[k].Some? && x in CleanLines(files[k].value);
        assert k == |init|;
      }
      if KeptFrom(init, x) {
        var k :| 0 <= k < |init| && init[k].Some? && x in CleanLines(init[k].value);
        assert files[k] == init[k];
      }
      if last.Some? && x in CleanLines(last.value) {
        assert files[|init|] == last;
      }
    }
  }

  /** `x` is the right-stripped form of a line of some openable file. */
  ghost predicate ReadFrom(files: seq<FileLines>, x: string) {
    exists k :: 0 <= k < |files| && files[k].Some? && StripsFrom(files[k].value, x)
  }

  /** The deduplicated identifier list (`list(set(...))`) holds every distinct
      non-empty right-stripped line of an openable file exactly once, and
      nothing else. */
  lemma IdentifierListExactlyOnce(files: seq<FileLines>, order: seq<string>, x: string)
    requires IsEnumeration(order, Collect(files))
    ensures Count(order, x) == 1 <==> x != [] && ReadFrom(files, x)
    ensures Count(order, x) <= 1
  {
    EnumerationCount(order, Collect(files), x);
    CollectMembers(files, x);
    if x in Collect(files) {
      var k :| 0 <= k < |files| && files[k].Some? && x in CleanLines(files[k].value);
      CleanLinesMembers(files[k].value, x);
    }
    if x != [] && ReadFrom(files, x) {
      var k :| 0 <= k < |files| && files[k].Some? && StripsFrom(files[k].value, x);
      CleanLinesMembers(files[k].value, x);
    }
  }
}
