/**
 * SuiteInfo: reads python-apt's distribution template files line by line
 * and builds a table from a suite's description to the suite's name.
 *
 * A file is the sequence of lines QFile::readLine returns (each still
 * carrying its line break); the template directory is `None` when it does
 * not exist and otherwise the files it lists, in listing order.
 */
module Suites {
  import opened Options
  import opened Strings

  /** `line.startsWith('#')`. */
  predicate IsComment(line: string)
  {
    |line| > 0 && line[0] == '#'
  }

  /** The key of an accepted line and its trimmed value. */
  datatype Field = Field(key: string, value: string)

  /**
   * The field a line contributes: none for a comment and none unless the
   * line has exactly one ':'; otherwise the untrimmed text before the ':'
   * and the trimmed text after it.
   */
  function Accept(line: string): (r: Option<Field>)
    ensures r.Some? <==> !IsComment(line) && Count(line, ':') == 1
    ensures r.Some? ==> var k := r.value.key;
      ':' !in k && |k| < |line| && line[..|k|] == k && line[|k|] == ':' &&
      r.value.value == Trim(line[|k| + 1..])
  {
    if IsComment(line) then None
    else
      var comps := Split(line, ':');
      if |comps| != 2 then None
      else
        SplitOneSeparator(line, ':');
        Some(Field(comps[0], Trim(comps[1])))
  }

  /** The loop's state: the running `suite` and `description` and the table. */
  datatype ParseState = ParseState(suite: string, description: string, hash: map<string, string>)

  /** One line: an accepted line may update suite or description, then records description -> suite. */
  function Step(st: ParseState, line: string): ParseState
  {
    match Accept(line)
    case None => st
    case Some(f) =>
      var suite := if f.key == "Suite" then f.value else st.suite;
      var description := if f.key == "Description" then f.value else st.description;
      ParseState(suite, description, st.hash[description := suite])
  }

  /** The state after the lines, in order. */
  function Parse(st: ParseState, lines: seq<string>): ParseState
    decreases |lines|
  {
    if lines == [] then st else Step(Parse(st, lines[..|lines| - 1]), lines[|lines| - 1])
  }

  /** Each file starts with an empty suite and description, on the table built so far. */
  function Start(hash: map<string, string>): ParseState
  {
    ParseState("", "", hash)
  }

  /** SuiteInfo::readFile's effect on the table. */
  function ParseFile(hash: map<string, string>, lines: seq<string>): map<string, string>
  {
    Parse(Start(hash), lines).hash
  }

  /** The constructor's effect: every listed file in turn. */
  function ParseFiles(hash: map<string, string>, files: seq<seq<string>>): map<string, string>
    decreases |files|
  {
    if files == [] then hash else ParseFile(ParseFiles(hash, files[..|files| - 1]), files[|files| - 1])
  }

  /** The value of the last accepted line whose key is exactly `key`, or `dflt` if there is none. */
  function LastValue(lines: seq<string>, key: string, dflt: string): string
    decreases |lines|
  {
    if lines == [] then dflt
    else
      var f := Accept(lines[|lines| - 1]);
      if f.Some? && f.value.key == key then f.value.value
      else LastValue(lines[..|lines| - 1], key, dflt)
  }

  /** Some line of `lines` is accepted. */
  predicate HasAcceptedLine(lines: seq<string>)
  {
    exists i :: 0 <= i < |lines| && Accept(lines[i]).Some?
  }

  lemma {:induction false} ParseConcat(st: ParseState, a: seq<string>, b: seq<string>)
    ensures Parse(st, a + b) == Parse(Parse(st, a), b)
    decreases |b|
  {
    if b == [] {
      assert a + b == a;
    } else {
      var b' := b[..|b| - 1];
      assert (a + b)[..|a + b| - 1] == a + b';
      ParseConcat(st, a, b');
    }
  }

  /** A comment line, or one without exactly one ':', can be removed without changing anything. */
  lemma IgnoredLineChangesNothing(st: ParseState, a: seq<string>, line: string, b: seq<string>)
    requires Accept(line).None?
    ensures Parse(st, a + [line] + b) == Parse(st, a + b)
  {
    ParseConcat(st, a + [line], b);
    ParseConcat(st, a, b);
    assert (a + [line])[..|a|] == a;
  }

  /** A file with no accepted line changes nothing at all. */
  lemma {:induction false} NoAcceptedLineNoChange(st: ParseState, lines: seq<string>)
    requires !HasAcceptedLine(lines)
    ensures Parse(st, lines) == st
    decreases |lines|
  {
    if lines != [] {
      var prefix := lines[..|lines| - 1];
      assert !HasAcceptedLine(prefix) by {
        forall i | 0 <= i < |prefix|
          ensures Accept(prefix[i]).None?
        {
          assert prefix[i] == lines[i];
        }
      }
      NoAcceptedLineNoChange(st, prefix);
    }
  }

  /**
   * The running values are those of the last exact `Suite` and
   * `Description` lines; keys are not trimmed, so " Suite" or "suite" do
   * not count.
   */
  lemma {:induction false} ParseTracksLastValues(st: ParseState, lines: seq<string>)
    ensures Parse(st, lines).suite == LastValue(lines, "Suite", st.suite)
    ensures Parse(st, lines).description == LastValue(lines, "Description", st.description)
    decreases |lines|
  {
    if lines != [] {
      ParseTracksLastValues(st, lines[..|lines| - 1]);
    }
  }

  /** After any accepted line the table maps the current description to the current suite. */
  lemma {:induction false} ParseRecordsCurrentPair(st: ParseState, lines: seq<string>)
    requires HasAcceptedLine(lines)
    ensures var r := Parse(st, lines);
      r.description in r.hash && r.hash[r.description] == r.suite
    decreases |lines|
  {
    var n := |lines|;
    var prefix := lines[..n - 1];
    if Accept(lines[n - 1]).None? {
      var i :| 0 <= i < n && Accept(lines[i]).Some?;
      assert i < n - 1 && prefix[i] == lines[i];
      ParseRecordsCurrentPair(st, prefix);
    }
  }

  /**
   * A file with an accepted line leaves its last description mapped to its
   * last suite (each empty if the file has no such line).
   */
  lemma FileRecordsLastPair(hash: map<string, string>, lines: seq<string>)
    requires HasAcceptedLine(lines)
    ensures var d := LastValue(lines, "Description", "");
      d in ParseFile(hash, lines) && ParseFile(hash, lines)[d] == LastValue(lines, "Suite", "")
  {
    ParseRecordsCurrentPair(Start(hash), lines);
    ParseTracksLastValues(Start(hash), lines);
  }

  /** The table is only ever inserted into or overwritten, never shrunk. */
  lemma {:induction false} ParseNeverShrinks(st: ParseState, lines: seq<string>)
    ensures st.hash.Keys <= Parse(st, lines).hash.Keys
    decreases |lines|
  {
    if lines != [] {
      ParseNeverShrinks(st, lines[..|lines| - 1]);
    }
  }

  /** Across files, too, no description is lost. */
  lemma {:induction false} ParseFilesNeverShrinks(hash: map<string, string>, files: seq<seq<string>>)
    ensures hash.Keys <= ParseFiles(hash, files).Keys
    decreases |files|
  {
    if files != [] {
      var before := ParseFiles(hash, files[..|files| - 1]);
      ParseFilesNeverShrinks(hash, files[..|files| - 1]);
      ParseNeverShrinks(Start(before), files[|files| - 1]);
    }
  }

  /**
   * A later Suite line re-maps the description still current: after
   * "Suite: a", "Description: A", "Suite: b" the description A is mapped
   * to b, not to a.
   */
  lemma LaterSuiteRemapsDescription(st: ParseState, l1: string, l2: string, l3: string, a: string, d: string, b: string)
    requires Accept(l1) == Some(Field("Suite", a))
    requires Accept(l2) == Some(Field("Description", d))
    requires Accept(l3) == Some(Field("Suite", b))
    ensures var r := Parse(st, [l1, l2, l3]);
      d in r.hash && r.hash[d] == b
  {
    var s1 := Step(st, l1);
    var s2 := Step(s1, l2);
    StepOnSuiteLine(st, l1, a);
    StepOnDescriptionLine(s1, l2, d);
    StepOnSuiteLine(s2, l3, b);
    ParseThreeLines(st, l1, l2, l3);
  }

  lemma ParseThreeLines(st: ParseState, l1: string, l2: string, l3: string)
    ensures Parse(st, [l1, l2, l3]) == Step(Step(Step(st, l1), l2), l3)
  {
    assert [l1, l2, l3][..2] == [l1, l2];
    assert [l1, l2][..1] == [l1];
    assert [l1][..0] == [];
    assert Parse(st, [l1]) == Step(st, l1);
    assert Parse(st, [l1, l2]) == Step(Parse(st, [l1]), l2);
    assert Parse(st, [l1, l2, l3]) == Step(Parse(st, [l1, l2]), l3);
  }

  lemma StepOnSuiteLine(st: ParseState, line: string, v: string)
    requires Accept(line) == Some(Field("Suite", v))
    ensures Step(st, line) == ParseState(v, st.description, st.hash[st.description := v])
  {
  }

  lemma StepOnDescriptionLine(st: ParseState, line: string, v: string)
    requires Accept(line) == Some(Field("Description", v))
    ensures Step(st, line) == ParseState(st.suite, v, st.hash[v := st.suite])
  {
  }

  /**
   * Any other accepted line ("Component: main", "RepositoryType: deb")
   * leaves suite and description as they are but still records the
   * current pair.
   */
  lemma StepOnOtherLine(st: ParseState, line: string, f: Field)
    requires Accept(line) == Some(f) && f.key != "Suite" && f.key != "Description"
    ensures Step(st, line) == ParseState(st.suite, st.description, st.hash[st.description := st.suite])
  {
  }

  class SuiteInfo {
    /** description -> suite */
    var suiteHash: map<string, string>

    /** Reads every listed template file; a missing directory leaves the table empty. */
    constructor (templates: Option<seq<seq<string>>>)
      ensures templates.None? ==> suiteHash == map[]
      ensures templates.Some? ==> suiteHash == ParseFiles(map[], templates.value)
    {
      suiteHash := map[];
      new;
      if templates.Some? {
        var files := templates.value;
        var i := 0;
        while i < |files|
          invariant 0 <= i <= |files|
          invariant suiteHash == ParseFiles(map[], files[..i])
        {
          assert files[..i + 1][..i] == files[..i];
          ReadFile(files[i]);
          i := i + 1;
        }
        assert files[..|files|] == files;
      }
    }

    /** SuiteInfo::readFile: one pass over the file's lines with its own suite and description. */
    method ReadFile(lines: seq<string>)
      modifies this
      ensures suiteHash == ParseFile(old(suiteHash), lines)
    {
      var suite := "";
      var description := "";
      var i := 0;
      while i < |lines|
        invariant 0 <= i <= |lines|
        invariant Parse(Start(old(suiteHash)), lines[..i]) == ParseState(suite, description, suiteHash)
      {
        var line := lines[i];
        i := i + 1;
        assert lines[..i][..i - 1] == lines[..i - 1];
        if IsComment(line) {
          continue;
        }
        var comps := Split(line, ':');
        if |comps| != 2 {
          continue;
        }
        var key := comps[0];
        var value := Trim(comps[1]);
        if key == "Suite" {
          suite := value;
        }
        if key == "Description" {
          description := value;
        }
        suiteHash := suiteHash[description := suite];
      }
      assert lines[..|lines|] == lines;
    }
  }
}
