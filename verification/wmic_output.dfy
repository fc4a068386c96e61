/**
 Parsing the captured output of `wmic product get name` into the sorted list
 of installed application names (`__read_file_applications`).

 The output is right-stripped, split at every blank line (`"\n\n"`), blocks
 of length zero are dropped, the rest are stripped, the first (the column
 header) is dropped and the remainder is sorted. The length test comes
 before the strip, so a block of whitespace alone survives as `""`.
 */
module WmicOutput {
  import opened StrStrip
  import opened StrSplit
  import opened OrdinalSort

  /** The record separator of the enumeration output: a blank line. */
  const RecordSeparator: string := "\n\n"

  /** `output.rstrip().split("\n\n")`. */
  function Blocks(output: string): (blocks: seq<string>)
    ensures |blocks| >= 1
    ensures AllWhitespace(output) ==> blocks == [""]
  {
    Split(RStrip(output), RecordSeparator)
  }

  /** The blocks rejoin to the right-stripped output and none of them
      contains a blank line. */
  lemma BlocksRejoin(output: string)
    ensures Join(Blocks(output), RecordSeparator) == RStrip(output)
    ensures forall j :: 0 <= j < |Blocks(output)| ==> !Occurs(Blocks(output)[j], RecordSeparator)
  {
    JoinSplit(RStrip(output), RecordSeparator);
  }

  /** `[b for b in blocks if len(b)]`: the blocks of non-zero length, in order. */
  function NonEmpty(blocks: seq<string>): (r: seq<string>)
    ensures |r| <= |blocks|
    ensures forall j :: 0 <= j < |r| ==> |r[j]| > 0
    decreases |blocks|
  {
    if |blocks| == 0 then []
    else if |blocks[0]| > 0 then [blocks[0]] + NonEmpty(blocks[1..])
    else NonEmpty(blocks[1..])
  }

  /** The filter keeps every non-empty block as often as it occurs and drops
      every empty one. */
  lemma {:induction false} NonEmptyCounts(blocks: seq<string>)
    ensures forall b :: multiset(NonEmpty(blocks))[b] == if |b| > 0 then multiset(blocks)[b] else 0
    decreases |blocks|
  {
    if |blocks| > 0 {
      NonEmptyCounts(blocks[1..]);
      assert blocks == [blocks[0]] + blocks[1..];
    }
  }

  /** The filter keeps the blocks in order: filtering a concatenation
      filters each part and concatenates the results. */
  lemma {:induction false} NonEmptyAppend(xs: seq<string>, ys: seq<string>)
    ensures NonEmpty(xs + ys) == NonEmpty(xs) + NonEmpty(ys)
    decreases |xs|
  {
    if |xs| > 0 {
      assert (xs + ys)[0] == xs[0];
      assert (xs + ys)[1..] == xs[1..] + ys;
      NonEmptyAppend(xs[1..], ys);
    } else {
      assert xs + ys == ys;
    }
  }

  /** The first block kept is the first block of non-zero length. */
  lemma {:induction false} FirstKeptBlock(blocks: seq<string>)
    requires |NonEmpty(blocks)| > 0
    ensures exists m :: && 0 <= m < |blocks| && NonEmpty(blocks)[0] == blocks[m] && |blocks[m]| > 0
                        && forall l :: 0 <= l < m ==> |blocks[l]| == 0
    decreases |blocks|
  {
    if |blocks[0]| > 0 {
      assert NonEmpty(blocks)[0] == blocks[0];
    } else {
      var rest := blocks[1..];
      FirstKeptBlock(rest);
      var m :| && 0 <= m < |rest| && NonEmpty(rest)[0] == rest[m] && |rest[m]| > 0
               && forall l :: 0 <= l < m ==> |rest[l]| == 0;
      assert blocks[m + 1] == rest[m];
      forall l | 0 <= l < m + 1 ensures |blocks[l]| == 0 {
        if l > 0 {
          assert blocks[l] == rest[l - 1];
        }
      }
    }
  }

  /** The header that the parser drops is the first block of non-zero
      length; every block before it is empty. */
  lemma HeaderIsFirstNonEmptyBlock(output: string)
    requires |Records(output)| > 0
    ensures exists m :: && 0 <= m < |Blocks(output)| && Records(output)[0] == Blocks(output)[m]
                        && |Blocks(output)[m]| > 0
                        && forall l :: 0 <= l < m ==> |Blocks(output)[l]| == 0
  {
    FirstKeptBlock(Blocks(output));
  }

  /** The non-empty blocks of the output, header included. Which blocks
      are kept, and how often, is `NonEmptyCounts`. */
  function Records(output: string): (records: seq<string>)
    ensures |records| <= |Blocks(output)|
    ensures forall j :: 0 <= j < |records| ==> |records[j]| > 0
  {
    NonEmpty(Blocks(output))
  }

  /** The stripped records after the header, in output order. */
  function Entries(output: string): (entries: seq<string>)
    ensures |entries| == if |Records(output)| == 0 then 0 else |Records(output)| - 1
  {
    var stripped := StripEach(Records(output));
    if |stripped| == 0 then [] else stripped[1..]
  }

  /** Each entry is the stripped record one past its own position: the
      header is the record that is dropped. */
  lemma EntryIsStrippedRecord(output: string, i: int)
    requires 0 <= i < |Entries(output)|
    ensures i + 1 < |Records(output)| && Entries(output)[i] == Strip(Records(output)[i + 1])
  {
  }

  /** The installed application names: the stripped records after the
      header, in ascending ordinal order. There is one per record but the
      header, so an output without records gives none. */
  function ParseApplications(output: string): (apps: seq<string>)
    ensures Sorted(apps)
    ensures multiset(apps) == multiset(Entries(output))
    ensures |apps| == if |Records(output)| == 0 then 0 else |Records(output)| - 1
  {
    var apps := Sort(Entries(output));
    assert |apps| == |multiset(apps)| == |Entries(output)|;
    apps
  }

  lemma SliceOfSlice(s: string, a: int, b: int, c: int, d: int)
    requires 0 <= a <= b <= |s| && 0 <= c <= d <= b - a
    ensures s[a..b][c..d] == s[a + c..a + d]
  {
    forall t | 0 <= t < d - c ensures s[a..b][c..d][t] == s[a + c..a + d][t] {
    }
  }

  /** An infix of a string without `sep` is without `sep` as well. */
  lemma NoOccurrenceInInfix(s: string, k: int, r: string, sep: string)
    requires 0 <= k && k + |r| <= |s| && s[k..k + |r|] == r
    requires !Occurs(s, sep)
    ensures !Occurs(r, sep)
  {
    forall i | 0 <= i ensures !MatchesAt(r, sep, i) {
      if i + |sep| <= |r| {
        SliceOfSlice(s, k, k + |r|, i, i + |sep|);
        assert !MatchesAt(s, sep, k + i);
      }
    }
  }

  /** No record contains a blank line: records are blocks, and the split
      leaves none in a block. */
  lemma RecordHasNoSeparator(output: string, j: int)
    requires 0 <= j < |Records(output)|
    ensures !Occurs(Records(output)[j], RecordSeparator)
  {
    var blocks := Blocks(output);
    var records := NonEmpty(blocks);
    BlocksRejoin(output);
    NonEmptyCounts(blocks);
    var b := records[j];
    assert b in multiset(records);
    var m :| 0 <= m < |blocks| && blocks[m] == b;
  }

  /** A name is listed exactly when it is one of the entries. */
  lemma ListedIffEntry(output: string, a: string)
    ensures a in ParseApplications(output) <==> a in Entries(output)
  {
    assert a in multiset(ParseApplications(output)) <==> a in multiset(Entries(output));
  }

  /** A stripped block without a blank line is trimmed and still without one. */
  lemma StrippedBlockIsName(b: string)
    requires !Occurs(b, RecordSeparator)
    ensures IsTrimmed(Strip(b)) && !Occurs(Strip(b), RecordSeparator)
  {
    var a := Strip(b);
    var k := |RStrip(b)| - |a|;
    assert 0 <= k && k + |a| <= |b| && b[k..k + |a|] == a by {
      assert Surrounds(b, k, a);
    }
    NoOccurrenceInInfix(b, k, a, RecordSeparator);
  }

  lemma EntryIsTrimmed(output: string, i: int)
    requires 0 <= i < |Entries(output)|
    ensures IsTrimmed(Entries(output)[i]) && !Occurs(Entries(output)[i], RecordSeparator)
  {
    EntryIsStrippedRecord(output, i);
    RecordHasNoSeparator(output, i + 1);
    StrippedBlockIsName(Records(output)[i + 1]);
  }

  /** Every application name is trimmed and has no blank line inside. */
  lemma ApplicationsAreTrimmed(output: string)
    ensures forall a :: a in ParseApplications(output) ==> IsTrimmed(a) && !Occurs(a, RecordSeparator)
  {
    forall a | a in ParseApplications(output) ensures IsTrimmed(a) && !Occurs(a, RecordSeparator) {
      ListedIffEntry(output, a);
      var entries := Entries(output);
      var i :| 0 <= i < |entries| && entries[i] == a;
      EntryIsTrimmed(output, i);
    }
  }

  /** An entry is `""` exactly when some record after the header is
      whitespace alone: such records are kept, then stripped to nothing. */
  lemma EmptyNameFromBlankRecord(output: string)
    ensures "" in ParseApplications(output)
        <==> exists j :: 1 <= j < |Records(output)| && AllWhitespace(Records(output)[j])
  {
    ListedIffEntry(output, "");
    if "" in Entries(output) {
      EmptyEntryHasBlankRecord(output);
    }
    if exists j :: 1 <= j < |Records(output)| && AllWhitespace(Records(output)[j]) {
      var j :| 1 <= j < |Records(output)| && AllWhitespace(Records(output)[j]);
      BlankRecordGivesEmptyEntry(output, j);
    }
  }

  lemma EmptyEntryHasBlankRecord(output: string)
    requires "" in Entries(output)
    ensures exists j :: 1 <= j < |Records(output)| && AllWhitespace(Records(output)[j])
  {
    var i :| 0 <= i < |Entries(output)| && Entries(output)[i] == "";
    EntryIsStrippedRecord(output, i);
    StripEmptyIff(Records(output)[i + 1]);
  }

  lemma BlankRecordGivesEmptyEntry(output: string, j: int)
    requires 1 <= j < |Records(output)| && AllWhitespace(Records(output)[j])
    ensures "" in Entries(output)
  {
    var entries := Entries(output);
    EntryIsStrippedRecord(output, j - 1);
    assert entries[j - 1] == "" by {
      StripBlank(Records(output)[j]);
    }
  }

  /** Output that is whitespace alone, the empty output among it, lists no
      application. */
  lemma BlankOutputHasNoApplications(output: string)
    requires AllWhitespace(output)
    ensures ParseApplications(output) == []
  {
    assert Blocks(output) == [""];
    assert NonEmpty([""][1..]) == [];
  }

  // ---------------------------------------------------------------------------
  // Rendering: the output the command prints for a header and a list of names

  /** A record the command can print: non-empty, trimmed, no blank line inside. */
  ghost predicate IsRecord(x: string) {
    |x| > 0 && IsTrimmed(x) && !Occurs(x, RecordSeparator)
  }

  /** The header and one record per name, each followed by a blank line. */
  function Render(header: string, names: seq<string>): string {
    Join([header] + names, RecordSeparator) + RecordSeparator
  }

  /** A record is never cut early by the blank line that follows it. */
  lemma RecordIsSeparable(p: string)
    requires IsRecord(p)
    ensures Separable(p, RecordSeparator)
  {
    var s := p + RecordSeparator;
    forall i | 0 <= i < |p| ensures !MatchesAt(s, RecordSeparator, i) {
      if i + 2 <= |p| {
        assert s[i..i + 2] == p[i..i + 2];
        assert !MatchesAt(p, RecordSeparator, i);
      } else {
        assert s[i] == p[|p| - 1];
        assert !IsWhitespace(s[i]);
      }
    }
  }

  /** A join ends with its last part. */
  lemma {:induction false} JoinEndsWithLast(parts: seq<string>, sep: string)
    requires |parts| >= 1
    ensures var j := Join(parts, sep); var last := parts[|parts| - 1];
            |last| <= |j| && j[|j| - |last|..] == last
    decreases |parts|
  {
    if |parts| > 1 {
      JoinEndsWithLast(parts[1..], sep);
    }
  }

  /** Right-stripping drops exactly the whitespace appended after a string
      that does not end in whitespace. */
  lemma RStripAppended(x: string, w: string)
    requires |x| > 0 && !IsWhitespace(x[|x| - 1])
    requires AllWhitespace(w)
    ensures RStrip(x + w) == x
  {
    var s := x + w;
    var r := RStrip(s);
    assert !IsWhitespace(s[|x| - 1]);
    assert forall i :: |x| <= i < |s| ==> IsWhitespace(s[i]) by {
      forall i | |x| <= i < |s| ensures IsWhitespace(s[i]) {
        assert s[i] == w[i - |x|];
      }
    }
    assert |r| == |x|;
  }

  lemma {:induction false} NonEmptyKeepsAll(blocks: seq<string>)
    requires forall j :: 0 <= j < |blocks| ==> |blocks[j]| > 0
    ensures NonEmpty(blocks) == blocks
    decreases |blocks|
  {
    if |blocks| > 0 {
      NonEmptyKeepsAll(blocks[1..]);
      assert [blocks[0]] + blocks[1..] == blocks;
    }
  }

  lemma StripEachTrimmed(lines: seq<string>)
    requires forall j :: 0 <= j < |lines| ==> IsTrimmed(lines[j])
    ensures StripEach(lines) == lines
  {
    forall j | 0 <= j < |lines| ensures StripEach(lines)[j] == lines[j] {
      StripTrimmed(lines[j]);
    }
  }

  /** The blocks of a rendered output are the header and the names. */
  lemma RenderBlocks(header: string, names: seq<string>)
    requires IsRecord(header)
    requires forall j :: 0 <= j < |names| ==> IsRecord(names[j])
    ensures Blocks(Render(header, names)) == [header] + names
  {
    var parts := [header] + names;
    assert forall j :: 0 <= j < |parts| ==> IsRecord(parts[j]) by {
      forall j | 0 <= j < |parts| ensures IsRecord(parts[j]) {
        if j > 0 { assert parts[j] == names[j - 1]; }
      }
    }
    RStripRender(parts);
    forall j | 0 <= j < |parts| ensures Separable(parts[j], RecordSeparator) {
      RecordIsSeparable(parts[j]);
    }
    SplitJoin(parts, RecordSeparator);
  }

  /** The trailing blank line of a rendered output is all that rstrip drops. */
  lemma RStripRender(parts: seq<string>)
    requires |parts| >= 1 && IsRecord(parts[|parts| - 1])
    ensures RStrip(Join(parts, RecordSeparator) + RecordSeparator) == Join(parts, RecordSeparator)
  {
    var joined := Join(parts, RecordSeparator);
    assert |joined| > 0 && !IsWhitespace(joined[|joined| - 1]) by {
      JoinEndsInRecord(parts);
    }
    assert AllWhitespace(RecordSeparator) by {
      SeparatorIsWhitespace();
    }
    RStripAppended(joined, RecordSeparator);
  }

  lemma SeparatorIsWhitespace()
    ensures AllWhitespace(RecordSeparator)
  {
    assert RecordSeparator[0] == '\n' && RecordSeparator[1] == '\n';
  }

  /** A join of records ends in the last character of the last record. */
  lemma JoinEndsInRecord(parts: seq<string>)
    requires |parts| >= 1
    requires IsRecord(parts[|parts| - 1])
    ensures var j := Join(parts, RecordSeparator); |j| > 0 && !IsWhitespace(j[|j| - 1])
  {
    var joined := Join(parts, RecordSeparator);
    var last := parts[|parts| - 1];
    JoinEndsWithLast(parts, RecordSeparator);
    assert joined[|joined| - 1] == joined[|joined| - |last|..][|last| - 1];
  }

  /** The entries of a rendered output are the names, in order. */
  lemma RenderEntries(header: string, names: seq<string>)
    requires IsRecord(header)
    requires forall j :: 0 <= j < |names| ==> IsRecord(names[j])
    ensures Entries(Render(header, names)) == names
  {
    var parts := [header] + names;
    RenderBlocks(header, names);
    assert forall j :: 0 <= j < |parts| ==> IsRecord(parts[j]) by {
      forall j | 0 <= j < |parts| ensures IsRecord(parts[j]) {
        if j > 0 { assert parts[j] == names[j - 1]; }
      }
    }
    NonEmptyKeepsAll(parts);
    StripEachTrimmed(parts);
    assert parts[1..] == names;
  }

  /** Parsing what the command prints for a header and a list of names gives
      back the names, sorted: the header is dropped and nothing else is. */
  lemma ParseRender(header: string, names: seq<string>)
    requires IsRecord(header)
    requires forall j :: 0 <= j < |names| ==> IsRecord(names[j])
    ensures ParseApplications(Render(header, names)) == Sort(names)
  {
    RenderEntries(header, names);
  }

  // ---------------------------------------------------------------------------
  // Concrete outputs

  /** A string without a line feed is never cut by the separator. */
  lemma NoLineFeedSeparable(p: string)
    requires forall i :: 0 <= i < |p| ==> p[i] != '\n'
    ensures Separable(p, RecordSeparator)
    ensures !Occurs(p, RecordSeparator)
  {
    forall i | 0 <= i < |p| ensures !MatchesAt(p + RecordSeparator, RecordSeparator, i) {
      assert (p + RecordSeparator)[i] == p[i];
    }
    forall i | 0 <= i ensures !MatchesAt(p, RecordSeparator, i) {
      if i < |p| {
        assert p[i] != '\n';
      }
    }
  }

  /** A record of whitespace alone, not even a line feed, between the
      header and a name passes the length test and is listed as `""`. */
  lemma BlankRecordListed(header: string, blank: string, name: string)
    requires IsRecord(header) && IsRecord(name)
    requires |blank| > 0 && AllWhitespace(blank)
    requires forall i :: 0 <= i < |blank| ==> blank[i] != '\n'
    ensures ParseApplications(Join([header, blank, name], RecordSeparator)) == ["", name]
  {
    var output := Join([header, blank, name], RecordSeparator);
    assert ParseApplications(output) == Sort(["", name]) by {
      BlankRecordEntries(header, blank, name);
    }
    assert Sorted(["", name]);
    SortSorted(["", name]);
  }

  lemma BlankRecordEntries(header: string, blank: string, name: string)
    requires IsRecord(header) && IsRecord(name)
    requires |blank| > 0 && AllWhitespace(blank)
    requires forall i :: 0 <= i < |blank| ==> blank[i] != '\n'
    ensures Entries(Join([header, blank, name], RecordSeparator)) == ["", name]
  {
    var output := Join([header, blank, name], RecordSeparator);
    BlankRecordBlocks(header, blank, name);
    NonEmptyKeepsAll([header, blank, name]);
    assert Records(output) == [header, blank, name];
    StripThree(header, blank, name);
  }

  lemma StripThree(header: string, blank: string, name: string)
    requires IsTrimmed(header) && IsTrimmed(name) && AllWhitespace(blank)
    ensures StripEach([header, blank, name]) == [header, "", name]
  {
    var lines := [header, blank, name];
    var r := StripEach(lines);
    ListOfThree(r);
    assert r[0] == header by {
      assert r[0] == Strip(lines[0]);
      StripTrimmed(header);
    }
    assert r[1] == "" by {
      assert r[1] == Strip(lines[1]);
      StripBlank(blank);
    }
    assert r[2] == name by {
      assert r[2] == Strip(lines[2]);
      StripTrimmed(name);
    }
  }

  lemma BlankRecordBlocks(header: string, blank: string, name: string)
    requires IsRecord(header) && IsRecord(name)
    requires forall i :: 0 <= i < |blank| ==> blank[i] != '\n'
    ensures Blocks(Join([header, blank, name], RecordSeparator)) == [header, blank, name]
  {
    var parts := [header, blank, name];
    var output := Join(parts, RecordSeparator);
    JoinEndsInRecord(parts);
    RStripAppended(output, "");
    assert output + "" == output;
    RecordIsSeparable(header);
    NoLineFeedSeparable(blank);
    RecordIsSeparable(name);
    SplitJoin(parts, RecordSeparator);
  }

  /** The three-record output written out. */
  lemma RenderTwoNames()
    ensures Render("Name", ["Foo", "Bar"]) == "Name\n\nFoo\n\nBar\n\n"
  {
    var sep := RecordSeparator;
    var parts := ["Name"] + ["Foo", "Bar"];
    assert parts[1..] == ["Foo", "Bar"];
    assert ["Foo", "Bar"][1..] == ["Bar"];
    assert Join(["Bar"], sep) == "Bar";
    assert Join(["Foo", "Bar"], sep) == "Foo" + sep + "Bar";
    assert Join(parts, sep) == "Name" + sep + ("Foo" + sep + "Bar");
  }

  lemma SortTwoNames()
    ensures Sort(["Foo", "Bar"]) == ["Bar", "Foo"]
  {
    assert Leq("Bar", "Foo");
    assert multiset(["Foo", "Bar"]) == multiset(["Bar", "Foo"]);
    SortedUnique(Sort(["Foo", "Bar"]), ["Bar", "Foo"]);
  }

  lemma ParseRenderedPair(header: string, a: string, b: string)
    requires IsRecord(header) && IsRecord(a) && IsRecord(b)
    ensures ParseApplications(Render(header, [a, b])) == Sort([a, b])
  {
    ParseRender(header, [a, b]);
  }

  lemma ExampleRecords()
    ensures IsRecord("Name") && IsRecord("Foo") && IsRecord("Bar")
  {
    NoLineFeedSeparable("Name");
    NoLineFeedSeparable("Foo");
    NoLineFeedSeparable("Bar");
  }

  /** The header is dropped and the two names come back in ordinal order. */
  lemma ParseTwoNames()
    ensures ParseApplications("Name\n\nFoo\n\nBar\n\n") == ["Bar", "Foo"]
  {
    ExampleRecords();
    RenderTwoNames();
    SortTwoNames();
    ParseRenderedPair("Name", "Foo", "Bar");
  }

  /** The three-record output with a blank middle record written out. */
  lemma JoinBlankExample()
    ensures Join(["Name", " ", "Foo"], RecordSeparator) == "Name\n\n \n\nFoo"
  {
    var sep := RecordSeparator;
    assert ["Name", " ", "Foo"][1..] == [" ", "Foo"];
    assert [" ", "Foo"][1..] == ["Foo"];
    assert Join(["Foo"], sep) == "Foo";
    assert Join([" ", "Foo"], sep) == " " + sep + "Foo";
  }

  /** A record of one space is listed as `""`. */
  lemma ParseBlankRecord()
    ensures ParseApplications("Name\n\n \n\nFoo") == ["", "Foo"]
  {
    ExampleRecords();
    assert AllWhitespace(" ") by { assert " "[0] == ' '; }
    JoinBlankExample();
    BlankRecordListed("Name", " ", "Foo");
  }

  /** A list of three is the display of its elements. */
  lemma ListOfThree(r: seq<string>)
    requires |r| == 3
    ensures r == [r[0], r[1], r[2]]
  {
  }
}
