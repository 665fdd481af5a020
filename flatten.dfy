/**
 * The text handling of flatten.py around git: reading a `git ls-tree -z`
 * listing into a dict of tree entries, building the text meant for
 * `git mktree -z` from such a dict, reading `git log --format='%H %T %cd'` output into
 * RawLog records, and building the content of the alternates file.
 *
 * The git processes, the filesystem and the date parser stay outside: each
 * operation takes the text a process printed, or returns the text built
 * for a process or written to a file.
 */
module Flatten {
  import opened Wrappers
  import opened PyStr
  import opened PyDict
  import opened Seqs

  /** The exceptions that the parsing code raises on malformed git output. */
  datatype Error =
    /** ValueError from a tuple assignment given too few pieces. */
    | NotEnoughValuesToUnpack(expected: nat, got: nat)
    /** IndexError from indexing a list past its end. */
    | IndexOutOfRange(index: nat, length: nat)

  /** One line of the commit log; the date is kept as the text git printed. */
  datatype RawLog = RawLog(commit: string, tree: string, date: string)

  /** One entry of a tree listing, keyed by its name in the tree. */
  datatype TreeInfo = TreeInfo(mode: string, objectType: string, sha: string)

  /** A tree listing as read_tree returns it: a dict from name to entry. */
  type Tree = Dict<string, TreeInfo>

  const NUL: char := '\0'
  const NL: char := '\n'

  // ---------------------------------------------------------------------
  // Splitting a line into three space-separated fields: `split(' ', 2)`.
  // ---------------------------------------------------------------------

  /** The line holds two spaces, at positions `i < j`. */
  ghost predicate HasTwoSpaces(line: string)
  {
    exists i, j :: 0 <= i < j < |line| && line[i] == ' ' && line[j] == ' '
  }

  /** Three pieces from `split(' ', 2)`: the text before the first space, between the first two, and after the second. */
  lemma ThreeFields(line: string)
    requires |Split(line, ' ', 2)| == 3
    ensures var f := Split(line, ' ', 2);
      && line == f[0] + " " + f[1] + " " + f[2]
      && ' ' !in f[0] && ' ' !in f[1]
  {
    var f := Split(line, ' ', 2);
    var a, b, c := f[0], f[1], f[2];
    assert f == [a, b, c];
    assert Join([a, b, c], ' ') == line && ' ' !in a && ' ' !in b by {
      SplitSpec(line, ' ', 2);
      assert f[0] == a && f[1] == b;
    }
    Join3(a, b, c, ' ');
  }

  /** `split(' ', 2)` of two space-free texts and a third text gives the three back. */
  lemma ThreeFieldsOf(a: string, b: string, c: string)
    requires ' ' !in a && ' ' !in b
    ensures Split(a + " " + b + " " + c, ' ', 2) == [a, b, c]
  {
    Join3(a, b, c, ' ');
    assert IsSplitOf([a, b, c], ' ', 2) by {
      assert forall i :: 0 <= i < 2 ==> [a, b, c][i] == if i == 0 then a else b;
    }
    SplitJoin([a, b, c], ' ', 2);
  }

  /** `split(' ', 2)` yields fewer than three pieces exactly when there are not two spaces. */
  lemma TwoSpacesGiveThreeFields(line: string)
    ensures |Split(line, ' ', 2)| == 3 <==> HasTwoSpaces(line)
  {
    var f := Split(line, ' ', 2);
    SplitSpec(line, ' ', 2);
    if |f| == 3 {
      ThreeFields(line);
      var i := |f[0]|;
      var j := |f[0]| + 1 + |f[1]|;
      assert line[i] == ' ' && line[j] == ' ';
    } else if |f| == 1 {
      assert line == f[0];
      assert forall i :: 0 <= i < |line| ==> line[i] != ' ';
    } else {
      assert f[1..] == [f[1]];
      assert line == f[0] + " " + f[1];
      assert forall i :: 0 <= i < |line| && line[i] == ' ' ==> i == |f[0]| by {
        forall i | 0 <= i < |line| && i != |f[0]| ensures line[i] != ' ' {
          if i < |f[0]| {
            assert line[i] == f[0][i];
          } else {
            assert line[i] == f[1][i - |f[0]| - 1];
          }
        }
      }
    }
  }

  // ---------------------------------------------------------------------
  // read_tree: `git ls-tree -z` output to a dict of entries.
  // ---------------------------------------------------------------------

  /** One listing record without its NUL, as git writes it: `<mode> <type> <sha>\t<name>`. */
  function RecordText(name: string, info: TreeInfo): string
  {
    info.mode + " " + info.objectType + " " + info.sha + "\t" + name
  }

  /** The fields of a record can be found again: mode and type hold no space, the sha no tab. */
  ghost predicate Separable(info: TreeInfo)
  {
    ' ' !in info.mode && ' ' !in info.objectType && '\t' !in info.sha
  }

  /** No field and not the name holds a NUL, so the record stays one piece of the listing. */
  ghost predicate NulFree(name: string, info: TreeInfo)
  {
    NUL !in info.mode && NUL !in info.objectType && NUL !in info.sha && NUL !in name
  }

  /** An entry whose record read_tree reads back: separable fields and no NUL anywhere. */
  ghost predicate WellFormedEntry(name: string, info: TreeInfo)
  {
    Separable(info) && NulFree(name, info)
  }

  /** A dict (distinct names) whose every entry is well formed. */
  ghost predicate WellFormedTree(tree: Tree)
  {
    && UniqueKeys(tree)
    && forall i :: 0 <= i < |tree| ==> WellFormedEntry(tree[i].0, tree[i].1)
  }

  /**
   * One record of the listing: split at the first two spaces into mode,
   * type and the rest, then the rest at its first tab into sha and name.
   * Too few pieces for either tuple assignment is a ValueError.
   */
  function ParseTreeRecord(line: string): Result<(string, TreeInfo), Error>
  {
    var fields := Split(line, ' ', 2);
    if |fields| != 3 then Err(NotEnoughValuesToUnpack(3, |fields|))
    else
      var shaName := Split(fields[2], '\t', 1);
      if |shaName| != 2 then Err(NotEnoughValuesToUnpack(2, |shaName|))
      else Ok((shaName[1], TreeInfo(fields[0], fields[1], shaName[0])))
  }

  /**
   * The loop of read_tree over the NUL-separated records, continuing from
   * the dict `tree`: it stops at the first empty record, fails on the first
   * malformed one, and otherwise assigns each entry under its name.
   */
  function ParseTreeRecords(records: seq<string>, tree: Tree): Result<Tree, Error>
    decreases |records|
  {
    if |records| == 0 || records[0] == "" then Ok(tree)
    else match ParseTreeRecord(records[0])
      case Err(e) => Err(e)
      case Ok((name, info)) => ParseTreeRecords(records[1..], SetItem(tree, name, info))
  }

  /** What read_tree returns for the text `git ls-tree -z` printed. */
  function ParseTree(output: string): Result<Tree, Error>
  {
    ParseTreeRecords(Split(output, NUL, -1), [])
  }

  /** `Repo.read_tree`, given the output of `git ls-tree -z <tree>`. */
  method ReadTree(output: string) returns (result: Result<Tree, Error>)
    ensures result == ParseTree(output)
  {
    var theTree: Tree := [];
    var treeLines := Split(output, NUL, -1);
    for i := 0 to |treeLines|
      invariant ParseTreeRecords(treeLines[i..], theTree) == ParseTree(output)
    {
      var treeLine := treeLines[i];
      assert treeLines[i..][0] == treeLine && treeLines[i..][1..] == treeLines[i + 1..];
      if treeLine == "" {
        break;
      }
      var fields := Split(treeLine, ' ', 2);
      if |fields| != 3 {
        return Err(NotEnoughValuesToUnpack(3, |fields|));
      }
      var mode, objectType, shaName := fields[0], fields[1], fields[2];
      var shaAndName := Split(shaName, '\t', 1);
      if |shaAndName| != 2 {
        return Err(NotEnoughValuesToUnpack(2, |shaAndName|));
      }
      var sha, name := shaAndName[0], shaAndName[1];
      theTree := SetItem(theTree, name, TreeInfo(mode, objectType, sha));
    }
    return Ok(theTree);
  }

  /** A record that parses is the text of the entry it gives, with separable fields. */
  lemma TreeRecordRead(line: string, name: string, info: TreeInfo)
    requires ParseTreeRecord(line) == Ok((name, info))
    ensures line == RecordText(name, info) && Separable(info)
  {
    var f := Split(line, ' ', 2);
    assert |f| == 3;
    assert line == f[0] + " " + f[1] + " " + f[2] && ' ' !in f[0] && ' ' !in f[1] by { ThreeFields(line); }
    var shaName := Split(f[2], '\t', 1);
    assert |shaName| == 2;
    assert f[2] == shaName[0] + "\t" + shaName[1] && '\t' !in shaName[0] by { SplitOnce(f[2], '\t'); }
    assert info == TreeInfo(f[0], f[1], shaName[0]) && name == shaName[1];
    RecordRegroup(f[0], f[1], shaName[0], shaName[1]);
  }

  /** The record text read as three space-separated fields, the last one holding the tab. */
  lemma RecordRegroup(mode: string, objectType: string, sha: string, name: string)
    ensures mode + " " + objectType + " " + (sha + "\t" + name) == RecordText(name, TreeInfo(mode, objectType, sha))
  {
  }

  /** The text of an entry with separable fields parses back to that entry. */
  lemma TreeRecordOf(name: string, info: TreeInfo)
    requires Separable(info)
    ensures ParseTreeRecord(RecordText(name, info)) == Ok((name, info))
  {
    var line := RecordText(name, info);
    var rest := info.sha + ['\t'] + name;
    assert line == info.mode + " " + info.objectType + " " + rest;
    ThreeFieldsOf(info.mode, info.objectType, rest);
    SplitOnceOf(info.sha, '\t', name);
    var f := Split(line, ' ', 2);
    assert f == [info.mode, info.objectType, rest];
    assert f[2] == rest;
  }

  /**
   * A record parses to `(name, info)` exactly when it is the text of that
   * entry with separable fields: whatever follows the first tab after the
   * second space, spaces and tabs included, is the name.
   */
  lemma TreeRecordFields(line: string, name: string, info: TreeInfo)
    ensures ParseTreeRecord(line) == Ok((name, info)) <==> line == RecordText(name, info) && Separable(info)
  {
    if ParseTreeRecord(line) == Ok((name, info)) {
      TreeRecordRead(line, name, info);
    }
    if line == RecordText(name, info) && Separable(info) {
      TreeRecordOf(name, info);
    }
  }

  /** A record has two spaces and, after the second, a tab. */
  ghost predicate HasTreeShape(line: string)
  {
    exists i, j, k :: 0 <= i < j < k < |line| && line[i] == ' ' && line[j] == ' ' && line[k] == '\t'
  }

  /** Space-free `a` and `b` and a tab-free `c` leave no tab after a second space. */
  lemma NoTreeShape(a: string, b: string, c: string)
    requires ' ' !in a && ' ' !in b && '\t' !in c
    ensures !HasTreeShape(a + " " + b + " " + c)
  {
    var line := a + " " + b + " " + c;
    var start := |a| + 1 + |b| + 1;
    forall i | 0 <= i < |a| ensures line[i] != ' ' {
      assert line[i] == a[i];
    }
    forall i | |a| < i < start - 1 ensures line[i] != ' ' {
      assert line[i] == b[i - |a| - 1];
    }
    forall k | start <= k < |line| ensures line[k] != '\t' {
      assert line[k] == c[k - start];
    }
    forall i, j, k | 0 <= i < j < k < |line| && line[i] == ' ' && line[j] == ' '
      ensures line[k] != '\t'
    {
      assert j >= start - 1;
    }
  }

  /**
   * A record fails to parse exactly when it has fewer than two spaces, or
   * no tab after its second space; no default entry is made up.
   */
  lemma TreeRecordMalformed(line: string)
    ensures ParseTreeRecord(line).Err? <==> !HasTreeShape(line)
    ensures ParseTreeRecord(line).Err? ==> ParseTreeRecord(line).error.NotEnoughValuesToUnpack?
  {
    var f := Split(line, ' ', 2);
    TwoSpacesGiveThreeFields(line);
    match ParseTreeRecord(line)
    case Ok((name, info)) =>
      TreeRecordRead(line, name, info);
      var i := |info.mode|;
      var j := i + 1 + |info.objectType|;
      var k := j + 1 + |info.sha|;
      assert line[i] == ' ' && line[j] == ' ' && line[k] == '\t';
    case Err(_) =>
      if |f| == 3 {
        ThreeFields(line);
        SplitOnce(f[2], '\t');
        NoTreeShape(f[0], f[1], f[2]);
      }
  }

  /** The records of a tree, in dict order. */
  function Records(tree: Tree): (rs: seq<string>)
    ensures |rs| == |tree|
  {
    seq(|tree|, i requires 0 <= i < |tree| => RecordText(tree[i].0, tree[i].1))
  }

  /** The text that the loop of `write_tree` builds for `git mktree -z`: each entry's record, then a NUL. */
  function Serialize(tree: Tree): string
  {
    Terminated(Records(tree), NUL)
  }

  /** Serializing one more entry appends its NUL-terminated record. */
  lemma SerializeSnoc(tree: Tree, name: string, info: TreeInfo)
    ensures Serialize(tree + [(name, info)]) == Serialize(tree) + RecordText(name, info) + [NUL]
  {
    assert Records(tree + [(name, info)]) == Records(tree) + [RecordText(name, info)];
    TerminatedSnoc(Records(tree), RecordText(name, info), NUL);
  }

  /** The text that the loop of `write_tree` builds for `git mktree -z`. */
  method WriteTree(tree: Tree) returns (ret: string)
    ensures ret == Serialize(tree)
  {
    ret := "";
    for i := 0 to |tree|
      invariant ret == Serialize(tree[..i])
    {
      var (name, info) := tree[i];
      ret := ret + info.mode + " " + info.objectType + " " + info.sha + "\t" + name + [NUL];
      SerializeSnoc(tree[..i], name, info);
      assert tree[..i + 1] == tree[..i] + [(name, info)];
    }
    assert tree[..|tree|] == tree;
  }

  /** Splitting write_tree's text at NUL gives the records, then the empty piece after the last NUL. */
  lemma SplitSerialized(tree: Tree)
    requires forall i :: 0 <= i < |tree| ==> NulFree(tree[i].0, tree[i].1)
    ensures Split(Serialize(tree), NUL, -1) == Records(tree) + [""]
  {
    var rs := Records(tree);
    forall i | 0 <= i < |rs| ensures NUL !in rs[i] {
      var info := tree[i].1;
      assert rs[i] == info.mode + " " + info.objectType + " " + info.sha + "\t" + tree[i].0;
    }
    SplitTerminated(rs, NUL);
  }

  /**
   * write_tree emits exactly one NUL-terminated record per entry, in dict
   * order: splitting its text at NUL gives the records and then the empty
   * piece after the last NUL. An empty tree gives the empty text.
   */
  lemma WriteTreeRecords(tree: Tree)
    requires forall i :: 0 <= i < |tree| ==> NulFree(tree[i].0, tree[i].1)
    ensures var pieces := Split(Serialize(tree), NUL, -1);
      && |pieces| == |tree| + 1
      && (forall i :: 0 <= i < |tree| ==> pieces[i] == RecordText(tree[i].0, tree[i].1))
      && pieces[|tree|] == ""
    ensures tree == [] <==> Serialize(tree) == ""
  {
    SplitSerialized(tree);
    SerializeEmpty(tree);
  }

  /** The text is empty exactly for the empty dict, whatever its entries hold. */
  lemma SerializeEmpty(tree: Tree)
    ensures tree == [] <==> Serialize(tree) == ""
  {
    var rs := Records(tree);
    if tree != [] {
      assert Serialize(tree) == rs[0] + [NUL] + Terminated(rs[1..], NUL);
    }
  }

  /** One step of the loop of read_tree: a record that parses is assigned, and the loop goes on. */
  lemma ParseRecordsStep(records: seq<string>, acc: Tree, name: string, info: TreeInfo)
    requires |records| > 0 && records[0] != "" && ParseTreeRecord(records[0]) == Ok((name, info))
    ensures ParseTreeRecords(records, acc) == ParseTreeRecords(records[1..], SetItem(acc, name, info))
  {
  }

  /** The records of a non-empty tree: its first entry's, then the rest's. */
  lemma RecordsCons(items: Tree, rest: seq<string>)
    requires |items| > 0
    ensures var records := Records(items) + rest;
      records[0] == RecordText(items[0].0, items[0].1) && records[1..] == Records(items[1..]) + rest
  {
    var records := Records(items) + rest;
    assert records[1..] == Records(items[1..]) + rest by {
      assert Records(items) == [records[0]] + Records(items[1..]);
    }
  }

  /** The loop of read_tree over the records of `items` assigns each entry in turn. */
  lemma {:induction false} ParseRecordsOfTree(items: Tree, rest: seq<string>, acc: Tree)
    requires forall i :: 0 <= i < |items| ==> Separable(items[i].1)
    ensures ParseTreeRecords(Records(items) + rest, acc) == ParseTreeRecords(rest, SetItems(acc, items))
    decreases |items|
  {
    var records := Records(items) + rest;
    if |items| == 0 {
      assert records == rest;
    } else {
      var (name, info) := items[0];
      RecordsCons(items, rest);
      assert ParseTreeRecord(records[0]) == Ok((name, info)) && records[0] != "" by {
        TreeRecordOf(name, info);
        assert RecordText(name, info)[|info.mode|] == ' ';
      }
      ParseRecordsStep(records, acc, name, info);
      assert forall i :: 0 <= i < |items[1..]| ==> Separable(items[1..][i].1) by {
        assert forall i :: 0 <= i < |items[1..]| ==> items[1..][i] == items[i + 1];
      }
      ParseRecordsOfTree(items[1..], rest, SetItem(acc, name, info));
    }
  }

  /**
   * Round trip: reading back the text write_tree builds gives the same dict,
   * entries and order alike.
   */
  lemma TreeRoundTrip(tree: Tree)
    requires WellFormedTree(tree)
    ensures ParseTree(Serialize(tree)) == Ok(tree)
  {
    SplitSerialized(tree);
    ParseRecordsOfTree(tree, [""], []);
    assert [] + tree == tree;
    SetItemsFresh([], tree);
  }

  /** Serializing one more entry adds its record to the list of records. */
  lemma RecordsSnoc(tree: Tree, name: string, info: TreeInfo)
    ensures Records(tree + [(name, info)]) == Records(tree) + [RecordText(name, info)]
  {
  }

  /** The text of a tree followed by one more record splits into all the records and the final empty piece. */
  lemma SplitSerializedSnoc(tree: Tree, name: string, info: TreeInfo)
    requires forall i :: 0 <= i < |tree| ==> NulFree(tree[i].0, tree[i].1)
    requires NulFree(name, info)
    ensures Split(Serialize(tree) + RecordText(name, info) + [NUL], NUL, -1)
         == Records(tree) + [RecordText(name, info), ""]
  {
    var record := RecordText(name, info);
    var longer := tree + [(name, info)];
    SerializeSnoc(tree, name, info);
    assert forall i :: 0 <= i < |longer| ==> longer[i] == if i < |tree| then tree[i] else (name, info);
    SplitSerialized(longer);
    RecordsSnoc(tree, name, info);
    ConcatAssoc(Records(tree), [record], [""]);
  }

  /** Reading the records of a tree and then one more record assigns that record last. */
  lemma ParseRecordsSnoc(tree: Tree, name: string, info: TreeInfo)
    requires WellFormedTree(tree) && WellFormedEntry(name, info)
    ensures ParseTreeRecords(Records(tree) + [RecordText(name, info), ""], []) == Ok(SetItem(tree, name, info))
  {
    var record := RecordText(name, info);
    ParseRecordsOfTree(tree, [record, ""], []);
    assert [] + tree == tree;
    SetItemsFresh([], tree);
    TreeRecordOf(name, info);
    ParseRecordsStep([record, ""], tree, name, info);
    assert [record, ""][1..] == [""];
  }

  /**
   * A later record with a name already read replaces that entry's value in
   * place; every other entry, and the order of names, stays as it was. A
   * record with a new name is added at the end.
   */
  lemma TreeLaterRecordReplaces(tree: Tree, name: string, info: TreeInfo)
    requires WellFormedTree(tree) && WellFormedEntry(name, info)
    ensures var r := ParseTree(Serialize(tree) + RecordText(name, info) + [NUL]);
      && r == Ok(SetItem(tree, name, info))
      && Get(r.value, name) == Some(info)
      && (forall other :: other != name ==> Get(r.value, other) == Get(tree, other))
      && Keys(r.value) == if name in Keys(tree) then Keys(tree) else Keys(tree) + [name]
  {
    SplitSerializedSnoc(tree, name, info);
    ParseRecordsSnoc(tree, name, info);
  }

  /** An empty record ends the listing: nothing after it is read, however malformed. */
  lemma {:induction false} ParseRecordsStopAtEmpty(records: seq<string>, junk: seq<string>, acc: Tree)
    ensures ParseTreeRecords(records + [""] + junk, acc) == ParseTreeRecords(records, acc)
    decreases |records|
  {
    if |records| > 0 && records[0] != "" {
      assert (records + [""] + junk)[1..] == records[1..] + [""] + junk;
      match ParseTreeRecord(records[0])
      case Err(_) =>
      case Ok((name, info)) => ParseRecordsStopAtEmpty(records[1..], junk, SetItem(acc, name, info));
    }
  }

  /** The empty piece after a final NUL is ignored. */
  lemma TreeIgnoresFinalNul(output: string)
    ensures ParseTree(output + [NUL]) == ParseTree(output)
  {
    var rs := Split(output, NUL, -1);
    SplitTrailingSep(output, NUL);
    assert rs + [""] == rs + [""] + [];
    ParseRecordsStopAtEmpty(rs, [], []);
  }

  /** Two NULs in a row (an empty record) end the listing, whatever follows them. */
  lemma TreeStopsAtEmptyRecord(output: string, junk: string)
    ensures ParseTree(output + [NUL, NUL] + junk) == ParseTree(output)
  {
    SplitAroundEmpty(output, NUL, junk);
    ParseRecordsStopAtEmpty(Split(output, NUL, -1), Split(junk, NUL, -1), []);
  }

  /** Some record before the first empty one is malformed. */
  ghost predicate MalformedBeforeEnd(records: seq<string>)
  {
    exists i :: 0 <= i < |records| && records[i] != "" && !HasTreeShape(records[i])
      && forall j :: 0 <= j < i ==> records[j] != ""
  }

  /** The loop of read_tree fails exactly when a record before the first empty one is malformed. */
  lemma {:induction false} ParseRecordsFail(records: seq<string>, acc: Tree)
    ensures ParseTreeRecords(records, acc).Err? <==> MalformedBeforeEnd(records)
    decreases |records|
  {
    if |records| == 0 {
    } else if records[0] == "" {
      assert records[0] == "";
    } else {
      TreeRecordMalformed(records[0]);
      var parsed := ParseTreeRecord(records[0]);
      if parsed.Err? {
        assert ParseTreeRecords(records, acc) == Err(parsed.error);
        assert records[0] != "" && !HasTreeShape(records[0]);
      } else {
        var (name, info) := parsed.value;
        var rest := records[1..];
        ParseRecordsStep(records, acc, name, info);
        ParseRecordsFail(rest, SetItem(acc, name, info));
        if MalformedBeforeEnd(rest) {
          var i :| 0 <= i < |rest| && rest[i] != "" && !HasTreeShape(rest[i])
            && forall j :: 0 <= j < i ==> rest[j] != "";
          assert records[i + 1] == rest[i];
          forall j | 0 < j < i + 1 ensures records[j] != "" {
            assert records[j] == rest[j - 1];
          }
        }
        if MalformedBeforeEnd(records) {
          var i :| 0 <= i < |records| && records[i] != "" && !HasTreeShape(records[i])
            && forall j :: 0 <= j < i ==> records[j] != "";
          assert i != 0;
          assert rest[i - 1] == records[i];
          forall j | 0 <= j < i - 1 ensures rest[j] != "" {
            assert rest[j] == records[j + 1];
          }
        }
      }
    }
  }

  /**
   * read_tree raises exactly when some record before the first empty one has
   * fewer than two spaces or no tab after its second space.
   */
  lemma TreeMalformed(output: string)
    ensures ParseTree(output).Err? <==> MalformedBeforeEnd(Split(output, NUL, -1))
    ensures ParseTree(output).Err? ==> ParseTree(output).error.NotEnoughValuesToUnpack?
  {
    ParseRecordsFail(Split(output, NUL, -1), []);
    ParseRecordsUnpackError(Split(output, NUL, -1), []);
  }

  /** Every failure of the loop of read_tree is the ValueError of a tuple assignment. */
  lemma {:induction false} ParseRecordsUnpackError(records: seq<string>, acc: Tree)
    ensures ParseTreeRecords(records, acc).Err? ==> ParseTreeRecords(records, acc).error.NotEnoughValuesToUnpack?
    decreases |records|
  {
    if |records| > 0 && records[0] != "" {
      TreeRecordMalformed(records[0]);
      match ParseTreeRecord(records[0])
      case Err(_) =>
      case Ok((name, info)) =>
        ParseRecordsStep(records, acc, name, info);
        ParseRecordsUnpackError(records[1..], SetItem(acc, name, info));
    }
  }

  /** The dict read_tree returns never holds a name twice. */
  lemma {:induction false} ParseRecordsUnique(records: seq<string>, acc: Tree)
    requires UniqueKeys(acc)
    ensures ParseTreeRecords(records, acc).Ok? ==> UniqueKeys(ParseTreeRecords(records, acc).value)
    decreases |records|
  {
    if |records| > 0 && records[0] != "" {
      match ParseTreeRecord(records[0])
      case Err(_) =>
      case Ok((name, info)) =>
        SetItemUnique(acc, name, info);
        ParseRecordsUnique(records[1..], SetItem(acc, name, info));
    }
  }

  // ---------------------------------------------------------------------
  // commits: `git log --format='%H %T %cd'` output to RawLog records.
  // ---------------------------------------------------------------------

  /** One log line: commit before the first space, tree up to the second, the date after it. */
  function ParseLogLine(line: string): Result<RawLog, Error>
  {
    var parts := Split(line, ' ', 2);
    if |parts| < 3 then Err(IndexOutOfRange(2, |parts|))
    else Ok(RawLog(parts[0], parts[1], parts[2]))
  }

  /** The loop of commits over the lines, after the records `logs`: it stops at the first empty line. */
  function ParseLogLines(lines: seq<string>, logs: seq<RawLog>): Result<seq<RawLog>, Error>
    decreases |lines|
  {
    if |lines| == 0 || lines[0] == "" then Ok(logs)
    else match ParseLogLine(lines[0])
      case Err(e) => Err(e)
      case Ok(log) => ParseLogLines(lines[1..], logs + [log])
  }

  /**
   * What `list(commits(path))` gives for a repository whose `.git` is a
   * directory and whose `.git/refs/heads` lists at least one entry
   * (`headsListed`), and whose `git log` printed `output`; otherwise git is
   * not run and the list is empty. Branches kept only in `packed-refs` are
   * not seen by that probe.
   */
  function ParseLog(headsListed: bool, output: string): Result<seq<RawLog>, Error>
  {
    if !headsListed then Ok([]) else ParseLogLines(Split(output, NL, -1), [])
  }

  /** `list(commits(path))`, with the directory probe and the git output as inputs. */
  method Commits(headsListed: bool, output: string) returns (result: Result<seq<RawLog>, Error>)
    ensures result == ParseLog(headsListed, output)
  {
    if !headsListed {
      return Ok([]);
    }
    var logs: seq<RawLog> := [];
    var logLines := Split(output, NL, -1);
    for i := 0 to |logLines|
      invariant ParseLogLines(logLines[i..], logs) == ParseLog(headsListed, output)
    {
      var logLine := logLines[i];
      assert logLines[i..][0] == logLine && logLines[i..][1..] == logLines[i + 1..];
      if logLine == "" {
        break;
      }
      var parts := Split(logLine, ' ', 2);
      if |parts| <= 2 {
        return Err(IndexOutOfRange(2, |parts|));
      }
      logs := logs + [RawLog(parts[0], parts[1], parts[2])];
    }
    return Ok(logs);
  }

  /** The line git prints for a log record. */
  function LogLine(log: RawLog): string
  {
    log.commit + " " + log.tree + " " + log.date
  }

  /** A log record git can print on one line and commits can read back. */
  ghost predicate WellFormedLog(log: RawLog)
  {
    ' ' !in log.commit && ' ' !in log.tree && NL !in log.commit && NL !in log.tree && NL !in log.date
  }

  /** The lines git prints for the records, in order. */
  function LogLines(logs: seq<RawLog>): (lines: seq<string>)
    ensures |lines| == |logs|
  {
    seq(|logs|, i requires 0 <= i < |logs| => LogLine(logs[i]))
  }

  /** The log text for the records, one line each, each ended by a newline. */
  function FormatLog(logs: seq<RawLog>): string
  {
    Terminated(LogLines(logs), NL)
  }

  /**
   * A log line gives the record `log` exactly when it is that record's line
   * with space-free commit and tree; the date keeps every space after the
   * second.
   */
  lemma LogLineFields(line: string, log: RawLog)
    ensures ParseLogLine(line) == Ok(log) <==> line == LogLine(log) && ' ' !in log.commit && ' ' !in log.tree
  {
    if ParseLogLine(line) == Ok(log) {
      ThreeFields(line);
    }
    if line == LogLine(log) && ' ' !in log.commit && ' ' !in log.tree {
      ThreeFieldsOf(log.commit, log.tree, log.date);
    }
  }

  /** A log line with fewer than two spaces is an IndexError, not a record with a made-up field. */
  lemma LogLineMalformed(line: string)
    ensures ParseLogLine(line).Err? <==> !HasTwoSpaces(line)
    ensures ParseLogLine(line).Err? ==> ParseLogLine(line).error.IndexOutOfRange?
  {
    TwoSpacesGiveThreeFields(line);
  }

  /** One step of the loop of commits: a line that parses is appended, and the loop goes on. */
  lemma ParseLogLinesStep(lines: seq<string>, acc: seq<RawLog>, log: RawLog)
    requires |lines| > 0 && lines[0] != "" && ParseLogLine(lines[0]) == Ok(log)
    ensures ParseLogLines(lines, acc) == ParseLogLines(lines[1..], acc + [log])
  {
  }

  /** The line of a well-formed record reads back as that record. */
  lemma LogLineOf(log: RawLog)
    requires WellFormedLog(log)
    ensures LogLine(log) != "" && ParseLogLine(LogLine(log)) == Ok(log)
  {
    ThreeFieldsOf(log.commit, log.tree, log.date);
    assert LogLine(log)[|log.commit|] == ' ';
  }

  /** The loop of commits over the lines of well-formed records appends them in order. */
  lemma {:induction false} ParseLinesOfLogs(logs: seq<RawLog>, rest: seq<string>, acc: seq<RawLog>)
    requires forall i :: 0 <= i < |logs| ==> WellFormedLog(logs[i])
    ensures ParseLogLines(LogLines(logs) + rest, acc) == ParseLogLines(rest, acc + logs)
    decreases |logs|
  {
    var all := LogLines(logs) + rest;
    if |logs| == 0 {
      assert all == rest;
      assert acc + logs == acc;
    } else {
      assert all[0] == LogLine(logs[0]);
      LogLineOf(logs[0]);
      ParseLogLinesStep(all, acc, logs[0]);
      assert all[1..] == LogLines(logs[1..]) + rest;
      ParseLinesOfLogs(logs[1..], rest, acc + [logs[0]]);
      assert acc + [logs[0]] + logs[1..] == acc + logs;
    }
  }

  /**
   * Round trip: commits reads back every record of a well-formed log, in
   * the order of its lines.
   */
  lemma LogRoundTrip(logs: seq<RawLog>)
    requires forall i :: 0 <= i < |logs| ==> WellFormedLog(logs[i])
    ensures ParseLog(true, FormatLog(logs)) == Ok(logs)
  {
    var lines := LogLines(logs);
    forall i | 0 <= i < |lines| ensures NL !in lines[i] {
      assert lines[i] == logs[i].commit + " " + logs[i].tree + " " + logs[i].date;
    }
    SplitTerminated(lines, NL);
    ParseLinesOfLogs(logs, [""], []);
    assert [] + logs == logs;
  }

  /** An empty line ends the log: nothing after it is read, however malformed. */
  lemma {:induction false} ParseLogLinesStopAtEmpty(lines: seq<string>, junk: seq<string>, acc: seq<RawLog>)
    ensures ParseLogLines(lines + [""] + junk, acc) == ParseLogLines(lines, acc)
    decreases |lines|
  {
    if |lines| > 0 && lines[0] != "" {
      assert (lines + [""] + junk)[1..] == lines[1..] + [""] + junk;
      match ParseLogLine(lines[0])
      case Err(_) =>
      case Ok(log) => ParseLogLinesStopAtEmpty(lines[1..], junk, acc + [log]);
    }
  }

  /** The empty piece after the final newline is ignored. */
  lemma LogIgnoresFinalNewline(headsListed: bool, output: string)
    ensures ParseLog(headsListed, output + [NL]) == ParseLog(headsListed, output)
  {
    var ls := Split(output, NL, -1);
    SplitTrailingSep(output, NL);
    assert ls + [""] == ls + [""] + [];
    ParseLogLinesStopAtEmpty(ls, [], []);
  }

  /** An empty line ends the log, whatever follows it. */
  lemma LogStopsAtEmptyLine(headsListed: bool, output: string, junk: string)
    ensures ParseLog(headsListed, output + [NL, NL] + junk) == ParseLog(headsListed, output)
  {
    SplitAroundEmpty(output, NL, junk);
    ParseLogLinesStopAtEmpty(Split(output, NL, -1), Split(junk, NL, -1), []);
  }

  // ---------------------------------------------------------------------
  // set_alternates: the lines of `.git/objects/info/alternates`.
  // ---------------------------------------------------------------------

  /** The source repository's object directory, relative to the destination's. */
  function ObjectsPath(srcPath: string): string
  {
    "../../../" + srcPath + "/.git/objects"
  }

  /** The object directory of submodule `sub` of the source repository. */
  function ModulePath(srcPath: string, sub: string): string
  {
    "../../../" + srcPath + "/.git/modules/" + sub + "/objects"
  }

  /** The alternates entries: the source's objects, then one per submodule in key order. */
  function AlternatesLines(srcPath: string, subs: seq<string>): (lines: seq<string>)
    ensures |lines| == |subs| + 1
  {
    [ObjectsPath(srcPath)] + seq(|subs|, i requires 0 <= i < |subs| => ModulePath(srcPath, subs[i]))
  }

  /** The text written to the alternates file. */
  function AlternatesText(srcPath: string, subs: seq<string>): string
  {
    Terminated(AlternatesLines(srcPath, subs), NL)
  }

  /**
   * `Repo.set_alternates`, given the source repository's path and the keys of
   * its submodule dict in iteration order; returns the text written.
   */
  method SetAlternates(srcPath: string, subs: seq<string>) returns (text: string)
    ensures text == AlternatesText(srcPath, subs)
  {
    text := "../../../" + srcPath + "/.git/objects\n";
    assert text == Terminated(AlternatesLines(srcPath, subs[..0]), NL) by {
      assert AlternatesLines(srcPath, subs[..0]) == [ObjectsPath(srcPath)];
      assert Terminated([ObjectsPath(srcPath)], NL) == ObjectsPath(srcPath) + [NL] + Terminated([], NL);
    }
    for i := 0 to |subs|
      invariant text == Terminated(AlternatesLines(srcPath, subs[..i]), NL)
    {
      text := text + "../../../" + srcPath + "/.git/modules/" + subs[i] + "/objects\n";
      assert AlternatesLines(srcPath, subs[..i + 1])
          == AlternatesLines(srcPath, subs[..i]) + [ModulePath(srcPath, subs[i])];
      TerminatedSnoc(AlternatesLines(srcPath, subs[..i]), ModulePath(srcPath, subs[i]), NL);
    }
    assert subs[..|subs|] == subs;
  }

  /**
   * When no path holds a newline, the alternates file has exactly one line
   * for the source's objects and then one line per submodule, in key order,
   * each ended by a newline.
   */
  lemma AlternatesFileLines(srcPath: string, subs: seq<string>)
    requires NL !in srcPath
    requires forall i :: 0 <= i < |subs| ==> NL !in subs[i]
    ensures var lines := Split(AlternatesText(srcPath, subs), NL, -1);
      && |lines| == |subs| + 2
      && lines[0] == "../../../" + srcPath + "/.git/objects"
      && (forall i :: 0 <= i < |subs| ==> lines[i + 1] == "../../../" + srcPath + "/.git/modules/" + subs[i] + "/objects")
      && lines[|subs| + 1] == ""
  {
    var ls := AlternatesLines(srcPath, subs);
    forall i | 0 <= i < |ls| ensures NL !in ls[i] {
      if i > 0 {
        assert ls[i] == "../../../" + srcPath + "/.git/modules/" + subs[i - 1] + "/objects";
      }
    }
    SplitTerminated(ls, NL);
  }
}
