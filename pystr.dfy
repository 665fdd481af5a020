/**
 * Python's `split(sep, maxsplit)` with a one-character separator, as
 * flatten.py calls it at lines 21, 24, 45, 49 and 50; `Find` and `Join`
 * are helpers that specify it. Strings are sequences of characters; byte
 * decoding is not modelled.
 */
module PyStr {
  import opened Seqs

  /** The index of the first `c` in `s`, or -1, as Python's `s.find(c)` gives it. */
  function Find(s: string, c: char): (r: int)
    ensures -1 <= r < |s|
    ensures r == -1 <==> c !in s
    ensures r >= 0 ==> s[r] == c && c !in s[..r]
    decreases |s|
  {
    if |s| == 0 then -1
    else if s[0] == c then 0
    else
      var k := Find(s[1..], c);
      if k == -1 then -1 else k + 1
  }

  /** `sep.join(parts)`: the parts with one `sep` between neighbours. */
  function Join(parts: seq<string>, sep: char): string
  {
    if |parts| == 0 then ""
    else if |parts| == 1 then parts[0]
    else parts[0] + [sep] + Join(parts[1..], sep)
  }

  /**
   * `s.split(sep, maxsplit)`: cut `s` at each of the first `maxsplit`
   * occurrences of `sep`, left to right; a negative `maxsplit` (Python's
   * default -1) cuts at every occurrence. There is always a piece, and at
   * most `maxsplit + 1` of them; SplitSpec and SplitJoin say which.
   */
  function Split(s: string, sep: char, maxsplit: int): (r: seq<string>)
    ensures 1 <= |r|
    ensures maxsplit >= 0 ==> |r| <= maxsplit + 1
    decreases |s|
  {
    var i := Find(s, sep);
    if maxsplit == 0 || i < 0 then [s]
    else [s[..i]] + Split(s[i + 1..], sep, if maxsplit < 0 then maxsplit else maxsplit - 1)
  }

  /** The shape of the pieces of a split, as a predicate on pieces. */
  ghost predicate IsSplitOf(parts: seq<string>, sep: char, maxsplit: int)
  {
    && 1 <= |parts|
    && (maxsplit >= 0 ==> |parts| <= maxsplit + 1)
    && (forall i :: 0 <= i < |parts| - 1 ==> sep !in parts[i])
    && (maxsplit < 0 || |parts| <= maxsplit ==> sep !in parts[|parts| - 1])
  }

  /** Joining a first piece before at least one more puts one `sep` after it. */
  lemma JoinCons(head: string, rest: seq<string>, sep: char)
    requires |rest| >= 1
    ensures Join([head] + rest, sep) == head + [sep] + Join(rest, sep)
  {
    assert ([head] + rest)[1..] == rest;
  }

  /** Three pieces joined by `sep`. */
  lemma Join3(a: string, b: string, c: string, sep: char)
    ensures Join([a, b, c], sep) == a + [sep] + b + [sep] + c
  {
    assert [a, b, c][1..] == [b, c] && [b, c][1..] == [c];
    assert Join([c], sep) == c;
    assert Join([b, c], sep) == b + [sep] + c;
    assert Join([a, b, c], sep) == a + [sep] + (b + [sep] + c);
    ConcatAssoc(a + [sep], b + [sep], c);
    ConcatAssoc(a + [sep], b, [sep]);
  }

  /** The text before a found `sep`, the `sep` and the text after it make up the whole. */
  lemma FindCuts(s: string, sep: char)
    requires Find(s, sep) >= 0
    ensures var i := Find(s, sep); s == s[..i] + [sep] + s[i + 1..] && sep !in s[..i]
  {
  }

  /** One cut at the first `sep`: the first piece before it, the split of the rest after it. */
  lemma SplitStep(s: string, sep: char, maxsplit: int)
    requires maxsplit != 0 && Find(s, sep) >= 0
    ensures var i := Find(s, sep);
      Split(s, sep, maxsplit) == [s[..i]] + Split(s[i + 1..], sep, if maxsplit < 0 then maxsplit else maxsplit - 1)
  {
  }

  /** Prepending a piece without `sep` keeps the shape of a split with one cut more allowed. */
  lemma IsSplitOfCons(head: string, rest: seq<string>, sep: char, maxsplit: int)
    requires sep !in head && maxsplit != 0
    requires IsSplitOf(rest, sep, if maxsplit < 0 then maxsplit else maxsplit - 1)
    ensures IsSplitOf([head] + rest, sep, maxsplit)
  {
    var r := [head] + rest;
    forall j | 0 <= j < |r| - 1 ensures sep !in r[j] {
      if j > 0 {
        assert r[j] == rest[j - 1];
      }
    }
    assert r[|r| - 1] == rest[|rest| - 1];
  }

  /** With no cut to make, the split is the whole text. */
  lemma SplitBase(s: string, sep: char, maxsplit: int)
    requires maxsplit == 0 || Find(s, sep) < 0
    ensures IsSplitOf(Split(s, sep, maxsplit), sep, maxsplit)
    ensures Join(Split(s, sep, maxsplit), sep) == s
  {
    assert Split(s, sep, maxsplit) == [s];
  }

  /**
   * The pieces of a split, joined by `sep`, give the text back; no piece
   * but the last holds `sep`, and the last holds it only when the limit
   * was reached.
   */
  lemma {:induction false} SplitSpec(s: string, sep: char, maxsplit: int)
    ensures IsSplitOf(Split(s, sep, maxsplit), sep, maxsplit)
    ensures Join(Split(s, sep, maxsplit), sep) == s
    decreases |s|
  {
    var i := Find(s, sep);
    if maxsplit == 0 || i < 0 {
      SplitBase(s, sep, maxsplit);
    } else {
      var m := if maxsplit < 0 then maxsplit else maxsplit - 1;
      var head, tail := s[..i], s[i + 1..];
      assert s == head + [sep] + tail && sep !in head by { FindCuts(s, sep); }
      var rest := Split(tail, sep, m);
      assert Split(s, sep, maxsplit) == [head] + rest by { SplitStep(s, sep, maxsplit); }
      SplitSpec(tail, sep, m);
      JoinCons(head, rest, sep);
      IsSplitOfCons(head, rest, sep, maxsplit);
    }
  }

  /** Find returns the position of a `c` that has no `c` before it. */
  lemma {:induction false} FindFirst(s: string, c: char, k: nat)
    requires k < |s| && s[k] == c && c !in s[..k]
    ensures Find(s, c) == k
    decreases k
  {
    if k > 0 {
      assert s[..k][0] == s[0];
      assert s[1..][..k - 1] == s[1..k];
      assert s[1..k] == s[..k][1..];
      FindFirst(s[1..], c, k - 1);
    }
  }

  /** The first `c` of `a + [c] + b` is the one after `a` when `a` has none. */
  lemma FindAfterPrefix(a: string, c: char, b: string)
    requires c !in a
    ensures Find(a + [c] + b, c) == |a|
  {
    var s := a + [c] + b;
    assert s[..|a|] == a;
    FindFirst(s, c, |a|);
  }

  /** The two sides of `a + [c] + b` taken apart again. */
  lemma Cut(a: string, c: char, b: string)
    ensures (a + [c] + b)[..|a|] == a && (a + [c] + b)[|a| + 1..] == b
  {
  }

  /** Split cuts at the first `sep` left of the limit and splits the rest with one cut fewer. */
  lemma SplitFirst(a: string, sep: char, b: string, maxsplit: int)
    requires sep !in a && maxsplit != 0
    ensures Split(a + [sep] + b, sep, maxsplit)
         == [a] + Split(b, sep, if maxsplit < 0 then maxsplit else maxsplit - 1)
  {
    FindAfterPrefix(a, sep, b);
    Cut(a, sep, b);
  }

  /** A text without `sep`, or a split with no cuts allowed, is one piece. */
  lemma SplitNone(s: string, sep: char, maxsplit: int)
    requires sep !in s || maxsplit == 0
    ensures Split(s, sep, maxsplit) == [s]
  {
  }

  /**
   * Split is the inverse of Join on every sequence of pieces that Split
   * could have produced: its result is the only one its contract allows.
   */
  lemma {:induction false} SplitJoin(parts: seq<string>, sep: char, maxsplit: int)
    requires IsSplitOf(parts, sep, maxsplit)
    ensures Split(Join(parts, sep), sep, maxsplit) == parts
    decreases |parts|
  {
    if |parts| == 1 {
      SplitNone(parts[0], sep, maxsplit);
    } else {
      var head, rest := parts[0], parts[1..];
      var m := if maxsplit < 0 then maxsplit else maxsplit - 1;
      assert parts == [head] + rest;
      assert sep !in head && maxsplit != 0 && IsSplitOf(rest, sep, m) by {
        forall j | 0 <= j < |rest| - 1 ensures sep !in rest[j] {
          assert rest[j] == parts[j + 1];
        }
        assert rest[|rest| - 1] == parts[|parts| - 1];
      }
      JoinCons(head, rest, sep);
      SplitFirst(head, sep, Join(rest, sep), maxsplit);
      SplitJoin(rest, sep, m);
    }
  }

  /** Each line followed by the terminator `t`, as a loop of `ret += line + t` builds it. */
  function Terminated(lines: seq<string>, t: char): string
  {
    if |lines| == 0 then "" else lines[0] + [t] + Terminated(lines[1..], t)
  }

  /** Appending one more terminated line extends the text at its end. */
  lemma {:induction false} TerminatedSnoc(lines: seq<string>, line: string, t: char)
    ensures Terminated(lines + [line], t) == Terminated(lines, t) + line + [t]
    decreases |lines|
  {
    if |lines| > 0 {
      assert (lines + [line])[1..] == lines[1..] + [line];
      TerminatedSnoc(lines[1..], line, t);
    }
  }

  /** Terminated text is the lines joined by the terminator, with an empty last piece. */
  lemma {:induction false} TerminatedJoin(lines: seq<string>, t: char)
    ensures Terminated(lines, t) == Join(lines + [""], t)
    decreases |lines|
  {
    if |lines| > 0 {
      TerminatedJoin(lines[1..], t);
      assert (lines + [""])[1..] == lines[1..] + [""];
    }
  }

  /**
   * Splitting terminated text at its terminator gives back every line in
   * order, followed by the empty piece after the final terminator.
   */
  lemma SplitTerminated(lines: seq<string>, t: char)
    requires forall i :: 0 <= i < |lines| ==> t !in lines[i]
    ensures Split(Terminated(lines, t), t, -1) == lines + [""]
  {
    TerminatedJoin(lines, t);
    var parts := lines + [""];
    assert IsSplitOf(parts, t, -1) by {
      forall j | 0 <= j < |parts| - 1 ensures t !in parts[j] {
        assert parts[j] == lines[j];
      }
    }
    SplitJoin(parts, t, -1);
  }

  /** An unlimited split of `a + [sep] + b` is the split of `a` followed by the split of `b`. */
  lemma {:induction false} SplitAround(a: string, sep: char, b: string)
    ensures Split(a + [sep] + b, sep, -1) == Split(a, sep, -1) + Split(b, sep, -1)
    decreases |a|
  {
    var i := Find(a, sep);
    if i < 0 {
      SplitFirst(a, sep, b, -1);
      SplitNone(a, sep, -1);
    } else {
      var head, tail := a[..i], a[i + 1..];
      assert a == head + [sep] + tail;
      assert a + [sep] + b == head + [sep] + (tail + [sep] + b);
      SplitFirst(head, sep, tail + [sep] + b, -1);
      SplitFirst(head, sep, tail, -1);
      SplitAround(tail, sep, b);
      ConcatAssoc([head], Split(tail, sep, -1), Split(b, sep, -1));
    }
  }

  /** `split(sep, 1)` cuts at the first `sep`, or leaves a text without one whole. */
  lemma SplitOnce(s: string, sep: char)
    ensures var r := Split(s, sep, 1);
      && (|r| == 2 ==> s == r[0] + [sep] + r[1] && sep !in r[0])
      && (|r| == 1 ==> r[0] == s && sep !in s)
  {
    var r := Split(s, sep, 1);
    SplitSpec(s, sep, 1);
    if |r| == 2 {
      assert r[1..] == [r[1]];
    }
  }

  /** `split(sep, 1)` of a text with its first `sep` after `a` gives `a` and the rest. */
  lemma SplitOnceOf(a: string, sep: char, b: string)
    requires sep !in a
    ensures Split(a + [sep] + b, sep, 1) == [a, b]
  {
    var parts := [a, b];
    assert parts[1..] == [b];
    SplitJoin(parts, sep, 1);
  }

  /** A leading separator makes an empty first piece. */
  lemma SplitLeadingSep(sep: char, b: string)
    ensures Split([sep] + b, sep, -1) == [""] + Split(b, sep, -1)
  {
    SplitAround("", sep, b);
    assert "" + [sep] + b == [sep] + b;
    assert Split("", sep, -1) == [""];
  }

  /** Two separators in a row make an empty piece between the splits of both sides. */
  lemma SplitAroundEmpty(a: string, sep: char, b: string)
    ensures Split(a + [sep, sep] + b, sep, -1) == Split(a, sep, -1) + [""] + Split(b, sep, -1)
  {
    var tail := [sep] + b;
    SplitLeadingSep(sep, b);
    SplitAround(a, sep, tail);
    assert a + [sep] + tail == a + [sep, sep] + b;
    ConcatAssoc(Split(a, sep, -1), [""], Split(b, sep, -1));
  }

  /** A final separator adds an empty last piece. */
  lemma SplitTrailingSep(a: string, sep: char)
    ensures Split(a + [sep], sep, -1) == Split(a, sep, -1) + [""]
  {
    SplitAround(a, sep, "");
    assert a + [sep] + "" == a + [sep];
    assert Split("", sep, -1) == [""];
  }
}
