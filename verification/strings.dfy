/**
 * The two string services the generator relies on: `std::string::find`
 * (substring search, where "not found" is `npos`) and the newline-terminated
 * lines the generated file is made of.
 */
module Strings {
  import opened Options

  /** `t` occurs in `s` starting at index `i`. */
  predicate OccursAt(s: string, t: string, i: nat) {
    i + |t| <= |s| && s[i..i + |t|] == t
  }

  /**
   * The search `s.find(t, from)`: the least index at or after `from` where
   * `t` occurs, or `None` for `npos`.
   */
  function FindFrom(s: string, t: string, from: nat): (r: Option<nat>)
    ensures r.Some? ==> from <= r.value && OccursAt(s, t, r.value)
    ensures r.Some? ==> forall j: nat :: from <= j < r.value ==> !OccursAt(s, t, j)
    ensures r.None? ==> forall j: nat :: from <= j ==> !OccursAt(s, t, j)
    decreases |s| + 1 - from
  {
    if from + |t| > |s| then None
    else if s[from..from + |t|] == t then Some(from)
    else FindFrom(s, t, from + 1)
  }

  /** `s.find(t)`: the first occurrence of `t` in `s`, or `None` for `npos`. */
  function Find(s: string, t: string): (r: Option<nat>)
    ensures r.Some? <==> exists i: nat :: OccursAt(s, t, i)
    ensures r.Some? ==> OccursAt(s, t, r.value)
    ensures r.Some? ==> forall j: nat :: j < r.value ==> !OccursAt(s, t, j)
  {
    FindFrom(s, t, 0)
  }

  /** `s.find(t) != npos`: `t` is a substring of `s`. */
  predicate Contains(s: string, t: string) {
    Find(s, t).Some?
  }

  /** The empty string is found at index 0 of every string. */
  lemma EmptyFound(s: string)
    ensures Find(s, []) == Some(0)
    ensures Contains(s, [])
  {
    assert OccursAt(s, [], 0);
  }

  /** Every string contains itself, and nothing longer than itself. */
  lemma ContainsBounds(s: string, t: string)
    ensures Contains(s, s)
    ensures Contains(s, t) ==> |t| <= |s|
  {
    assert s[0..|s|] == s;
    assert OccursAt(s, s, 0);
  }

  /** A non-empty string never occurs in the empty string. */
  lemma NothingInEmpty(t: string)
    ensures Contains([], t) <==> t == []
  {
    if t == [] {
      EmptyFound([]);
    } else {
      ContainsBounds([], t);
    }
  }

  /** The string contains no line terminator. */
  predicate NoNewline(l: string) {
    '\n' !in l
  }

  /** Every line of the sequence is free of line terminators. */
  predicate AllNoNewline(ls: seq<string>) {
    forall i :: 0 <= i < |ls| ==> NoNewline(ls[i])
  }

  /** The lines, each followed by a line terminator. */
  function JoinLines(ls: seq<string>): string {
    if |ls| == 0 then [] else ls[0] + "\n" + JoinLines(ls[1..])
  }

  /** The index of the first line terminator of `s`, or `|s|` if there is none. */
  function LineEnd(s: string): (r: nat)
    ensures r <= |s|
    ensures r < |s| ==> s[r] == '\n'
    ensures forall i :: 0 <= i < r ==> s[i] != '\n'
  {
    if |s| == 0 || s[0] == '\n' then 0 else 1 + LineEnd(s[1..])
  }

  /** The lines of `s`; a final line without terminator is kept. */
  function SplitLines(s: string): (r: seq<string>)
    ensures AllNoNewline(r)
    decreases |s|
  {
    if |s| == 0 then []
    else
      var k := LineEnd(s);
      if k == |s| then [s] else [s[..k]] + SplitLines(s[k + 1..])
  }

  lemma {:induction false} JoinLinesAppend(a: seq<string>, b: seq<string>)
    ensures JoinLines(a + b) == JoinLines(a) + JoinLines(b)
    decreases |a|
  {
    if |a| == 0 {
      assert a + b == b;
    } else {
      assert (a + b)[1..] == a[1..] + b;
      JoinLinesAppend(a[1..], b);
    }
  }

  /** The first line of `l + "\n" + rest` is `l` when `l` has no terminator. */
  lemma FirstLine(l: string, rest: string)
    requires NoNewline(l)
    ensures LineEnd(l + "\n" + rest) == |l|
  {
    var s := l + "\n" + rest;
    assert s[|l|] == '\n';
    assert forall i :: 0 <= i < |l| ==> s[i] == l[i];
  }

  /** Joining at least one line gives a text that ends with a terminator. */
  lemma {:induction false} JoinLinesTerminated(ls: seq<string>)
    requires |ls| > 0
    ensures |JoinLines(ls)| > 0 && JoinLines(ls)[|JoinLines(ls)| - 1] == '\n'
    decreases |ls|
  {
    if |ls| > 1 {
      JoinLinesTerminated(ls[1..]);
    } else {
      assert ls[1..] == [];
    }
  }

  /** A terminated first line without inner terminator splits off on its own. */
  lemma SplitPrefix(l: string, rest: string)
    requires NoNewline(l)
    ensures SplitLines(l + "\n" + rest) == [l] + SplitLines(rest)
  {
    var s := l + "\n" + rest;
    FirstLine(l, rest);
    assert s[..|l|] == l;
    assert s[|l| + 1..] == rest;
  }

  /** The third line of three terminated lines followed by anything is the third of them. */
  lemma ThirdLine(l0: string, l1: string, l2: string, rest: string)
    requires NoNewline(l0) && NoNewline(l1) && NoNewline(l2)
    ensures |SplitLines(l0 + "\n" + (l1 + "\n" + (l2 + "\n" + rest)))| >= 3
    ensures SplitLines(l0 + "\n" + (l1 + "\n" + (l2 + "\n" + rest)))[2] == l2
  {
    SplitPrefix(l2, rest);
    SplitPrefix(l1, l2 + "\n" + rest);
    SplitPrefix(l0, l1 + "\n" + (l2 + "\n" + rest));
  }

  /** Splitting joined lines gives the lines back. */
  lemma {:induction false} SplitJoin(ls: seq<string>)
    requires AllNoNewline(ls)
    ensures SplitLines(JoinLines(ls)) == ls
    decreases |ls|
  {
    if |ls| > 0 {
      var rest := JoinLines(ls[1..]);
      var s := ls[0] + "\n" + rest;
      assert NoNewline(ls[0]);
      FirstLine(ls[0], rest);
      assert s[..|ls[0]|] == ls[0];
      assert s[|ls[0]| + 1..] == rest;
      SplitJoin(ls[1..]);
      assert ls == [ls[0]] + ls[1..];
    }
  }

  /** Joining the lines of a terminated text gives the text back. */
  lemma {:induction false} JoinSplit(s: string)
    requires |s| == 0 || s[|s| - 1] == '\n'
    ensures JoinLines(SplitLines(s)) == s
    decreases |s|
  {
    if |s| > 0 {
      var k := LineEnd(s);
      assert s[|s| - 1] == '\n';
      var rest := s[k + 1..];
      JoinSplit(rest);
      assert s == s[..k] + "\n" + rest;
    }
  }
}
