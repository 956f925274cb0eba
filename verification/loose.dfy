/** The shape both "loose" regular expressions share. For a pattern word
    c1 c2 ... ck the expression is, per character, a run of one or more text
    characters standing for ci, followed by a run of zero or more separators:

        U(c1)+ S* U(c2)+ S* ... U(ck)+ S*

    `unit(x, c)` says text character x may stand for pattern character c, and
    `sep(x)` says x is a separator. Neither expression has back-references or
    look-around, so a backtracking engine accepts a string exactly when a
    derivation in this grammar exists; the predicates below state the grammar
    directly instead of interpreting a compiled pattern. */
module LooseGrammar {
  import opened Text

  /** The whole of `s` is derived from pattern `p`. */
  predicate Runs(p: String, s: String, unit: (char, char) -> bool, sep: char -> bool)
    decreases |s|, |p|, 1
  {
    if |p| == 0 then |s| == 0 else UnitRun(p[0], p[1..], s, unit, sep)
  }

  /** `s` starts with at least one character standing for `c`, and the rest
      of the derivation follows. */
  predicate UnitRun(c: char, rest: String, s: String, unit: (char, char) -> bool, sep: char -> bool)
    decreases |s|, |rest| + 1, 0
  {
    && |s| > 0
    && unit(s[0], c)
    && (UnitRun(c, rest, s[1..], unit, sep) || SepRun(rest, s[1..], unit, sep))
  }

  /** `s` starts with zero or more separators, and the rest of the
      derivation follows. */
  predicate SepRun(rest: String, s: String, unit: (char, char) -> bool, sep: char -> bool)
    decreases |s|, |rest|, 2
  {
    || Runs(rest, s, unit, sep)
    || (|s| > 0 && sep(s[0]) && SepRun(rest, s[1..], unit, sep))
  }

  function Repeat(c: char, n: nat): (r: String)
    ensures |r| == n
    ensures forall k :: 0 <= k < n ==> r[k] == c
  {
    seq(n, _ => c)
  }

  /** Run lengths, one per pattern character, none of them zero. */
  predicate PositiveCounts(p: String, ns: seq<nat>) {
    |ns| == |p| && forall k :: 0 <= k < |ns| ==> ns[k] >= 1
  }

  /** q[0]^ns[0] q[1]^ns[1] ... : each character repeated its count. */
  function Expand(q: String, ns: seq<nat>): String
    requires |ns| == |q|
    decreases |q|
  {
    if |q| == 0 then [] else Repeat(q[0], ns[0]) + Expand(q[1..], ns[1..])
  }

  /** One repetition per character. */
  function Ones(n: nat): (ns: seq<nat>)
    ensures |ns| == n && forall k :: 0 <= k < n ==> ns[k] == 1
  {
    seq(n, _ => 1)
  }

  /** Expanding with one repetition per character gives the word back. */
  lemma {:induction false} ExpandOnes(q: String)
    ensures Expand(q, Ones(|q|)) == q
    decreases |q|
  {
    if |q| > 0 {
      ExpandOnes(q[1..]);
      assert Ones(|q|)[1..] == Ones(|q| - 1);
      assert q == [q[0]] + q[1..];
    }
  }

  /** A derivation covers at least one character per pattern character. */
  lemma {:induction false} RunsLength(p: String, s: String, unit: (char, char) -> bool, sep: char -> bool)
    requires Runs(p, s, unit, sep)
    ensures |s| >= |p|
    decreases |s|, |p|, 1
  {
    if |p| > 0 {
      UnitRunLength(p[0], p[1..], s, unit, sep);
    }
  }

  lemma {:induction false} UnitRunLength(c: char, rest: String, s: String, unit: (char, char) -> bool, sep: char -> bool)
    requires UnitRun(c, rest, s, unit, sep)
    ensures |s| >= |rest| + 1
    decreases |s|, |rest| + 1, 0
  {
    if UnitRun(c, rest, s[1..], unit, sep) {
      UnitRunLength(c, rest, s[1..], unit, sep);
    } else {
      SepRunLength(rest, s[1..], unit, sep);
    }
  }

  lemma {:induction false} SepRunLength(rest: String, s: String, unit: (char, char) -> bool, sep: char -> bool)
    requires SepRun(rest, s, unit, sep)
    ensures |s| >= |rest|
    decreases |s|, |rest|, 2
  {
    if Runs(rest, s, unit, sep) {
      RunsLength(rest, s, unit, sep);
    } else {
      SepRunLength(rest, s[1..], unit, sep);
    }
  }

  lemma {:induction false} UnitRunOfRepeat(c: char, x: char, n: nat, rest: String, u: String, unit: (char, char) -> bool, sep: char -> bool)
    requires n >= 1
    requires unit(x, c)
    requires Runs(rest, u, unit, sep)
    ensures UnitRun(c, rest, Repeat(x, n) + u, unit, sep)
    decreases n
  {
    var s := Repeat(x, n) + u;
    assert s[0] == x;
    if n == 1 {
      assert s[1..] == u;
    } else {
      UnitRunOfRepeat(c, x, n - 1, rest, u, unit, sep);
      assert s[1..] == Repeat(x, n - 1) + u;
    }
  }

  /** Soundness of the grammar: a text made of a positive run of a stand-in
      for each pattern character, in order, is derived. */
  lemma {:induction false} ExpandRuns(p: String, q: String, ns: seq<nat>, unit: (char, char) -> bool, sep: char -> bool)
    requires |q| == |p|
    requires PositiveCounts(p, ns)
    requires forall k :: 0 <= k < |p| ==> unit(q[k], p[k])
    ensures Runs(p, Expand(q, ns), unit, sep)
    decreases |p|
  {
    if |p| > 0 {
      ExpandRuns(p[1..], q[1..], ns[1..], unit, sep);
      UnitRunOfRepeat(p[0], q[0], ns[0], p[1..], Expand(q[1..], ns[1..]), unit, sep);
    }
  }

  lemma {:induction false} UnitRunSplit(c: char, rest: String, s: String, unit: (char, char) -> bool, sep: char -> bool)
    returns (n: nat)
    requires UnitRun(c, rest, s, unit, sep)
    requires forall i :: 0 <= i < |s| ==> !sep(s[i])
    requires forall i :: 0 <= i < |s| && unit(s[i], c) ==> s[i] == c
    ensures 1 <= n <= |s|
    ensures s[..n] == Repeat(c, n)
    ensures Runs(rest, s[n..], unit, sep)
    decreases |s|
  {
    var t := s[1..];
    assert forall i :: 0 <= i < |t| ==> t[i] == s[i + 1];
    if UnitRun(c, rest, t, unit, sep) {
      var m := UnitRunSplit(c, rest, t, unit, sep);
      n := m + 1;
      assert s[..n] == [s[0]] + t[..m];
      assert s[n..] == t[m..];
    } else {
      assert SepRun(rest, t, unit, sep);
      n := 1;
      assert s[..1] == [c];
      assert s[1..] == t;
    }
  }

  /** Completeness of the grammar for separator-free text on which `unit` is
      plain equality: a derived text is a positive run of each pattern
      character, in order. */
  lemma {:induction false} RunsExpand(p: String, s: String, unit: (char, char) -> bool, sep: char -> bool)
    returns (ns: seq<nat>)
    requires Runs(p, s, unit, sep)
    requires forall i :: 0 <= i < |s| ==> !sep(s[i])
    requires forall i, k :: 0 <= i < |s| && 0 <= k < |p| && unit(s[i], p[k]) ==> s[i] == p[k]
    ensures PositiveCounts(p, ns)
    ensures s == Expand(p, ns)
    decreases |p|
  {
    if |p| == 0 {
      ns := [];
    } else {
      var n := UnitRunSplit(p[0], p[1..], s, unit, sep);
      var t := s[n..];
      assert forall i :: 0 <= i < |t| ==> t[i] == s[i + n];
      assert forall k :: 0 <= k < |p| - 1 ==> p[1..][k] == p[k + 1];
      var ms := RunsExpand(p[1..], t, unit, sep);
      ns := [n] + ms;
      assert ns[1..] == ms;
      assert s == s[..n] + t;
    }
  }
}
