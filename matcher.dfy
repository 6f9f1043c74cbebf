/**
 * The matcher. Instead of building an automaton it pushes a list of candidate
 * unconsumed suffixes of the input through the tree; the input matches when
 * the empty suffix comes out at the root.
 *
 * `Match` is the specification: the pair (suffixes, flag) each node produces
 * from an incoming list. `Matcher` and `MatchString` are the loops of the
 * original, proved to compute it.
 */
module Matching {
  import opened Tree

  predicate StartsWith(x: string, c: char) {
    |x| > 0 && x[0] == c
  }

  /** The strings of `xs` that start with `c`, with that letter removed, in
      the order of `xs`. */
  function Tails(c: char, xs: seq<string>): seq<string> {
    if xs == [] then []
    else
      var x := xs[|xs| - 1];
      Tails(c, xs[..|xs| - 1]) + (if StartsWith(x, c) then [x[1..]] else [])
  }

  function Elements(xs: seq<string>): set<string> {
    set x | x in xs
  }

  lemma ElementsConcat(a: seq<string>, b: seq<string>)
    ensures Elements(a + b) == Elements(a) + Elements(b)
  {
    forall s ensures s in Elements(a + b) <==> s in Elements(a) + Elements(b) {
      assert s in a + b <==> s in a || s in b;
    }
  }

  predicate NoDuplicates(xs: seq<string>) {
    forall i, j :: 0 <= i < j < |xs| ==> xs[i] != xs[j]
  }

  /** Lengths never increase from left to right. */
  predicate LongestFirst(xs: seq<string>) {
    forall i, j :: 0 <= i < j < |xs| ==> |xs[i]| >= |xs[j]|
  }

  /** Inserts `x` after every element at least as long as it. */
  function InsertByLength(x: string, ys: seq<string>): (r: seq<string>)
    ensures |r| == |ys| + 1
  {
    if ys == [] then [x]
    else if |ys[0]| >= |x| then [ys[0]] + InsertByLength(x, ys[1..])
    else [x] + ys
  }

  lemma {:induction false} InsertByLengthElements(x: string, ys: seq<string>)
    ensures Elements(InsertByLength(x, ys)) == Elements(ys) + {x}
  {
    if ys != [] && |ys[0]| >= |x| {
      InsertByLengthElements(x, ys[1..]);
      ElementsConcat([ys[0]], InsertByLength(x, ys[1..]));
      ElementsConcat([ys[0]], ys[1..]);
      assert ys == [ys[0]] + ys[1..];
    } else {
      ElementsConcat([x], ys);
    }
  }

  lemma {:induction false} InsertByLengthSorted(x: string, ys: seq<string>)
    requires LongestFirst(ys)
    ensures LongestFirst(InsertByLength(x, ys))
  {
    if ys != [] && |ys[0]| >= |x| {
      var tail := InsertByLength(x, ys[1..]);
      InsertByLengthSorted(x, ys[1..]);
      InsertByLengthElements(x, ys[1..]);
      forall k | 0 <= k < |tail| ensures |tail[k]| <= |ys[0]| {
        assert tail[k] in Elements(ys[1..]) + {x};
      }
    }
  }

  lemma {:induction false} InsertByLengthDistinct(x: string, ys: seq<string>)
    requires NoDuplicates(ys) && x !in ys
    ensures NoDuplicates(InsertByLength(x, ys))
  {
    if ys != [] && |ys[0]| >= |x| {
      var tail := InsertByLength(x, ys[1..]);
      InsertByLengthDistinct(x, ys[1..]);
      InsertByLengthElements(x, ys[1..]);
      forall k | 0 <= k < |tail| ensures tail[k] != ys[0] {
        assert tail[k] in Elements(ys[1..]) + {x};
      }
    }
  }

  /** The distinct elements of `xs`, longest first: the original's
      `list(set(xs))`, `sort(key=len)` and `reversed`. Among strings of equal
      length this keeps the order in which they first occur. */
  function DistinctByLength(xs: seq<string>): (r: seq<string>)
    ensures |r| <= |xs|
    ensures xs != [] ==> r != []
  {
    if xs == [] then []
    else
      var init := DistinctByLength(xs[..|xs| - 1]);
      var x := xs[|xs| - 1];
      if x in init then init else InsertByLength(x, init)
  }

  /** `DistinctByLength` drops duplicates, orders longest first, and keeps
      exactly the elements of its input. */
  lemma {:induction false} DistinctByLengthSpec(xs: seq<string>)
    ensures var r := DistinctByLength(xs);
            NoDuplicates(r) && LongestFirst(r) && Elements(r) == Elements(xs)
  {
    if xs != [] {
      var init := DistinctByLength(xs[..|xs| - 1]);
      var x := xs[|xs| - 1];
      DistinctByLengthSpec(xs[..|xs| - 1]);
      assert xs == xs[..|xs| - 1] + [x];
      ElementsConcat(xs[..|xs| - 1], [x]);
      if x !in init {
        InsertByLengthElements(x, init);
        InsertByLengthSorted(x, init);
        InsertByLengthDistinct(x, init);
      }
    }
  }

  function Last(xs: seq<string>): string
    requires |xs| > 0
  {
    xs[|xs| - 1]
  }

  /** What a node makes of an incoming list of suffixes: the outgoing list
      and the node's success flag. */
  function Match(n: Node, xs: seq<string>): (r: (seq<string>, bool))
    ensures |xs| > 0 && r.1 ==> |r.0| > 0
    decreases n, 0, 0
  {
    match n
    case Literal(c) =>
      var tails := Tails(c, xs);
      (tails, tails != [])
    case Alternation(l, r) =>
      var (left, checkLeft) := Match(l, xs);
      var (right, checkRight) := Match(r, xs);
      (DistinctByLength(left + right), checkLeft || checkRight)
    case Concatenation(l, r) =>
      var (left, checkLeft) := Match(l, xs);
      var (right, checkRight) := Match(r, left);
      (DistinctByLength(right), checkLeft && checkRight)
    case Star(b) =>
      (if |xs| == 0 then xs else StarLoop(b, xs, |xs[0]|), true)
  }

  /** The star's loop from the list `copy` with `i` rounds left: feed the
      whole list to the body; on success append the last suffix the body
      produced, and stop once that suffix is empty. */
  function StarLoop(b: Node, copy: seq<string>, i: nat): (r: seq<string>)
    requires |copy| > 0
    ensures |copy| <= |r| <= |copy| + i
    ensures r[..|copy|] == copy
    decreases b, 1, i
  {
    if i == 0 then copy
    else
      var (next, check) := Match(b, copy);
      if !check then copy
      else if Last(next) == "" then copy + [Last(next)]
      else StarLoop(b, copy + [Last(next)], i - 1)
  }

  /** The input is matched when the empty suffix comes out of the root. */
  predicate Matches(root: Node, s: string) {
    "" in Match(root, [s]).0
  }

  method Matcher(node: Node, strings: seq<string>) returns (suffixes: seq<string>, check: bool)
    ensures (suffixes, check) == Match(node, strings)
    decreases node
  {
    match node {
      case Literal(c) =>
        suffixes, check := [], false;
        var i := 0;
        while i < |strings|
          invariant 0 <= i <= |strings|
          invariant suffixes == Tails(c, strings[..i])
          invariant check <==> suffixes != []
        {
          var s := strings[i];
          if |s| > 0 && c == s[0] {
            check := true;
            suffixes := suffixes + [s[1..]];
          }
          assert strings[..i + 1][..i] == strings[..i];
          i := i + 1;
        }
        assert strings[..i] == strings;
      case Alternation(l, r) =>
        var left, checkLeft := Matcher(l, strings);
        var right, checkRight := Matcher(r, strings);
        suffixes, check := DistinctByLength(left + right), checkLeft || checkRight;
      case Concatenation(l, r) =>
        var left, checkLeft := Matcher(l, strings);
        var right, checkRight := Matcher(r, left);
        suffixes, check := DistinctByLength(right), checkLeft && checkRight;
      case Star(b) =>
        ghost var result := Match(node, strings).0;
        var copy := strings;
        check := true;
        var i := if |copy| > 0 then |copy[0]| else 0;
        while check && i > 0
          invariant if check && i > 0 then |copy| > 0 && StarLoop(b, copy, i) == result
                    else copy == result
          decreases i
        {
          var next;
          next, check := Matcher(b, copy);
          if check {
            copy := copy + [next[|next| - 1]];
            if next[|next| - 1] == "" {
              check := false;
            }
          }
          i := i - 1;
        }
        suffixes, check := copy, true;
    }
  }

  /** The scan over the root's output: is the empty suffix among them? */
  method ScanForEmpty(rest: seq<string>) returns (matched: bool)
    ensures matched <==> "" in rest
  {
    var i := 0;
    matched := false;
    while i < |rest|
      invariant 0 <= i <= |rest|
      invariant matched <==> "" in rest[..i]
    {
      if rest[i] == "" {
        matched := true;
      }
      assert rest[..i + 1] == rest[..i] + [rest[i]];
      i := i + 1;
    }
    assert rest[..i] == rest;
  }

  method MatchString(root: Node, s: string) returns (matched: bool)
    ensures matched <==> Matches(root, s)
  {
    var rest, _ := Matcher(root, [s]);
    matched := ScanForEmpty(rest);
  }
}
