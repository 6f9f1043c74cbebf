/**
 * What the suffix-list matcher does at each kind of node, that everything it
 * reports is justified by the regular language of the tree, and where it
 * falls short of deciding that language.
 */
module MatcherProperties {
  import opened Tree
  import opened Language
  import opened Matching

  // ----- Literal -----------------------------------------------------------

  /** A literal keeps exactly the tails of the incoming strings that start
      with its letter, and succeeds exactly when there is one. */
  lemma {:induction false} LiteralStep(c: char, xs: seq<string>)
    ensures forall o :: o in Match(Literal(c), xs).0 <==>
                        exists x :: x in xs && StartsWith(x, c) && o == x[1..]
    ensures Match(Literal(c), xs).1 <==> exists x :: x in xs && StartsWith(x, c)
  {
    if xs != [] {
      var init, x := xs[..|xs| - 1], xs[|xs| - 1];
      LiteralStep(c, init);
      assert xs == init + [x];
      assert forall y :: y in xs <==> y in init || y == x;
    }
  }

  /** The literal step keeps the order of the incoming list. */
  lemma {:induction false} LiteralStepInOrder(c: char, a: seq<string>, b: seq<string>)
    ensures Match(Literal(c), a + b).0 == Match(Literal(c), a).0 + Match(Literal(c), b).0
    decreases |b|
  {
    if b != [] {
      var init := b[..|b| - 1];
      LiteralStepInOrder(c, a, init);
      assert (a + b)[..|a + b| - 1] == a + init;
    } else {
      assert a + b == a;
    }
  }

  // ----- Alternation and concatenation --------------------------------------

  /** An alternation feeds the same list to both sides and returns the
      distinct union of their outputs, longest first; it succeeds when either
      side does. */
  lemma AlternationStep(l: Node, r: Node, xs: seq<string>)
    ensures var out := Match(Alternation(l, r), xs).0;
            NoDuplicates(out) && LongestFirst(out)
            && Elements(out) == Elements(Match(l, xs).0) + Elements(Match(r, xs).0)
    ensures Match(Alternation(l, r), xs).1 == (Match(l, xs).1 || Match(r, xs).1)
  {
    DistinctByLengthSpec(Match(l, xs).0 + Match(r, xs).0);
    ElementsConcat(Match(l, xs).0, Match(r, xs).0);
  }

  /** A concatenation feeds the output of its left side to its right side and
      returns the distinct outputs of the right side, longest first; it
      succeeds when both sides do. */
  lemma ConcatenationStep(l: Node, r: Node, xs: seq<string>)
    ensures var out := Match(Concatenation(l, r), xs).0;
            NoDuplicates(out) && LongestFirst(out)
            && Elements(out) == Elements(Match(r, Match(l, xs).0).0)
    ensures Match(Concatenation(l, r), xs).1 == (Match(l, xs).1 && Match(r, Match(l, xs).0).1)
  {
    DistinctByLengthSpec(Match(r, Match(l, xs).0).0);
  }

  /** After an alternation or a concatenation the last suffix is a shortest
      one, the one a star around it extends from. */
  lemma CompositeLastIsShortest(n: Node, xs: seq<string>)
    requires n.Alternation? || n.Concatenation?
    requires Match(n, xs).0 != []
    ensures forall o :: o in Match(n, xs).0 ==> |Last(Match(n, xs).0)| <= |o|
  {
    if n.Alternation? {
      AlternationStep(n.left, n.right, xs);
    } else {
      ConcatenationStep(n.left, n.right, xs);
    }
    LastIsShortest(Match(n, xs).0);
  }

  lemma LastIsShortest(out: seq<string>)
    requires out != [] && LongestFirst(out)
    ensures forall o :: o in out ==> |Last(out)| <= |o|
  {
    forall o | o in out ensures |Last(out)| <= |o| {
      var k :| 0 <= k < |out| && out[k] == o;
      if k < |out| - 1 {
        assert |out[k]| >= |out[|out| - 1]|;
      }
    }
  }

  // ----- Star ---------------------------------------------------------------

  /** Position `k` of a star's output holds the last suffix the body
      produced from everything before it. */
  predicate AppendedByBody(b: Node, out: seq<string>, k: nat)
    requires 0 < k < |out|
  {
    var (next, check) := Match(b, out[..k]);
    check && |next| > 0 && out[k] == Last(next)
  }

  /** One round of the star loop: the body's last output is appended, and
      the loop either stops on an empty suffix or goes on from the longer list. */
  lemma StarLoopRound(b: Node, copy: seq<string>, i: nat)
    requires |copy| > 0 && i > 0 && Match(b, copy).1
    ensures var out, last := StarLoop(b, copy, i), Last(Match(b, copy).0);
            && |copy| < |out| && out[..|copy| + 1] == copy + [last]
            && (last == "" ==> out == copy + [last])
            && (last != "" ==> out == StarLoop(b, copy + [last], i - 1))
  {
  }

  lemma {:induction false} StarLoopAppends(b: Node, copy: seq<string>, i: nat)
    requires |copy| > 0
    ensures var out := StarLoop(b, copy, i);
            forall k :: |copy| <= k < |out| ==> AppendedByBody(b, out, k)
    ensures var out := StarLoop(b, copy, i);
            forall k :: |copy| <= k < |out| - 1 ==> out[k] != ""
    decreases i
  {
    var out := StarLoop(b, copy, i);
    if i > 0 && Match(b, copy).1 {
      var last := Last(Match(b, copy).0);
      var next := copy + [last];
      StarLoopRound(b, copy, i);
      assert out[..|copy|] == copy && out[|copy|] == last by {
        assert out[..|next|][..|copy|] == copy;
        assert out[..|next|][|copy|] == last;
      }
      assert AppendedByBody(b, out, |copy|);
      if last != "" {
        StarLoopAppends(b, next, i - 1);
        forall k | |next| <= k < |out| ensures AppendedByBody(b, out, k) {
        }
      } else {
        assert |out| == |next|;
      }
    }
  }

  /** A star always succeeds; its output is the incoming list followed by at
      most `|xs[0]|` appended suffixes, each the last output of the body run
      on everything before it, and only the final one can be empty. */
  lemma StarStep(b: Node, xs: seq<string>)
    ensures Match(Star(b), xs).1
    ensures var out := Match(Star(b), xs).0;
            && |xs| <= |out| && out[..|xs|] == xs
            && |out| <= |xs| + (if xs == [] then 0 else |xs[0]|)
    ensures var out := Match(Star(b), xs).0;
            forall k :: |xs| <= k < |out| ==> 0 < k && AppendedByBody(b, out, k)
    ensures var out := Match(Star(b), xs).0;
            forall k :: |xs| <= k < |out| - 1 ==> out[k] != ""
  {
    var out := Match(Star(b), xs).0;
    if xs == [] {
      assert out == [];
    } else {
      assert out == StarLoop(b, xs, |xs[0]|);
      StarLoopAppends(b, xs, |xs[0]|);
      assert forall k :: |xs| <= k < |out| ==> AppendedByBody(b, out, k);
      assert forall k :: |xs| <= k < |out| - 1 ==> out[k] != "";
    }
  }

  // ----- Soundness ----------------------------------------------------------

  /** Every suffix a node produces is what is left of some incoming string
      after a word of the node's language. */
  lemma {:induction false} MatchSound(n: Node, xs: seq<string>)
    ensures forall o :: o in Match(n, xs).0 ==> exists x :: x in xs && Derives(n, x, o)
    decreases n, 0, 0
  {
    var out := Match(n, xs).0;
    match n
    case Literal(c) =>
      LiteralStep(c, xs);
      forall o | o in out ensures exists x :: x in xs && Derives(n, x, o) {
        var x :| x in xs && StartsWith(x, c) && o == x[1..];
        DerivesLiteral(c, x);
      }
    case Alternation(l, r) =>
      MatchSound(l, xs);
      MatchSound(r, xs);
      AlternationStep(l, r, xs);
      forall o | o in out ensures exists x :: x in xs && Derives(n, x, o) {
        assert o in Elements(out);
        if o in Match(l, xs).0 {
          var x :| x in xs && Derives(l, x, o);
          assert Derives(n, x, o);
        } else {
          assert o in Elements(Match(r, xs).0);
          var x :| x in xs && Derives(r, x, o);
          assert Derives(n, x, o);
        }
      }
    case Concatenation(l, r) =>
      var mid := Match(l, xs).0;
      MatchSound(l, xs);
      MatchSound(r, mid);
      ConcatenationStep(l, r, xs);
      forall o | o in out ensures exists x :: x in xs && Derives(n, x, o) {
        assert o in Elements(out);
        assert o in Match(r, mid).0;
        var y :| y in mid && Derives(r, y, o);
        var x :| x in xs && Derives(l, x, y);
        DerivesConcatenation(l, r, x, y, o);
      }
    case Star(b) =>
      if xs != [] {
        forall y | y in xs ensures exists x :: x in xs && Derives(n, x, y) {
          DerivesNothing(b, y);
        }
        StarLoopSound(b, xs, |xs[0]|, xs);
      }
  }

  lemma {:induction false} StarLoopSound(b: Node, copy: seq<string>, i: nat, xs: seq<string>)
    requires |copy| > 0
    requires forall y :: y in copy ==> exists x :: x in xs && Derives(Star(b), x, y)
    ensures forall o :: o in StarLoop(b, copy, i) ==> exists x :: x in xs && Derives(Star(b), x, o)
    decreases b, 1, i
  {
    if i > 0 && Match(b, copy).1 {
      var last := Last(Match(b, copy).0);
      MatchSound(b, copy);
      assert last in Match(b, copy).0;
      var y :| y in copy && Derives(b, y, last);
      var x :| x in xs && Derives(Star(b), x, y);
      DerivesStarStep(b, x, y, last);
      var next := copy + [last];
      forall z | z in next ensures exists x :: x in xs && Derives(Star(b), x, z) {
        if z != last {
          assert z in copy;
        }
      }
      if last != "" {
        StarLoopSound(b, next, i - 1, xs);
      }
    }
  }

  /** Every suffix the matcher returns is a suffix of one of the incoming strings. */
  lemma MatchSuffixes(n: Node, xs: seq<string>)
    ensures forall o :: o in Match(n, xs).0 ==> exists x :: x in xs && IsSuffix(o, x)
  {
    MatchSound(n, xs);
  }

  /** The matcher accepts only words of the tree's regular language. */
  lemma MatchStringSound(root: Node, s: string)
    ensures Matches(root, s) ==> Accepts(root, s)
  {
    MatchSound(root, [s]);
    if Matches(root, s) {
      var x :| x in [s] && Derives(root, x, "");
      assert x == s && s[..|s| - 0] == s;
    }
  }

  // ----- Completeness for star-free trees -----------------------------------

  predicate StarFree(n: Node) {
    match n
    case Literal(_) => true
    case Alternation(l, r) => StarFree(l) && StarFree(r)
    case Concatenation(l, r) => StarFree(l) && StarFree(r)
    case Star(_) => false
  }

  /** Splitting the word consumed by a concatenation at `k` names the suffix
      left after its first part. */
  lemma DerivesSplit(l: Node, r: Node, x: string, o: string, k: nat)
    requires IsSuffix(o, x) && k <= |x| - |o|
    requires Accepts(l, x[..|x| - |o|][..k]) && Accepts(r, x[..|x| - |o|][k..])
    ensures Derives(l, x, x[k..]) && Derives(r, x[k..], o)
  {
    SplitText(x, o, k);
  }

  /** The text facts behind `DerivesSplit`, kept apart from the language. */
  lemma SplitText(x: string, o: string, k: nat)
    requires IsSuffix(o, x) && k <= |x| - |o|
    ensures var y := x[k..];
            && IsSuffix(y, x) && IsSuffix(o, y)
            && x[..|x| - |o|][..k] == x[..|x| - |y|]
            && x[..|x| - |o|][k..] == y[..|y| - |o|]
  {
    var y := x[k..];
    assert y[|y| - |o|..] == x[|x| - |o|..];
  }

  /** Every suffix that a word of `n`'s language leaves of a string of `xs`
      is among the suffixes `n` outputs. */
  ghost predicate Complete(n: Node, xs: seq<string>) {
    forall x, o :: x in xs && Derives(n, x, o) ==> o in Match(n, xs).0
  }

  lemma LiteralComplete(c: char, xs: seq<string>)
    ensures Complete(Literal(c), xs)
  {
    LiteralStep(c, xs);
    forall x, o | x in xs && Derives(Literal(c), x, o) ensures o in Match(Literal(c), xs).0 {
      assert |x| - |o| == 1 && x[0] == c;
      assert o == x[1..];
    }
  }

  lemma AlternationKeeps(l: Node, r: Node, xs: seq<string>, o: string)
    requires o in Match(l, xs).0 || o in Match(r, xs).0
    ensures o in Match(Alternation(l, r), xs).0
  {
    AlternationStep(l, r, xs);
    assert o in Elements(Match(l, xs).0) + Elements(Match(r, xs).0);
    assert o in Elements(Match(Alternation(l, r), xs).0);
  }

  lemma AlternationComplete(l: Node, r: Node, xs: seq<string>)
    requires Complete(l, xs) && Complete(r, xs)
    ensures Complete(Alternation(l, r), xs)
  {
    forall x, o | x in xs && Derives(Alternation(l, r), x, o)
      ensures o in Match(Alternation(l, r), xs).0
    {
      assert Derives(l, x, o) || Derives(r, x, o);
      AlternationKeeps(l, r, xs, o);
    }
  }

  /** A word of a concatenation splits at an intermediate suffix. */
  lemma DerivesConcatenationSplit(l: Node, r: Node, x: string, o: string)
    requires Derives(Concatenation(l, r), x, o)
    ensures exists y :: Derives(l, x, y) && Derives(r, y, o)
  {
    var w := x[..|x| - |o|];
    var k :| 0 <= k <= |w| && Accepts(l, w[..k]) && Accepts(r, w[k..]);
    DerivesSplit(l, r, x, o, k);
  }

  lemma ConcatenationComplete(l: Node, r: Node, xs: seq<string>)
    requires Complete(l, xs) && Complete(r, Match(l, xs).0)
    ensures Complete(Concatenation(l, r), xs)
  {
    var mid := Match(l, xs).0;
    ConcatenationStep(l, r, xs);
    forall x, o | x in xs && Derives(Concatenation(l, r), x, o)
      ensures o in Match(Concatenation(l, r), xs).0
    {
      DerivesConcatenationSplit(l, r, x, o);
      var y :| Derives(l, x, y) && Derives(r, y, o);
      assert y in mid;
      assert o in Elements(Match(r, mid).0);
      assert o in Elements(Match(Concatenation(l, r), xs).0);
    }
  }

  /** Without a star the matcher loses nothing: every suffix that a word of
      the tree's language leaves of an incoming string comes out. */
  lemma {:induction false} MatchCompleteStarFree(n: Node, xs: seq<string>)
    requires StarFree(n)
    ensures Complete(n, xs)
  {
    match n
    case Literal(c) =>
      LiteralComplete(c, xs);
    case Alternation(l, r) =>
      MatchCompleteStarFree(l, xs);
      MatchCompleteStarFree(r, xs);
      AlternationComplete(l, r, xs);
    case Concatenation(l, r) =>
      MatchCompleteStarFree(l, xs);
      MatchCompleteStarFree(r, Match(l, xs).0);
      ConcatenationComplete(l, r, xs);
  }

  /** For a star-free tree the matcher decides the tree's language. */
  lemma MatchStringStarFree(root: Node, s: string)
    requires StarFree(root)
    ensures Matches(root, s) <==> Accepts(root, s)
  {
    MatchStringSound(root, s);
    MatchCompleteStarFree(root, [s]);
    if Accepts(root, s) {
      assert s[..|s| - 0] == s && s[|s|..] == "";
      assert Derives(root, s, "");
    }
  }

  // ----- Empty inputs -------------------------------------------------------

  /** Fed no suffixes, a node produces none, and its flag says whether the
      tree denotes the empty word. */
  lemma {:induction false} MatchOnEmptyList(n: Node)
    ensures Match(n, []) == ([], Nullable(n))
  {
    match n
    case Literal(_) =>
    case Alternation(l, r) =>
      MatchOnEmptyList(l);
      MatchOnEmptyList(r);
    case Concatenation(l, r) =>
      MatchOnEmptyList(l);
      MatchOnEmptyList(r);
    case Star(_) =>
  }

  /** Fed only the empty string, a node keeps it exactly when the tree
      denotes the empty word. */
  lemma {:induction false} MatchOnEmptyString(n: Node)
    ensures Match(n, [""]) == (if Nullable(n) then [""] else [], Nullable(n))
  {
    match n
    case Literal(c) =>
      TailsSingle(c, "");
    case Alternation(l, r) =>
      MatchOnEmptyString(l);
      MatchOnEmptyString(r);
      SmallDistinct();
    case Concatenation(l, r) =>
      MatchOnEmptyString(l);
      MatchOnEmptyString(r);
      MatchOnEmptyList(r);
      SmallDistinct();
    case Star(_) =>
  }

  lemma TailsSingle(c: char, x: string)
    ensures Tails(c, [x]) == if StartsWith(x, c) then [x[1..]] else []
  {
    assert [x][..0] == [];
  }

  lemma DistinctSingle(x: string)
    ensures DistinctByLength([x]) == [x]
  {
    assert [x][..0] == [];
  }

  lemma DistinctPair(x: string, y: string)
    requires |x| > |y|
    ensures DistinctByLength([x, y]) == [x, y]
  {
    assert [x, y][..1] == [x];
    DistinctSingle(x);
    assert y !in [x];
    assert InsertByLength(y, [x]) == [x, y] by {
      assert [x][1..] == [];
    }
  }

  lemma SmallDistinct()
    ensures DistinctByLength([]) == []
    ensures DistinctByLength([""]) == [""]
    ensures DistinctByLength(["", ""]) == [""]
  {
    assert ["", ""][..1] == [""];
    assert [""][..0] == [];
  }

  /** The empty input is matched exactly by trees denoting the empty word: by
      every starred tree, and by no bare literal. */
  lemma MatchesEmptyInput(n: Node)
    ensures Matches(n, "") <==> Accepts(n, "")
    ensures n.Star? ==> Matches(n, "")
    ensures n.Literal? ==> !Matches(n, "")
  {
    MatchOnEmptyString(n);
    NullableAcceptsEmpty(n);
  }

  // ----- Where the matcher falls short --------------------------------------

  /** `(((x+(xy)))*y)`, as in `(((a+(ab)))*b)`: the star keeps only the
      suffix left by its longest repetition, so the path that reads one `x`
      and leaves `y` for the final letter is lost. */
  function GreedyBody(x: char, y: char): Node {
    Alternation(Literal(x), Concatenation(Literal(x), Literal(y)))
  }

  function GreedyLoss(x: char, y: char): Node {
    Concatenation(Star(GreedyBody(x, y)), Literal(y))
  }

  lemma GreedyLossAccepted(x: char, y: char)
    ensures Accepts(GreedyLoss(x, y), [x, y])
  {
    var body := GreedyBody(x, y);
    var w, u := [x, y], [x];
    assert u[..1] == u && u[1..] == [];
    assert Accepts(body, u);
    assert Accepts(Star(body), u[1..]);
    assert Accepts(Star(body), u);
    assert w[..1] == u && w[1..] == [y];
    assert Accepts(Literal(y), w[1..]);
  }

  lemma GreedyBodyOnWord(x: char, y: char)
    ensures Match(GreedyBody(x, y), [[x, y]]) == ([[y], ""], true)
  {
    TailsSingle(x, [x, y]);
    TailsSingle(y, [y]);
    assert [x, y][1..] == [y] && [y][1..] == "";
    DistinctSingle("");
    DistinctPair([y], "");
    var xy := Concatenation(Literal(x), Literal(y));
    assert Match(Literal(x), [[x, y]]) == ([[y]], true);
    assert Match(Literal(y), [[y]]) == ([""], true);
    assert Match(xy, [[x, y]]) == ([""], true);
  }

  lemma GreedyLossRejected(x: char, y: char)
    ensures !Matches(GreedyLoss(x, y), [x, y])
  {
    var body := GreedyBody(x, y);
    GreedyBodyOnWord(x, y);
    assert StarLoop(body, [[x, y]], 2) == [[x, y], ""];
    assert Match(Star(body), [[x, y]]) == ([[x, y], ""], true);
    LiteralStepInOrder(y, [[x, y]], [""]);
    TailsSingle(y, [x, y]);
    TailsSingle(y, "");
    assert [x, y][1..] == [y];
    if x == y {
      // The final letter reads the whole input's first letter instead.
      assert Match(Literal(y), [[x, y], ""]).0 == [[y]];
      DistinctSingle([y]);
      assert Match(GreedyLoss(x, y), [[x, y]]).0 == [[y]];
    } else {
      assert Match(Literal(y), [[x, y], ""]) == ([], false);
      SmallDistinct();
    }
  }

  lemma NotCompleteFor(x: char, y: char)
    ensures exists n: Node, s: string :: Accepts(n, s) && !Matches(n, s)
  {
    GreedyLossAccepted(x, y);
    GreedyLossRejected(x, y);
  }

  /** The matcher is not complete for every tree with a star. */
  lemma NotComplete()
    ensures exists n: Node, s: string :: Accepts(n, s) && !Matches(n, s)
  {
    NotCompleteFor('a', 'b');
  }

  // ----- The order among suffixes of equal length ---------------------------

  /** Suffixes of the input string that is being matched stay suffixes of it
      through every node. */
  lemma MatchKeepsSuffixesOf(n: Node, xs: seq<string>, w: string)
    requires forall x :: x in xs ==> IsSuffix(x, w)
    ensures forall o :: o in Match(n, xs).0 ==> IsSuffix(o, w)
  {
    MatchSuffixes(n, xs);
    forall o | o in Match(n, xs).0 ensures IsSuffix(o, w) {
      var x :| x in xs && IsSuffix(o, x);
      SuffixTransitive(o, x, w);
    }
  }

  lemma NoElements(xs: seq<string>)
    ensures Elements(xs) == {} <==> xs == []
  {
    if xs != [] {
      assert xs[0] in Elements(xs);
    }
  }

  /** The longest element of two such lists is the same suffix: two suffixes
      of one string with the same length are equal. */
  lemma LongestSuffixAgrees(w: string, p: seq<string>, q: seq<string>)
    requires p != [] && q != []
    requires IsSuffix(p[0], w) && IsSuffix(q[0], w)
    requires LongestFirst(p) && LongestFirst(q)
    requires Elements(p) == Elements(q)
    ensures p[0] == q[0]
  {
    assert p[0] in Elements(q) && q[0] in Elements(p);
    var i :| 0 <= i < |q| && q[i] == p[0];
    var j :| 0 <= j < |p| && p[j] == q[0];
    assert |q[0]| >= |q[i]| && |p[0]| >= |p[j]|;
  }

  /** Dropping the same first element from two duplicate-free lists with the
      same elements leaves lists with the same elements. */
  lemma RestSameElements(p: seq<string>, q: seq<string>)
    requires p != [] && q != [] && p[0] == q[0]
    requires NoDuplicates(p) && NoDuplicates(q)
    requires Elements(p) == Elements(q)
    ensures Elements(p[1..]) == Elements(q[1..])
  {
    forall x ensures x in Elements(p[1..]) <==> x in Elements(q[1..]) {
      if x in p[1..] {
        var k :| 1 <= k < |p| && p[k] == x;
        assert x in Elements(q) && x != q[0];
        var m :| 0 <= m < |q| && q[m] == x;
        assert q[1..][m - 1] == x;
      }
      if x in q[1..] {
        var k :| 1 <= k < |q| && q[k] == x;
        assert x in Elements(p) && x != p[0];
        var m :| 0 <= m < |p| && p[m] == x;
        assert p[1..][m - 1] == x;
      }
    }
  }

  /** Distinct suffixes of one string have distinct lengths, so a list of
      them without duplicates and longest first is fixed by its elements:
      the order the original's sort leaves among equal lengths never arises. */
  lemma {:induction false} SortedSuffixesUnique(w: string, p: seq<string>, q: seq<string>)
    requires forall x :: x in p ==> IsSuffix(x, w)
    requires forall x :: x in q ==> IsSuffix(x, w)
    requires NoDuplicates(p) && LongestFirst(p)
    requires NoDuplicates(q) && LongestFirst(q)
    requires Elements(p) == Elements(q)
    ensures p == q
    decreases |p|
  {
    if p == [] {
      NoElements(q);
    } else {
      NoElements(p);
      NoElements(q);
      LongestSuffixAgrees(w, p, q);
      RestSameElements(p, q);
      SortedSuffixesUnique(w, p[1..], q[1..]);
      assert p == [p[0]] + p[1..] && q == [q[0]] + q[1..];
    }
  }

  /** Any arrangement of suffixes of one string without duplicates, longest
      first, is the one `DistinctByLength` picks. */
  lemma DistinctByLengthCanonical(w: string, xs: seq<string>, r: seq<string>)
    requires forall x :: x in xs ==> IsSuffix(x, w)
    requires NoDuplicates(r) && LongestFirst(r) && Elements(r) == Elements(xs)
    ensures r == DistinctByLength(xs)
  {
    var d := DistinctByLength(xs);
    DistinctByLengthSpec(xs);
    forall x | x in d ensures IsSuffix(x, w) {
      assert x in Elements(xs);
    }
    forall x | x in r ensures IsSuffix(x, w) {
      assert x in Elements(xs);
    }
    SortedSuffixesUnique(w, r, d);
  }

  // ----- A starred letter ---------------------------------------------------

  predicate AllOf(c: char, w: string) {
    forall i :: 0 <= i < |w| ==> w[i] == c
  }

  lemma {:induction false} AcceptsStarOfLetter(c: char, w: string)
    requires Accepts(Star(Literal(c)), w)
    ensures AllOf(c, w)
    decreases |w|
  {
    if w != [] {
      var k :| 0 < k <= |w| && Accepts(Literal(c), w[..k]) && Accepts(Star(Literal(c)), w[k..]);
      assert k == 1 && w[0] == c;
      AcceptsStarOfLetter(c, w[1..]);
      forall i | 0 < i < |w| ensures w[i] == c {
        assert w[1..][i - 1] == w[i];
      }
    }
  }

  lemma {:induction false} StarOfLetterLoop(c: char, copy: seq<string>, i: nat)
    requires |copy| > 0 && AllOf(c, Last(copy)) && |Last(copy)| <= i
    ensures "" in StarLoop(Literal(c), copy, i)
    decreases i
  {
    var out := StarLoop(Literal(c), copy, i);
    var x := Last(copy);
    if x == "" {
      assert out[..|copy|] == copy;
      assert out[|copy| - 1] == x;
    } else {
      var tails := Tails(c, copy);
      assert tails == Tails(c, copy[..|copy| - 1]) + [x[1..]];
      assert Match(Literal(c), copy) == (tails, true);
      var next := copy + [x[1..]];
      if x[1..] == "" {
        assert out == next;
        assert out[|copy|] == "";
      } else {
        assert out == StarLoop(Literal(c), next, i - 1);
        StarOfLetterLoop(c, next, i - 1);
      }
    }
  }

  /** A starred letter matches exactly the strings made only of that letter. */
  lemma StarOfLetter(c: char, s: string)
    ensures Matches(Star(Literal(c)), s) <==> AllOf(c, s)
  {
    if AllOf(c, s) {
      if s == "" {
        MatchesEmptyInput(Star(Literal(c)));
      } else {
        StarOfLetterLoop(c, [s], |s|);
      }
    }
    if Matches(Star(Literal(c)), s) {
      MatchStringSound(Star(Literal(c)), s);
      AcceptsStarOfLetter(c, s);
    }
  }
}
