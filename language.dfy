/**
 * The standard regular language of a parse tree. It is not part of the
 * original program: it is the reference the matcher is compared against.
 */
module Language {
  import opened Tree

  /** `w` is one of the words denoted by `n`. A starred tree denotes the empty
      word and every non-empty word of the body followed by a starred word. */
  ghost predicate Accepts(n: Node, w: string)
    decreases n, |w|
  {
    match n
    case Literal(c) => w == [c]
    case Alternation(l, r) => Accepts(l, w) || Accepts(r, w)
    case Concatenation(l, r) =>
      exists k :: 0 <= k <= |w| && Accepts(l, w[..k]) && Accepts(r, w[k..])
    case Star(b) =>
      w == [] || exists k :: 0 < k <= |w| && Accepts(b, w[..k]) && Accepts(n, w[k..])
  }

  /** Whether a tree denotes the empty word, read off its shape. */
  predicate Nullable(n: Node) {
    match n
    case Literal(_) => false
    case Alternation(l, r) => Nullable(l) || Nullable(r)
    case Concatenation(l, r) => Nullable(l) && Nullable(r)
    case Star(_) => true
  }

  lemma {:induction false} NullableAcceptsEmpty(n: Node)
    ensures Nullable(n) <==> Accepts(n, [])
  {
    match n
    case Literal(_) =>
    case Alternation(l, r) =>
      NullableAcceptsEmpty(l);
      NullableAcceptsEmpty(r);
    case Concatenation(l, r) =>
      NullableAcceptsEmpty(l);
      NullableAcceptsEmpty(r);
      var w: string := [];
      assert w[..0] == [] && w[0..] == [];
    case Star(_) =>
  }

  /** A starred word followed by a word of the body is a starred word. */
  lemma {:induction false} StarAppend(b: Node, p: string, q: string)
    requires Accepts(Star(b), p) && Accepts(b, q)
    ensures Accepts(Star(b), p + q)
    decreases |p|
  {
    var w := p + q;
    if p == [] {
      assert w == q;
      if q != [] {
        assert w[..|q|] == q && w[|q|..] == [];
      } else {
        assert w == [];
      }
    } else {
      var k :| 0 < k <= |p| && Accepts(b, p[..k]) && Accepts(Star(b), p[k..]);
      StarAppend(b, p[k..], q);
      assert w[..k] == p[..k];
      assert w[k..] == p[k..] + q;
    }
  }

  /** Matching `n` from `x` can leave `o`: `o` is a suffix of `x` and the part
      of `x` before it is a word of `n`. */
  ghost predicate Derives(n: Node, x: string, o: string) {
    IsSuffix(o, x) && Accepts(n, x[..|x| - |o|])
  }

  lemma DerivesNothing(b: Node, x: string)
    ensures Derives(Star(b), x, x)
  {
    assert x[..0] == [];
  }

  lemma DerivesLiteral(c: char, x: string)
    requires |x| > 0 && x[0] == c
    ensures Derives(Literal(c), x, x[1..])
  {
    assert x[..1] == [c];
  }

  lemma DerivesConcatenation(l: Node, r: Node, x: string, y: string, o: string)
    requires Derives(l, x, y) && Derives(r, y, o)
    ensures Derives(Concatenation(l, r), x, o)
  {
    var p, q := x[..|x| - |y|], y[..|y| - |o|];
    SuffixTransitive(o, y, x);
    assert x[..|x| - |o|] == p + q;
    assert (p + q)[..|p|] == p && (p + q)[|p|..] == q;
  }

  lemma DerivesStarStep(b: Node, x: string, y: string, o: string)
    requires Derives(Star(b), x, y) && Derives(b, y, o)
    ensures Derives(Star(b), x, o)
  {
    var p, q := x[..|x| - |y|], y[..|y| - |o|];
    SuffixTransitive(o, y, x);
    assert x[..|x| - |o|] == p + q;
    StarAppend(b, p, q);
  }
}
