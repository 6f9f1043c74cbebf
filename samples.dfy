/**
 * Illustrative examples of the pattern matcher: what the parser builds for
 * small patterns and which inputs the tree then matches. They are not taken
 * from the original, which documents no matching examples. Each pattern is
 * stated for any lowercase letters `x`, `y`, `z`.
 */
module Samples {
  import opened Tree
  import opened Parser
  import opened ParserProperties
  import opened Matching
  import opened MatcherProperties

  /** `(x+y)` is the alternation of `x` and `y`. */
  lemma ParsesAlternation(x: char, y: char)
    requires IsLower(x) && IsLower(y)
    ensures ParseRE(['(', x, '+', y, ')']) == Ok(Alternation(Literal(x), Literal(y)))
  {
    LetterAlternation(x, y, []);
    assert ['(', x, '+', y, ')'] + [] == ['(', x, '+', y, ')'];
  }

  /** `(xy)` is the concatenation of `x` and `y`. */
  lemma ParsesConcatenation(x: char, y: char)
    requires IsLower(x) && IsLower(y)
    ensures ParseRE(['(', x, y, ')']) == Ok(Concatenation(Literal(x), Literal(y)))
  {
    var s := ['(', x, y, ')'];
    ParseLiteralRun([x, y], [')']);
    assert s[1..] == [x, y] + [')'];
    GroupSingle(s, [')'], Concatenation(Literal(x), Literal(y)));
  }

  /** `((x+y)*)` is the star of `(x+y)`. */
  lemma ParsesStarredAlternation(x: char, y: char)
    requires IsLower(x) && IsLower(y)
    ensures ParseRE(['(', '(', x, '+', y, ')', '*', ')']) == Ok(Star(Alternation(Literal(x), Literal(y))))
  {
    var s := ['(', '(', x, '+', y, ')', '*', ')'];
    LetterAlternation(x, y, ['*', ')']);
    assert s[1..] == ['(', x, '+', y, ')'] + ['*', ')'];
    GroupSingle(s, [')'], Star(Alternation(Literal(x), Literal(y))));
  }

  /** `((x)*)` is the star of `x`: a group around a single subexpression is
      that subexpression. */
  lemma ParsesStarredLetterGroup(x: char)
    requires IsLower(x)
    ensures ParseRE(['(', '(', x, ')', '*', ')']) == Ok(Star(Literal(x)))
  {
    var s, inner := ['(', '(', x, ')', '*', ')'], ['(', x, ')', '*', ')'];
    ParseLiteralRun([x], [')', '*', ')']);
    assert inner[1..] == [x] + [')', '*', ')'];
    GroupSingle(inner, [')', '*', ')'], Literal(x));
    assert s[1..] == inner;
    GroupSingle(s, [')'], Star(Literal(x)));
  }

  /** `(xy)` matches the word `xy`. */
  lemma ConcatenationMatchesItsWord(x: char, y: char)
    ensures Matches(Concatenation(Literal(x), Literal(y)), [x, y])
  {
    TailsSingle(x, [x, y]);
    TailsSingle(y, [y]);
    assert [x, y][1..] == [y] && [y][1..] == "";
    DistinctSingle("");
  }

  /** `(xy)` does not match the prefix `x`. */
  lemma ConcatenationRejectsPrefix(x: char, y: char)
    ensures !Matches(Concatenation(Literal(x), Literal(y)), [x])
  {
    TailsSingle(x, [x]);
    TailsSingle(y, "");
    assert [x][1..] == "";
    assert Match(Literal(x), [[x]]).0 == [""];
    assert Match(Literal(y), [""]).0 == [];
    SmallDistinct();
    assert Match(Concatenation(Literal(x), Literal(y)), [[x]]).0 == [];
  }

  /** `(xy)` does not match `xyz`: the whole input must be consumed. */
  lemma ConcatenationRejectsLongerInput(x: char, y: char, z: char)
    ensures !Matches(Concatenation(Literal(x), Literal(y)), [x, y, z])
  {
    TailsSingle(x, [x, y, z]);
    TailsSingle(y, [y, z]);
    assert [x, y, z][1..] == [y, z] && [y, z][1..] == [z];
    assert Match(Literal(x), [[x, y, z]]).0 == [[y, z]];
    assert Match(Literal(y), [[y, z]]).0 == [[z]];
    DistinctSingle([z]);
    assert Match(Concatenation(Literal(x), Literal(y)), [[x, y, z]]).0 == [[z]];
  }

  /** `(x+y)` matches `x` and matches `y`. */
  lemma AlternationMatchesEitherLetter(x: char, y: char)
    ensures Matches(Alternation(Literal(x), Literal(y)), [x])
    ensures Matches(Alternation(Literal(x), Literal(y)), [y])
  {
    var n := Alternation(Literal(x), Literal(y));
    TailsSingle(x, [x]);
    TailsSingle(y, [y]);
    assert [x][1..] == "" && [y][1..] == "";
    assert "" in Match(Literal(x), [[x]]).0;
    AlternationKeeps(Literal(x), Literal(y), [[x]], "");
    assert "" in Match(Literal(y), [[y]]).0;
    AlternationKeeps(Literal(x), Literal(y), [[y]], "");
  }

  /** `(x+y)` does not match a third letter `z`. */
  lemma AlternationRejectsOtherLetter(x: char, y: char, z: char)
    requires z != x && z != y
    ensures !Matches(Alternation(Literal(x), Literal(y)), [z])
  {
    TailsSingle(x, [z]);
    TailsSingle(y, [z]);
    assert Match(Literal(x), [[z]]).0 == [];
    assert Match(Literal(y), [[z]]).0 == [];
    SmallDistinct();
    assert Match(Alternation(Literal(x), Literal(y)), [[z]]).0 == DistinctByLength([] + []);
  }

  /** `x*` matches the empty input and `xxxx`, but not `xxxy`. */
  lemma StarredLetterExamples(x: char, y: char)
    requires x != y
    ensures Matches(Star(Literal(x)), [])
    ensures Matches(Star(Literal(x)), [x, x, x, x])
    ensures !Matches(Star(Literal(x)), [x, x, x, y])
  {
    StarOfLetter(x, []);
    StarOfLetter(x, [x, x, x, x]);
    StarOfLetter(x, [x, x, x, y]);
    assert [x, x, x, y][3] != x;
  }
}
