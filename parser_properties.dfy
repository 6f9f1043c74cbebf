/**
 * Properties of the parser: how letter runs and trailing stars are read, that
 * the re-parse of the first operand of a concatenation changes nothing, that
 * the parser inverts a fully parenthesised printer, and the behaviour on the
 * patterns documented with the parser.
 */
module ParserProperties {
  import opened Tree
  import opened Parser

  predicate AllLower(w: string) {
    forall i :: 0 <= i < |w| ==> IsLower(w[i])
  }

  /** The tree of a letter run `w`: its letters, right-nested into
      concatenations, the last one starred when `starred` holds. */
  function LetterRun(w: string, starred: bool): Node
    requires |w| > 0
  {
    if |w| == 1 then (if starred then Star(Literal(w[0])) else Literal(w[0]))
    else Concatenation(Literal(w[0]), LetterRun(w[1..], starred))
  }

  /** A maximal letter run followed by a `*` stars its last letter only; any
      other following character is left unconsumed. */
  lemma {:induction false} ParseLiteralRun(w: string, t: string)
    requires |w| > 0 && AllLower(w)
    requires t == [] || !IsLower(t[0])
    ensures var starred := |t| > 0 && t[0] == '*';
            ParseLiteral(w + t) == Ok(Parsed(if starred then t[1..] else t, LetterRun(w, starred)))
  {
    var s := w + t;
    if |w| > 1 {
      assert s[1..] == w[1..] + t;
      ParseLiteralRun(w[1..], t);
    } else {
      assert s[1..] == t;
      if |t| > 0 {
        assert s[1] == t[0];
        assert s[2..] == t[1..];
      }
    }
  }

  /** A star after a run of two letters, as in `ab*`, applies to the second
      letter only. */
  lemma StarOnLastLetter(x: char, y: char)
    requires IsLower(x) && IsLower(y)
    ensures ParseRE([x, y, '*']) == Ok(Concatenation(Literal(x), Star(Literal(y))))
  {
    ParseLiteralRun([x, y], ['*']);
    assert [x, y] + ['*'] == [x, y, '*'];
  }

  /** The parser as the original would read without the re-parse: the
      concatenation branch reuses the first operand it already has. */
  function ParseSReusing(s: string): (r: Result<Parsed>)
    ensures r.Ok? ==> |r.value.rest| < |s|
    decreases |s|
  {
    if |s| == 0 then Fail
    else if s[0] == '(' then
      match ParseSReusing(s[1..])
      case Fail => Fail
      case Ok(Parsed(rest, l)) =>
        if |rest| == 0 then Fail
        else if rest[0] == '+' then
          match ParseSReusing(rest[1..])
          case Fail => Fail
          case Ok(Parsed(rest2, r)) =>
            if |rest2| > 0 && rest2[0] == ')' then Ok(ParseStar(rest2[1..], Alternation(l, r)))
            else Fail
        else if rest[0] == ')' then Ok(ParseStar(rest[1..], l))
        else
          match ParseSReusing(rest)
          case Fail => Fail
          case Ok(Parsed(rest2, r)) =>
            if |rest2| > 0 && rest2[0] == ')' then Ok(ParseStar(rest2[1..], Concatenation(l, r)))
            else Fail
    else if IsLower(s[0]) then ParseLiteral(s)
    else Fail
  }

  /** Re-parsing the first operand of a concatenation is redundant: the
      parser gives the same outcome on every input without it. */
  lemma {:induction false} ReparseIsRedundant(s: string)
    ensures ParseS(s) == ParseSReusing(s)
    decreases |s|
  {
    if |s| > 0 && s[0] == '(' {
      ReparseIsRedundant(s[1..]);
      if ParseS(s[1..]).Ok? {
        var rest := ParseS(s[1..]).value.rest;
        if |rest| > 0 {
          ReparseIsRedundant(rest[1..]);
          ReparseIsRedundant(rest);
        }
      }
    }
  }

  /** The fully parenthesised text of a tree written in front of `t`: every
      alternation and concatenation in parentheses, every starred subtree as
      `(…)*`. */
  function UnparseOnto(n: Node, t: string): (r: string)
    ensures |r| > |t|
    ensures n.Literal? ==> r == [n.letter] + t
    ensures !n.Literal? ==> r[0] == '('
  {
    match n
    case Literal(c) => [c] + t
    case Alternation(l, r) => "(" + UnparseOnto(l, "+" + UnparseOnto(r, ")" + t))
    case Concatenation(l, r) => "(" + UnparseOnto(l, UnparseOnto(r, ")" + t))
    case Star(b) => "(" + UnparseOnto(b, ")*" + t)
  }

  /** The fully parenthesised text of a tree on its own. */
  function Unparse(n: Node): (r: string)
    ensures |r| > 0
    ensures n.Literal? ==> r == [n.letter]
    ensures !n.Literal? ==> r[0] == '('
  {
    UnparseOnto(n, [])
  }

  /** The three ways a parenthesised group is read, one lemma each. */
  lemma GroupAlternation(s: string, rest: string, l: Node, rest2: string, r: Node)
    requires |s| > 0 && s[0] == '('
    requires ParseS(s[1..]) == Ok(Parsed(rest, l)) && |rest| > 0 && rest[0] == '+'
    requires ParseS(rest[1..]) == Ok(Parsed(rest2, r)) && |rest2| > 0 && rest2[0] == ')'
    ensures ParseS(s) == Ok(ParseStar(rest2[1..], Alternation(l, r)))
  {
  }

  lemma GroupSingle(s: string, rest: string, l: Node)
    requires |s| > 0 && s[0] == '('
    requires ParseS(s[1..]) == Ok(Parsed(rest, l)) && |rest| > 0 && rest[0] == ')'
    ensures ParseS(s) == Ok(ParseStar(rest[1..], l))
  {
  }

  lemma GroupConcatenation(s: string, rest: string, l: Node, rest2: string, r: Node)
    requires |s| > 0 && s[0] == '('
    requires ParseS(s[1..]) == Ok(Parsed(rest, l)) && |rest| > 0 && rest[0] != '+' && rest[0] != ')'
    requires ParseS(rest) == Ok(Parsed(rest2, r)) && |rest2| > 0 && rest2[0] == ')'
    ensures ParseS(s) == Ok(ParseStar(rest2[1..], Concatenation(l, r)))
  {
  }

  /** The parser reads the printed text of a tree back as that tree, leaving
      any following text that cannot extend it. */
  lemma {:induction false} ParseUnparse(n: Node, t: string)
    requires LowercaseLiterals(n)
    requires t == [] || t[0] != '*'
    requires n.Literal? ==> t == [] || !IsLower(t[0])
    ensures ParseS(UnparseOnto(n, t)) == Ok(Parsed(t, n))
    decreases n, 1
  {
    match n
    case Literal(c) =>
      assert UnparseOnto(n, t)[1..] == t;
    case Alternation(l, r) => UnparseAlternation(l, r, t);
    case Concatenation(l, r) => UnparseConcatenation(l, r, t);
    case Star(b) => UnparseStar(b, t);
  }

  lemma {:induction false} UnparseAlternation(l: Node, r: Node, t: string)
    requires LowercaseLiterals(l) && LowercaseLiterals(r)
    requires t == [] || t[0] != '*'
    ensures ParseS(UnparseOnto(Alternation(l, r), t)) == Ok(Parsed(t, Alternation(l, r)))
    decreases Alternation(l, r), 0
  {
    var close := ")" + t;
    var tail := "+" + UnparseOnto(r, close);
    var s := UnparseOnto(Alternation(l, r), t);
    assert s[1..] == UnparseOnto(l, tail);
    ParseUnparse(l, tail);
    assert tail[1..] == UnparseOnto(r, close);
    ParseUnparse(r, close);
    assert close[1..] == t;
    GroupAlternation(s, tail, l, close, r);
  }

  lemma {:induction false} UnparseConcatenation(l: Node, r: Node, t: string)
    requires LowercaseLiterals(l) && LowercaseLiterals(r)
    requires t == [] || t[0] != '*'
    ensures ParseS(UnparseOnto(Concatenation(l, r), t)) == Ok(Parsed(t, Concatenation(l, r)))
    decreases Concatenation(l, r), 0
  {
    if l.Literal? && r.Literal? {
      UnparseLetterPair(l.letter, r.letter, t);
    } else {
      var close := ")" + t;
      var tail := UnparseOnto(r, close);
      var s := UnparseOnto(Concatenation(l, r), t);
      assert s[1..] == UnparseOnto(l, tail);
      ParseUnparse(l, tail);
      ParseUnparse(r, close);
      assert close[1..] == t;
      GroupConcatenation(s, tail, l, close, r);
    }
  }

  /** Text starting with a letter is read as a letter run. */
  lemma LetterStart(s: string)
    requires |s| > 0 && IsLower(s[0])
    ensures ParseS(s) == ParseLiteral(s)
  {
  }

  /** Two letters in parentheses are read as one letter run. */
  lemma UnparseLetterPair(x: char, y: char, t: string)
    requires IsLower(x) && IsLower(y)
    requires t == [] || t[0] != '*'
    ensures ParseS(UnparseOnto(Concatenation(Literal(x), Literal(y)), t))
            == Ok(Parsed(t, Concatenation(Literal(x), Literal(y))))
  {
    var close := ")" + t;
    var pair := Concatenation(Literal(x), Literal(y));
    var inner := [x, y] + close;
    ParseLiteralRun([x, y], close);
    assert [x, y][1..] == [y];
    assert LetterRun([x, y], false) == pair;
    LetterStart(inner);
    var s := UnparseOnto(pair, t);
    assert s[1..] == [x] + ([y] + close) == inner;
    assert close[1..] == t;
    assert ParseStar(close[1..], pair) == Parsed(t, pair);
    GroupSingle(s, close, pair);
  }

  lemma {:induction false} UnparseStar(b: Node, t: string)
    requires LowercaseLiterals(b)
    requires t == [] || t[0] != '*'
    ensures ParseS(UnparseOnto(Star(b), t)) == Ok(Parsed(t, Star(b)))
    decreases Star(b), 0
  {
    var tail := ")*" + t;
    var s := UnparseOnto(Star(b), t);
    assert s[1..] == UnparseOnto(b, tail);
    ParseUnparse(b, tail);
    var starred := tail[1..];
    assert |starred| > 0 && starred[0] == '*' && starred[1..] == t;
    assert ParseStar(starred, b) == Parsed(t, Star(b));
    GroupSingle(s, tail, b);
  }

  /** Round trip: every tree of lowercase letters is recovered from its text. */
  lemma ParseREUnparse(n: Node)
    requires LowercaseLiterals(n)
    ensures ParseRE(Unparse(n)) == Ok(n)
  {
    ParseUnparse(n, []);
  }

  // The patterns below are stated for any lowercase letters `x`, `y`, `z`;
  // the documented ones are instances with letters such as `a`, `b`, `c`.

  /** `(x+y+z)`, as in `(a+b+c)`, is rejected: the second `+` is not in
      parentheses of its own. */
  lemma RejectsChainedAlternation(x: char, y: char, z: char)
    requires IsLower(x) && IsLower(y) && IsLower(z)
    ensures ParseRE(['(', x, '+', y, '+', z, ')']) == Fail
  {
    var s := ['(', x, '+', y, '+', z, ')'];
    var t1 := ['+', y, '+', z, ')'];
    var t2 := ['+', z, ')'];
    assert s[1..] == [x] + t1;
    ParseUnparse(Literal(x), t1);
    assert t1[1..] == [y] + t2;
    ParseUnparse(Literal(y), t2);
  }

  /** `(x+y)` followed by text `t` is read as the alternation, starred when
      `t` starts with `*`. */
  lemma LetterAlternation(x: char, y: char, t: string)
    requires IsLower(x) && IsLower(y)
    ensures ParseS(['(', x, '+', y, ')'] + t) == Ok(ParseStar(t, Alternation(Literal(x), Literal(y))))
  {
    var s := ['(', x, '+', y, ')'] + t;
    var t1 := ['+', y, ')'] + t;
    var t2 := [')'] + t;
    assert s[1..] == [x] + t1;
    ParseUnparse(Literal(x), t1);
    assert t1[1..] == [y] + t2;
    ParseUnparse(Literal(y), t2);
    GroupAlternation(s, t1, Literal(x), t2, Literal(y));
  }

  /** `(x+y)*z*`, as in `(a+b)*a*`, is rejected: the concatenation is not
      parenthesised, so `z*` is left over. */
  lemma RejectsUnparenthesisedConcatenation(x: char, y: char, z: char)
    requires IsLower(x) && IsLower(y) && IsLower(z)
    ensures ParseRE(['(', x, '+', y, ')', '*', z, '*']) == Fail
  {
    LetterAlternation(x, y, ['*', z, '*']);
    assert ['(', x, '+', y, ')'] + ['*', z, '*'] == ['(', x, '+', y, ')', '*', z, '*'];
  }

  /** `(x+y)+z`, as in `(a+b)+c`, is rejected: the outer alternation is not
      parenthesised, so `+z` is left over. */
  lemma RejectsUnparenthesisedAlternation(x: char, y: char, z: char)
    requires IsLower(x) && IsLower(y) && IsLower(z)
    ensures ParseRE(['(', x, '+', y, ')', '+', z]) == Fail
  {
    LetterAlternation(x, y, ['+', z]);
    assert ['(', x, '+', y, ')'] + ['+', z] == ['(', x, '+', y, ')', '+', z];
  }

  /** `((x+y)+z)`, as in `((a+b)+c)`, is the alternation of `(x+y)` with `z`. */
  lemma AcceptsNestedAlternation(x: char, y: char, z: char)
    requires IsLower(x) && IsLower(y) && IsLower(z)
    ensures ParseRE(['(', '(', x, '+', y, ')', '+', z, ')'])
            == Ok(Alternation(Alternation(Literal(x), Literal(y)), Literal(z)))
  {
    var s := ['(', '(', x, '+', y, ')', '+', z, ')'];
    var t1 := ['+', z, ')'];
    var t2 := [')'];
    assert s[1..] == ['(', x, '+', y, ')'] + t1;
    LetterAlternation(x, y, t1);
    assert t1[1..] == [z] + t2;
    ParseUnparse(Literal(z), t2);
    GroupAlternation(s, t1, Alternation(Literal(x), Literal(y)), t2, Literal(z));
  }

  /** `((x+y)*z*)`, as in `((a+b)*a*)`, is the concatenation of `(x+y)*`
      with `z*`. */
  lemma AcceptsStarredConcatenation(x: char, y: char, z: char)
    requires IsLower(x) && IsLower(y) && IsLower(z)
    ensures ParseRE(['(', '(', x, '+', y, ')', '*', z, '*', ')'])
            == Ok(Concatenation(Star(Alternation(Literal(x), Literal(y))), Star(Literal(z))))
  {
    var s := ['(', '(', x, '+', y, ')', '*', z, '*', ')'];
    var t1 := ['*', z, '*', ')'];
    var t2 := [z, '*', ')'];
    assert s[1..] == ['(', x, '+', y, ')'] + t1;
    LetterAlternation(x, y, t1);
    assert t1[1..] == t2;
    ParseLiteralRun([z], ['*', ')']);
    assert [z] + ['*', ')'] == t2;
    GroupConcatenation(s, t2, Star(Alternation(Literal(x), Literal(y))), [')'], Star(Literal(z)));
  }
}
