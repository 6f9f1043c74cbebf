/**
 * Recursive-descent parser for the fully parenthesised regular-expression
 * dialect. Every parsing function consumes a prefix of its input and returns
 * the remaining input together with the subtree it built; every way the
 * original code can raise (an explicit parse error, or indexing an empty
 * string) is the single outcome `Fail`.
 */
module Parser {
  import opened Tree

  datatype Result<T> = Ok(value: T) | Fail

  /** What a parsing function returns on success: unconsumed input and the subtree. */
  datatype Parsed = Parsed(rest: string, tree: Node)

  /** The characters that may occur in a pattern. */
  predicate IsPatternChar(c: char) {
    IsLower(c) || c == '(' || c == ')' || c == '+' || c == '*'
  }

  /** The first `k` characters of `s` may occur in a pattern. */
  predicate PatternPrefix(s: string, k: nat)
    requires k <= |s|
  {
    forall i :: 0 <= i < k ==> IsPatternChar(s[i])
  }

  /** `t` is what is left of `s` after consuming a prefix made of pattern characters. */
  predicate Consumes(s: string, t: string) {
    IsSuffix(t, s) && PatternPrefix(s, |s| - |t|)
  }

  lemma ConsumesTransitive(s: string, t: string, u: string)
    requires Consumes(s, t) && Consumes(t, u)
    ensures Consumes(s, u)
  {
    SuffixTransitive(u, t, s);
    assert s[|s| - |t|..] == t;
    forall i | 0 <= i < |s| - |u| ensures IsPatternChar(s[i]) {
      if i >= |s| - |t| {
        assert t[i - (|s| - |t|)] == s[i];
      }
    }
  }

  lemma ConsumesOne(s: string)
    requires |s| > 0 && IsPatternChar(s[0])
    ensures Consumes(s, s[1..])
  {
  }

  /** A successful parse of `s` leaves less input than `s` and builds a tree
      whose literals are lowercase letters. */
  predicate Progress(s: string, r: Result<Parsed>) {
    r.Ok? ==> |r.value.rest| < |s| && LowercaseLiterals(r.value.tree)
  }

  /** A letter run: one or more lowercase letters, right-nested into
      concatenations, with a `*` directly after the run absorbed by the
      last letter only. */
  function ParseLiteral(s: string): (r: Result<Parsed>)
    ensures Progress(s, r)
    ensures r.Ok? <==> |s| > 0 && IsLower(s[0])
    decreases |s|
  {
    if |s| > 1 && IsLower(s[0]) && IsLower(s[1]) then
      match ParseLiteral(s[1..])
      case Fail => Fail
      case Ok(Parsed(rest, c)) =>
        Ok(Parsed(rest, Concatenation(Literal(s[0]), c)))
    else if |s| > 0 && IsLower(s[0]) then
      if |s| > 1 && s[1] == '*' then Ok(Parsed(s[2..], Star(Literal(s[0]))))
      else Ok(Parsed(s[1..], Literal(s[0])))
    else
      Fail
  }

  /** Wraps an already parsed subexpression in `Star` when a `*` follows it. */
  function ParseStar(rest: string, ret: Node): (r: Parsed)
    ensures IsSuffix(r.rest, rest)
    ensures |rest| > 0 && rest[0] == '*' ==> r == Parsed(rest[1..], Star(ret))
    ensures !(|rest| > 0 && rest[0] == '*') ==> r == Parsed(rest, ret)
  {
    if |rest| > 0 && rest[0] == '*' then Parsed(rest[1..], Star(ret)) else Parsed(rest, ret)
  }

  /** One subexpression: a parenthesised alternation, a parenthesised
      concatenation, a parenthesised single subexpression, or a letter run,
      each possibly followed by a `*`. */
  function ParseS(s: string): (r: Result<Parsed>)
    ensures Progress(s, r)
    ensures |s| == 0 || (s[0] != '(' && !IsLower(s[0])) ==> r == Fail
    decreases |s|
  {
    if |s| == 0 then Fail
    else if s[0] == '(' then
      match ParseS(s[1..])
      case Fail => Fail
      case Ok(Parsed(rest, l)) =>
        if |rest| == 0 then Fail
        else if rest[0] == '+' then
          match ParseS(rest[1..])
          case Fail => Fail
          case Ok(Parsed(rest2, r)) =>
            if |rest2| > 0 && rest2[0] == ')' then
              var res := ParseStar(rest2[1..], Alternation(l, r));
              Ok(res)
            else Fail
        else
          // The first operand is parsed a second time, as the original does.
          match ParseS(s[1..])
          case Fail => Fail
          case Ok(Parsed(rest3, l3)) =>
            if |rest3| > 0 && rest3[0] == ')' then
              var res := ParseStar(rest3[1..], l3);
              Ok(res)
            else
              match ParseS(rest3)
              case Fail => Fail
              case Ok(Parsed(rest4, r)) =>
                if |rest4| > 0 && rest4[0] == ')' then
                  var res := ParseStar(rest4[1..], Concatenation(l3, r));
                  Ok(res)
                else Fail
    else if IsLower(s[0]) then ParseLiteral(s)
    else Fail
  }

  /** A whole pattern: one subexpression that consumes all of the input. */
  function ParseRE(s: string): (r: Result<Node>)
    ensures r.Ok? <==> ParseS(s).Ok? && ParseS(s).value.rest == []
    ensures r.Ok? ==> r.value == ParseS(s).value.tree && LowercaseLiterals(r.value)
  {
    match ParseS(s)
    case Fail => Fail
    case Ok(Parsed(rest, p)) => if |rest| > 0 then Fail else Ok(p)
  }

  /** A successful `ParseLiteral` consumes a prefix of pattern characters:
      what it leaves is a suffix of its input. */
  lemma {:induction false} ParseLiteralConsumes(s: string)
    ensures ParseLiteral(s).Ok? ==> Consumes(s, ParseLiteral(s).value.rest)
    decreases |s|
  {
    if |s| > 1 && IsLower(s[0]) && IsLower(s[1]) {
      ParseLiteralConsumes(s[1..]);
      ConsumesOne(s);
      ConsumesTransitive(s, s[1..], ParseLiteral(s).value.rest);
    } else if |s| > 0 && IsLower(s[0]) {
      ConsumesOne(s);
      if |s| > 1 && s[1] == '*' {
        ConsumesOne(s[1..]);
        assert s[1..][1..] == s[2..];
        ConsumesTransitive(s, s[1..], s[2..]);
      }
    }
  }

  lemma ParseStarConsumes(rest: string, ret: Node)
    ensures Consumes(rest, ParseStar(rest, ret).rest)
  {
    if |rest| > 0 && rest[0] == '*' {
      ConsumesOne(rest);
    }
  }

  /** A successful `ParseS` consumes a prefix of pattern characters: what it
      leaves is a suffix of its input. */
  lemma {:induction false} ParseSConsumes(s: string)
    ensures ParseS(s).Ok? ==> Consumes(s, ParseS(s).value.rest)
    decreases |s|
  {
    if |s| == 0 || !ParseS(s).Ok? {
    } else if s[0] == '(' {
      ConsumesOne(s);
      ParseSConsumes(s[1..]);
      var Parsed(rest, l) := ParseS(s[1..]).value;
      ConsumesTransitive(s, s[1..], rest);
      if rest[0] == '+' {
        ConsumesOne(rest);
        ConsumesTransitive(s, rest, rest[1..]);
        ParseSConsumes(rest[1..]);
        var Parsed(rest2, r) := ParseS(rest[1..]).value;
        ConsumesTransitive(s, rest[1..], rest2);
        ConsumesOne(rest2);
        ConsumesTransitive(s, rest2, rest2[1..]);
        ParseStarConsumes(rest2[1..], Alternation(l, r));
        ConsumesTransitive(s, rest2[1..], ParseS(s).value.rest);
      } else if rest[0] == ')' {
        ConsumesOne(rest);
        ConsumesTransitive(s, rest, rest[1..]);
        ParseStarConsumes(rest[1..], l);
        ConsumesTransitive(s, rest[1..], ParseS(s).value.rest);
      } else {
        ParseSConsumes(rest);
        var Parsed(rest2, r) := ParseS(rest).value;
        ConsumesTransitive(s, rest, rest2);
        ConsumesOne(rest2);
        ConsumesTransitive(s, rest2, rest2[1..]);
        ParseStarConsumes(rest2[1..], Concatenation(l, r));
        ConsumesTransitive(s, rest2[1..], ParseS(s).value.rest);
      }
    } else {
      ParseLiteralConsumes(s);
    }
  }

  /** A pattern accepted by `ParseRE` is made of pattern characters only. */
  lemma ParseREAlphabet(s: string)
    ensures ParseRE(s).Ok? ==> forall i :: 0 <= i < |s| ==> IsPatternChar(s[i])
  {
    ParseSConsumes(s);
  }
}
