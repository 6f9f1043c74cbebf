/**
 * The parse tree of the fully parenthesised regular-expression dialect:
 * single lowercase letters, alternation `(S+S)`, concatenation `(SS)` and
 * Kleene star `S*`. Trees are immutable values built by the parser and only
 * read by the matcher.
 */
module Tree {

  datatype Node =
    | Literal(letter: char)
    | Alternation(left: Node, right: Node)
    | Concatenation(left: Node, right: Node)
    | Star(rexp: Node)

  /** Membership in the 26 ASCII lowercase letters. */
  predicate IsLower(c: char) {
    'a' <= c <= 'z'
  }

  /** Every `Literal` of the tree holds a lowercase ASCII letter. */
  predicate LowercaseLiterals(n: Node) {
    match n
    case Literal(c) => IsLower(c)
    case Alternation(l, r) => LowercaseLiterals(l) && LowercaseLiterals(r)
    case Concatenation(l, r) => LowercaseLiterals(l) && LowercaseLiterals(r)
    case Star(b) => LowercaseLiterals(b)
  }

  /** `t` is a (not necessarily strict) suffix of `s`. */
  predicate IsSuffix(t: string, s: string) {
    |t| <= |s| && t == s[|s| - |t|..]
  }

  lemma SuffixTransitive(u: string, t: string, s: string)
    requires IsSuffix(u, t) && IsSuffix(t, s)
    ensures IsSuffix(u, s)
  {
    assert s[|s| - |t|..][|t| - |u|..] == s[|s| - |u|..];
  }
}
