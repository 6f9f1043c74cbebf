# regex-matcher in Dafny

A model of `parser.py`, a small regular-expression engine. It has two halves.

- **The parser.** A recursive-descent parser reads a fully parenthesised
  pattern dialect into a parse tree. The dialect has single lowercase letters,
  alternation `(S+S)`, concatenation `(SS)` and the Kleene star `S*`. A run of
  letters such as `abc` is read as right-nested concatenations. A `*` directly
  after a run stars only its last letter, so `ab*` is `a` followed by `b*`.
- **The matcher.** It needs no automaton. It pushes a list of candidate
  unconsumed suffixes of the input through the tree. A literal strips its
  letter from each suffix that starts with it. An alternation merges the
  outputs of its two sides. A concatenation feeds the output of its left side
  to its right side. A star repeatedly feeds the growing list to its body and
  appends the body's last suffix each time; that suffix is a shortest one when
  the body is an alternation or a concatenation (`CompositeLastIsShortest`),
  but a literal keeps the order of its input, so its last suffix need not be.
  The input matches when the empty suffix comes out at the root.

Files and modules:

- `tree.dfy` (`Tree`): the parse tree `Node`, lowercase letters, suffixes.
- `parser.dfy` (`Parser`): `ParseLiteral`, `ParseStar`, `ParseS` and `ParseRE`.
  They are pure functions. `ParseLiteral` and `ParseS` return
  `Result<Parsed>`, as the original's functions return `(rest, tree)` pairs.
  `ParseStar` returns a plain `Parsed`, because `parseStar` cannot fail.
  `ParseRE` returns `Result<Node>`, because `parseRE` returns the tree alone.
  Every parse error becomes the single outcome `Fail`: the explicit
  `ValueError`s and the `IndexError`s from reading `s[0]` or `rest[0]` of an
  empty string (parser.py:88, 113, 118).
- `parser_properties.dfy` (`ParserProperties`): how letter runs and stars are
  read, and that the re-parse of a concatenation's first operand is redundant.
  It also holds a printer `Unparse` with the round trip
  `ParseRE(Unparse(n)) == Ok(n)`, and the valid and invalid patterns listed in
  the source's header comment. Those patterns are stated for any lowercase
  letters `x`, `y`, `z`; the documented ones are instances with letters such as `a`, `b`, `c`.
- `language.dfy` (`Language`): the standard regular language of a tree
  (`Accepts`, `Nullable`, `Derives`). The original has no such definition. It
  is the reference the matcher is measured against.
- `matcher.dfy` (`Matching`): the function `Match(n, xs)` specifies what a node
  makes of a suffix list: the outgoing list and the node's flag. The methods
  `Matcher` and `MatchString` keep the loops of the original; the final scan
  of `MatchString` is the method `ScanForEmpty`. Their
  postconditions prove that they compute `Match`.
- `matcher_properties.dfy` (`MatcherProperties`): what each kind of node does,
  and that the matcher is sound with respect to `Accepts`. It is complete on
  star-free trees and, by `StarOfLetter`, on the star of a single letter. It
  is not complete for every tree with a star, and a concrete tree and input
  show this.
- `samples.dfy` (`Samples`): illustrative parses and matches of small
  patterns and inputs, each stated for any lowercase letters. The original
  documents no matching examples; these are chosen to illustrate the model.

The original does not document what the matcher decides. The model measures
it against the standard regular-language reading of a tree, `Accepts`, chosen
as the reference: an input should match exactly when it is a word of the
tree's language. `MatchStringSound` proves one direction: everything the
matcher matches is in the tree's language.
`MatchStringStarFree` proves both directions for trees without a star. With a
star the code's greedy extension can drop candidates. `NotCompleteFor` proves this
for the tree of `(((x+(xy)))*y)` and the input `xy`, for any letters `x` and
`y`; `NotComplete` takes `(((a+(ab)))*b)` and `ab`. That word
is in the language (`x` then `y`), but the star keeps only the suffix left by
reading `xy`, so the final `y` reads neither `xy` nor the empty suffix to the end.

`Matches` is a function of the tree and the input alone, and the method
`MatchString` has its result fixed by its postcondition
`matched <==> Matches(root, s)`. Repeated calls on the same arguments therefore
give the same answer.

## Model

| member | source | states |
|---|---|---|
| Parser.ParseLiteral | parser.py:84-96 | succeeds exactly when the input starts with a lowercase letter; on success it consumes at least one character and builds a tree of lowercase literals |
| Parser.ParseLiteralConsumes | parser.py:84-96 | what a successful letter-run parse leaves is a suffix of its input, and everything consumed is a pattern character |
| ParserProperties.ParseLiteralRun | parser.py:84-96 | a maximal run `w` parses to its letters right-nested into concatenations; a following `*` stars only the last letter and is consumed; any other following text is left as is |
| ParserProperties.StarOnLastLetter | parser.py:13-16 | for any letters `x`, `y`, as in `ab*`: `xy*` is `Concatenation(x, Star(y))`, the star applies to the last letter of the run |
| Parser.ParseStar | parser.py:101-105 | a following `*` is consumed and wraps the tree in `Star`; otherwise input and tree are unchanged; the rest is a suffix of the input |
| Parser.ParseStarConsumes | parser.py:101-105 | the star check consumes only pattern characters |
| Parser.ParseS | parser.py:111-142 | fails on empty input and on a first character that is neither `(` nor a lowercase letter; on success it consumes input and builds only lowercase literals |
| Parser.ParseSConsumes | parser.py:111-142 | a successful subexpression parse consumes a prefix made of the characters `a`-`z`, `(`, `)`, `+`, `*`, and returns the rest as a suffix |
| ParserProperties.ParseSReusing | parser.py:125-135 | the concatenation branch written to reuse the first operand instead of parsing it again; a success consumes input |
| ParserProperties.ReparseIsRedundant | parser.py:125-135 | on every input, parsing with the re-parse and parsing with reuse give the same outcome, failures included |
| Parser.ParseRE | parser.py:145-150 | succeeds exactly when one subexpression parse succeeds and leaves no input; the tree is that parse's tree, and its literals are lowercase |
| Parser.ParseREAlphabet | parser.py:145-150 | every character of an accepted pattern is one of `a`-`z`, `(`, `)`, `+`, `*` |
| ParserProperties.UnparseOnto | parser.py:5-11 | the fully parenthesised text of a tree in front of a given text: it is longer than that text, a letter is just the letter, every other tree starts with `(` |
| ParserProperties.Unparse | parser.py:5-11 | the fully parenthesised text of a tree on its own: a letter alone, every other tree starting with `(` |
| ParserProperties.GroupAlternation | parser.py:113-123 | a `(` whose first operand is followed by `+`, a second operand and `)` is read as their alternation, starred if `*` follows |
| ParserProperties.GroupSingle | parser.py:126-129 | a `(` whose operand is followed by `)` is read as that operand, starred if `*` follows |
| ParserProperties.GroupConcatenation | parser.py:126-135 | a `(` whose first operand is followed by a second operand and `)` is read as their concatenation, starred if `*` follows |
| ParserProperties.ParseUnparse | parser.py:111-142 | the printed text of a tree, followed by any text that cannot extend it, parses back to that tree and leaves that text |
| ParserProperties.UnparseAlternation | parser.py:117-121 | the text `(u+v)` of an alternation parses back to the alternation |
| ParserProperties.UnparseConcatenation | parser.py:125-133 | the text `(uv)` of a concatenation parses back to the concatenation, including two letters read as one run |
| ParserProperties.UnparseLetterPair | parser.py:84-96 | the text `(xy)` of two letters, read as one letter run inside a group, parses back to their concatenation |
| ParserProperties.UnparseStar | parser.py:128-129 | the text `(u)*` of a starred tree parses back to the star |
| ParserProperties.ParseREUnparse | parser.py:145-150 | round trip: every tree of lowercase letters is recovered from its printed text |
| ParserProperties.LetterAlternation | parser.py:113-123 | for any letters `x`, `y`: `(x+y)` followed by any text is the alternation of `x` and `y`, starred exactly when that text starts with `*` |
| ParserProperties.RejectsChainedAlternation | parser.py:23 | for any letters `x`, `y`, `z`, as in `(a+b+c)`: `(x+y+z)` is rejected |
| ParserProperties.RejectsUnparenthesisedConcatenation | parser.py:22 | for any letters, as in `(a+b)*a*`: `(x+y)*z*` is rejected |
| ParserProperties.RejectsUnparenthesisedAlternation | parser.py:24 | for any letters, as in `(a+b)+c`: `(x+y)+z` is rejected |
| ParserProperties.AcceptsStarredConcatenation | parser.py:27 | for any letters, as in `((a+b)*a*)`: `((x+y)*z*)` is the concatenation of `(x+y)*` with `z*` |
| ParserProperties.AcceptsNestedAlternation | parser.py:28 | for any letters, as in `((a+b)+c)`: `((x+y)+z)` is the alternation of `(x+y)` with `z` |
| Samples.ParsesAlternation | parser.py:117-121 | for any letters `x`, `y`: `(x+y)` is `Alternation(x, y)` |
| Samples.ParsesConcatenation | parser.py:125-133 | for any letters `x`, `y`: `(xy)` is `Concatenation(x, y)` |
| Samples.ParsesStarredAlternation | parser.py:128-129 | for any letters `x`, `y`: `((x+y)*)` is the star of `(x+y)` |
| Samples.ParsesStarredLetterGroup | parser.py:128-129 | for any letter `x`: `((x)*)` is the star of `x` |
| Matching.DistinctByLength | parser.py:174-178 | the result is no longer than the input and is empty only for empty input |
| Matching.DistinctByLengthSpec | parser.py:174-178 | the result has no duplicates, is ordered longest first and has exactly the elements of the input |
| MatcherProperties.SortedSuffixesUnique | parser.py:188-190 | two duplicate-free, longest-first lists of suffixes of one string with the same elements are equal |
| MatcherProperties.DistinctByLengthCanonical | parser.py:176-178 | for suffixes of one string, any duplicate-free longest-first arrangement is the one `DistinctByLength` returns, so the order among equal lengths does not matter |
| Matching.Match | parser.py:152-207 | a node that succeeds on a non-empty list outputs a non-empty list, so the star's access to the body's last output never fails |
| Matching.StarLoop | parser.py:193-207 | the star loop keeps the working list as a prefix and appends at most one suffix per round |
| Matching.Matcher | parser.py:152-207 | the recursive matcher, with its literal and star loops, returns exactly `Match(node, strings)` |
| Matching.ScanForEmpty | parser.py:215-220 | the scan answers true exactly when the empty string is in the list |
| Matching.MatchString | parser.py:211-225 | answers true exactly when the empty string is among the suffixes `Match(root, [s])` outputs |
| MatcherProperties.LiteralStep | parser.py:153-164 | a literal outputs exactly the tails of the incoming strings that start with its letter; its flag is true exactly when one does |
| MatcherProperties.LiteralStepInOrder | parser.py:158-163 | a literal keeps the order of the incoming list |
| MatcherProperties.AlternationStep | parser.py:167-179 | an alternation outputs the duplicate-free union of both sides' outputs, longest first; its flag is the or of theirs |
| MatcherProperties.ConcatenationStep | parser.py:181-191 | a concatenation outputs the duplicate-free output of the right side run on the left side's output, longest first; its flag is the and of theirs |
| MatcherProperties.CompositeLastIsShortest | parser.py:176-178 | after an alternation or concatenation the last suffix is a shortest one, the one a surrounding star appends |
| MatcherProperties.StarLoopRound | parser.py:200-206 | one successful round appends the body's last output; the loop stops if it is empty and otherwise goes on from the longer list |
| MatcherProperties.StarLoopAppends | parser.py:200-206 | each suffix the loop appends is the last output of the body on everything before it; only the final appended suffix can be empty |
| MatcherProperties.StarStep | parser.py:193-207 | a star always succeeds; it outputs its input followed by at most `len(xs[0])` appended suffixes, each the body's last output on the list so far; only the last can be empty |
| MatcherProperties.MatchSound | parser.py:152-207 | every suffix a node outputs is what remains of some incoming string after a word of the node's language |
| MatcherProperties.StarLoopSound | parser.py:193-207 | every suffix in the star's working list remains of an incoming string after a word of the star's language |
| MatcherProperties.MatchSuffixes | parser.py:152-207 | every output is a suffix of some incoming string |
| MatcherProperties.MatchKeepsSuffixesOf | parser.py:211-213 | when the incoming strings are suffixes of the input, so is every output |
| MatcherProperties.MatchStringSound | parser.py:211-225 | a matched input is a word of the tree's language |
| MatcherProperties.LiteralComplete | parser.py:153-164 | a literal outputs every suffix that its letter leaves of an incoming string |
| MatcherProperties.AlternationKeeps | parser.py:167-179 | a suffix output by either side of an alternation is output by the alternation |
| MatcherProperties.AlternationComplete | parser.py:167-179 | if both sides output every suffix their words leave, so does the alternation |
| MatcherProperties.ConcatenationComplete | parser.py:181-191 | if the left side outputs every suffix its words leave of the list, and the right side does so on the left side's output, so does the concatenation |
| MatcherProperties.MatchCompleteStarFree | parser.py:152-191 | without a star, every suffix a word of the tree's language leaves of an incoming string is output |
| MatcherProperties.MatchStringStarFree | parser.py:211-225 | for a star-free tree, an input matches exactly when it is a word of the tree's language |
| MatcherProperties.MatchOnEmptyList | parser.py:152-207 | fed no suffixes, a node outputs none, and its flag says whether the tree denotes the empty word |
| MatcherProperties.MatchOnEmptyString | parser.py:152-207 | fed only the empty string, a node outputs it exactly when the tree denotes the empty word |
| MatcherProperties.MatchesEmptyInput | parser.py:211-225 | the empty input matches exactly when the tree denotes the empty word: always for a star, never for a literal |
| MatcherProperties.GreedyLossAccepted | parser.py:193-207 | for any letters `x`, `y`: `xy` is in the language of `(((x+(xy)))*y)` |
| MatcherProperties.GreedyBodyOnWord | parser.py:167-191 | for any letters `x`, `y`: the body `(x+(xy))` run on `xy` outputs `y` then the empty string and succeeds |
| MatcherProperties.GreedyLossRejected | parser.py:193-207 | for any letters `x`, `y`: `xy` does not match `(((x+(xy)))*y)`, because the star outputs only `xy` and the empty string, and the final `y` reads neither to the end |
| MatcherProperties.NotCompleteFor | parser.py:211-225 | given any two letters, some tree and input are in the language but not matched; the tree and input are `(((x+(xy)))*y)` and `xy` |
| MatcherProperties.NotComplete | parser.py:211-225 | some tree and input are in the language but not matched |
| MatcherProperties.StarOfLetterLoop | parser.py:200-206 | a star of a letter, run on a list ending in a string of that letter, reaches the empty suffix within its round bound |
| MatcherProperties.StarOfLetter | parser.py:193-207 | a starred letter matches exactly the strings made only of that letter |
| Samples.ConcatenationMatchesItsWord | parser.py:211-225 | for any letters `x`, `y`: `(xy)` matches `xy` |
| Samples.ConcatenationRejectsPrefix | parser.py:211-225 | for any letters `x`, `y`: `(xy)` does not match `x` |
| Samples.ConcatenationRejectsLongerInput | parser.py:211-225 | for any letters `x`, `y`, `z`: `(xy)` does not match `xyz` |
| Samples.AlternationMatchesEitherLetter | parser.py:211-225 | for any letters `x`, `y`: `(x+y)` matches `x` and `y` |
| Samples.AlternationRejectsOtherLetter | parser.py:211-225 | for any letters `x`, `y` and a third letter `z`: `(x+y)` does not match `z` |
| Samples.StarredLetterExamples | parser.py:211-225 | for different letters `x`, `y`: `x*` matches the empty input and `xxxx`, not `xxxy` |

## Left out

- The interactive driver (parser.py:227-239) is not modelled. It reads patterns from the console, reads candidate lines from a file and prints results.
- The commented-out test patterns and the tree-printing block (parser.py:241-274) are not modelled. They are dead code.
- Parse errors carry no message. All `ValueError`s and `IndexError`s of the parser are the single outcome `Fail`.
- Matching.DistinctByLength: Python's `list(set(...))` has no defined order; the stable sort keeps that order among equal-length strings and `reversed` reverses it, so either way it is undefined. The model fixes one order: equal-length strings stay in order of first occurrence. `DistinctByLengthCanonical` shows that this choice is immaterial for suffixes of one input, which is all `matchString` ever passes in.
- Matching.Matcher: the original copies lists (`stringList[:]`) before using them. The model works on immutable sequences, so those copies have no counterpart.
- MatcherProperties.MatchStringSound: this states only one direction of the standard-semantics "iff". The other direction is false for the code as written, as `NotComplete` shows. `MatchStringStarFree` states both directions for star-free trees, where they hold.
- Strings are sequences of characters, while the original (Python 2) works on byte strings, so the star's round bound `len(copyStringList[0])` (parser.py:197) counts bytes there and characters here. For trees of lowercase letters this changes no answer: a matched input is a word of the tree's language (`MatchStringSound`), every such word is made of lowercase letters, and on such input bytes and characters coincide.
- The interpreter's recursion limit is not modelled. The original recurses once per letter of a run (parser.py:86), once per nesting level of the pattern (parser.py:115, 119, 131) and once per tree level in the matcher (parser.py:169, 183, 201), so a pattern with a run of about a thousand letters makes it raise `RuntimeError`, where `ParseRE` returns `Ok`.
