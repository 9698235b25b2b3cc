# CompilerParser: a verified model of a recursive-descent parser

`CompilerParser` parses the token list of one class of a small class-based language
into a parse tree. It keeps the tokens and a cursor, `current_token_index`. Three
primitives work on them:

- `current` reads the token at the cursor.
- `have` tests that token against an expected kind and value.
- `mustBe` tests it and moves the cursor past it.

One method per grammar rule builds a labelled tree from these primitives. The rules
are `compileProgram`, `compileClass`, `compileClassVarDec`, `compileSubroutine`,
`compileParameterList`, `compileSubroutineBody` and `compileVarDec`. Every failure
is the one exception kind `ParseException`. A repeated rule is written as "call the
rule until it raises, and swallow the exception".

The model follows the code as written, including where it departs from the grammar the
language is meant to have:

- The test in `have` is Python's `in`. Against a string it is a substring test, and
  against a list it is membership. So `mustBe("keyword", " class")` accepts `class`,
  and it also accepts `las` or the empty string.
- `have` never answers "no": a mismatch raises, just like a missing token.
- A failed attempt of a repeated rule is not rolled back. Tokens it matched before
  failing stay consumed and are missing from the tree. For example, `{ var int }`
  parses to a body holding only its two braces.
- After a comma, a declaration or parameter list expects a name only. A comma with no
  name after it is kept, so `field int x , ;` parses with five leaves. In
  `( int a , int b )` the first parameter list ends at the comma, and the second type
  starts a new parameter list.
- A type written as the class name is accepted only when its token has kind
  `keyword`. An identifier token there makes the rule fail.
- A subroutine may end with zero or more bodies, and a body holds variable
  declarations only: statements are never attempted.

Layout:

- `outcomes.dfy` (module `Outcomes`) holds `Result` (a value or `ParseException`) and
  `Parsed` (what a rule does to a cursor).
- `tokens.dfy` (module `Tokens`) holds tokens, trees and the matching test of `have`.
- `grammar.dfy` (module `Grammar`) states each rule as a function of the token list
  and a start position. The function gives the tree built, or a failure, together
  with where the cursor ends up.
- `grammar_facts.dfy` (module `GrammarFacts`) proves what those functions guarantee.
- `parser.dfy` (module `CompilerParser`) has the class `Parser`. It has the
  immutable `tokens` and the mutable cursor `pos`, and one method per primitive and
  rule. Each rule method is proved to return exactly what its grammar function gives
  and to leave `pos` where that function says, on failure too.

Token kinds are the lexer's five kinds. `have` compares their names (`keyword`,
`symbol`, …) with `==` and `in`, as the code does. `Tokens.KindNamesNotNested`
proves that the `in` test on kind names holds only for equal kinds.

## Model

| member | source | states |
|---|---|---|
| `CompilerParser.Parser.constructor` | CompilerParser.py:5-11 | the parser keeps the given tokens and its cursor starts at 0 |
| `CompilerParser.Parser.Next` | CompilerParser.py:248-253 | `next` moves the cursor forward by exactly one |
| `CompilerParser.Parser.Current` | CompilerParser.py:255-263 | `current` returns the token at the cursor when the cursor is below the token count and fails otherwise; it changes nothing |
| `CompilerParser.Parser.Have` | CompilerParser.py:265-284 | `have` changes nothing; it succeeds, always with `True`, exactly when there is a current token of the expected kind whose value is in the expected value (substring of a string, member of a list); otherwise it raises |
| `CompilerParser.Parser.MustBe` | CompilerParser.py:286-300 | when `have` would succeed, `mustBe` returns the token that was current and advances the cursor by exactly one; otherwise it fails and leaves the cursor unchanged |
| `CompilerParser.Parser.CompileCommaNames` | CompilerParser.py:70-76 | the comma loop returns exactly the leaves `Grammar.CommaNamesAt` gives and stops where it says, including after a comma with no name |
| `CompilerParser.Parser.CompileCommaName` | CompilerParser.py:71-74 | one pass of the comma loop adds nothing and ends the loop when no comma follows, adds only the comma and ends the loop when no name follows it, and otherwise adds both, moves the cursor forward and lets the loop go on; in each case it agrees with `Grammar.CommaNamesAt` |
| `CompilerParser.Parser.CompileRepeated` | CompilerParser.py:37-50 | the repetition idiom returns the trees of the successful attempts in order and leaves the cursor where the failing attempt left it, exactly as `Grammar.RepeatAt` |
| `CompilerParser.Parser.CompileRule` | CompilerParser.py:38-48 | one attempt of a repeated rule returns what the rule's grammar function gives and leaves the cursor where it says |
| `CompilerParser.Parser.CompileDeclaration` | CompilerParser.py:59-80 | the declaration body shared by the two declaration methods returns the tree or failure of `Grammar.DeclarationAt` and leaves the cursor where it says |
| `CompilerParser.Parser.CompileClassVarDec` | CompilerParser.py:54-80 | `compileClassVarDec` returns the tree or failure of `Grammar.ClassVarDecAt` and leaves the cursor where it says |
| `CompilerParser.Parser.CompileVarDec` | CompilerParser.py:158-183 | `compileVarDec` returns the tree or failure of `Grammar.VarDecAt` and leaves the cursor where it says |
| `CompilerParser.Parser.CompileParameterList` | CompilerParser.py:119-137 | `compileParameterList` returns the tree or failure of `Grammar.ParameterListAt` and leaves the cursor where it says |
| `CompilerParser.Parser.CompileSubroutineBody` | CompilerParser.py:139-156 | `compileSubroutineBody` returns the tree or failure of `Grammar.SubroutineBodyAt` and leaves the cursor where it says |
| `CompilerParser.Parser.CompileSubroutineHead` | CompilerParser.py:88-100 | the first four `mustBe` steps of `compileSubroutine` return the partial tree or failure of `Grammar.SubroutineHeadAt` and leave the cursor where it says |
| `CompilerParser.Parser.CompileSubroutine` | CompilerParser.py:82-117 | `compileSubroutine` returns the tree or failure of `Grammar.SubroutineAt` and leaves the cursor where it says |
| `CompilerParser.Parser.CompileClass` | CompilerParser.py:24-52 | `compileClass` returns the tree or failure of `Grammar.ClassAt` and leaves the cursor where it says |
| `CompilerParser.Parser.CompileProgram` | CompilerParser.py:13-22 | `compileProgram` returns what `Grammar.ProgramAt` gives; on an empty token list it fails without moving the cursor |
| `Grammar.HaveAtIsHaveTest` | CompilerParser.py:265-284 | `Grammar.HaveAt`, the success condition of `have`, holds exactly when there is a current token and the two-branch test as written accepts it |
| `Grammar.MustBeAt` | CompilerParser.py:286-300 | `mustBe` succeeds exactly when `have` would; then it gives the current token and moves one step forward; otherwise it fails at the unmoved cursor |
| `Grammar.IdentifierAt` | CompilerParser.py:33-34 | reading the current value and then calling `mustBe("identifier", value)` (also at lines 68-69, 97-98, 127-128, 132-133, 171-172 and 176-177) succeeds exactly when there is a current token of kind identifier, whatever its value, and then moves one step forward; otherwise it fails at the unmoved cursor |
| `Grammar.CommaNamesAt` | CompilerParser.py:130-135 | the comma loop never moves the cursor back or past the end |
| `Grammar.DeclarationAt` | CompilerParser.py:59-80 | a declaration never moves the cursor back or past the end, and a success consumes at least one token |
| `Grammar.ClassVarDecAt` | CompilerParser.py:54-80 | the same cursor bounds for `compileClassVarDec` |
| `Grammar.VarDecAt` | CompilerParser.py:158-183 | the same cursor bounds for `compileVarDec` |
| `Grammar.ParameterListAt` | CompilerParser.py:119-137 | the same cursor bounds for `compileParameterList` |
| `Grammar.SubroutineBodyAt` | CompilerParser.py:139-156 | the same cursor bounds for `compileSubroutineBody` |
| `Grammar.SubroutineHeadAt` | CompilerParser.py:88-100 | the same cursor bounds for the first four steps of `compileSubroutine` |
| `Grammar.SubroutineAt` | CompilerParser.py:82-117 | the same cursor bounds for `compileSubroutine` |
| `Grammar.RuleAt` | CompilerParser.py:101-105 | one call of a repeated rule (here at lines 102 and 105; also at 38, 41, 45, 48, 110, 113, 148 and 151) never moves the cursor back, because `next` only increments it, and a successful call builds a tree named after its rule |
| `Grammar.RepeatAt` | CompilerParser.py:101-115 | a repetition stays within the tokens, never moves the cursor back, and adds only trees named after the repeated rule |
| `Grammar.ClassAt` | CompilerParser.py:24-52 | `compileClass` never moves the cursor back or past the end |
| `Grammar.ProgramAt` | CompilerParser.py:19-20 | an empty token list fails at the starting cursor, before any tree is built |
| `Tokens.IsSubstringIff` | CompilerParser.py:277-278 | the recursive containment test holds exactly when the value occurs at some index of the expected string, which is what Python's `in` means for strings |
| `Tokens.IsSubstring` | CompilerParser.py:277-278 | Python's `in` on two strings: a contained string is never longer than the containing one, and the empty string is contained in every string |
| `Tokens.ValueInMeans` | CompilerParser.py:277-278 | `Tokens.ValueIn`, the value part of the test, is occurrence at some index when the expected value is a string and equality with some entry when it is a list |
| `Tokens.AddChildAppends` | CompilerParser.py:31-36 | `Tokens.Tree.AddChild`, the model of `addChild`, keeps the node's name and its earlier children and puts the new child last; `AddChildren` adds several in the order given |
| `Tokens.KindNamesNotNested` | CompilerParser.py:272-277 | one kind name is contained in another exactly when the kinds are equal |
| `Tokens.HaveTestMeansMatches` | CompilerParser.py:271-280 | the two-branch test of `have` as written, equal kind and value or else contained kind and value, holds exactly when the kinds are equal and the value is in the expected value |
| `GrammarFacts.CommaNamesShape` | CompilerParser.py:129-135 | the comma loop makes every token it consumes a leaf, in order; those tokens are `,` name pairs, possibly ending in a lone `,` |
| `GrammarFacts.DeclarationShape` | CompilerParser.py:59-80 | a declaration that parses has the consumed tokens as its leaves, in order: the lead keyword, a keyword type (the class name too), an identifier, comma names, `;`; that is 4 + 2k leaves, or 5 + 2k after a lone comma |
| `GrammarFacts.ParameterListShape` | CompilerParser.py:124-137 | a parameter list that parses has the consumed tokens as its leaves: a keyword type, an identifier, then comma names with no types |
| `GrammarFacts.ProbeStaysIffLeadFails` | CompilerParser.py:63 | an attempt leaves the cursor where it was exactly when its first `mustBe` fails, and then the attempt fails at its start |
| `GrammarFacts.RepeatNothingIff` | CompilerParser.py:101-107 | a repetition adds no tree and keeps the cursor exactly when the rule's first token is absent; so `( )` gives a subroutine no parameter list |
| `GrammarFacts.RepeatEndsInFailure` | CompilerParser.py:37-43 | a repetition ends with an attempt that raised, at the cursor the repetition leaves, and adds at most one tree per token consumed |
| `GrammarFacts.SubroutineBodyShape` | CompilerParser.py:145-156 | a body that parses is a `{` leaf, variable declarations only, and a `}` leaf |
| `GrammarFacts.SubroutineShape` | CompilerParser.py:90-117 | a subroutine that parses starts with four leaves of the consumed tokens, then has parameter lists, one `)` leaf, then zero or more bodies |
| `GrammarFacts.SubroutineHeadTokens` | CompilerParser.py:92-100 | a subroutine that parses starts with a kind keyword, a keyword return type (the class name too), an identifier and `(` |
| `GrammarFacts.ClassShape` | CompilerParser.py:30-52 | a class that parses is named `class`; its first three children are the `class` keyword, the name and `{`, and its last is `}`; the children between are declarations and subroutines, with every declaration before every subroutine |
| `GrammarFacts.ClassSteps` | CompilerParser.py:30-52 | a class that parses consists of its three opening leaves, exactly the declarations and then the subroutines that the two repetitions give from the token after `{`, and its `}` leaf |
| `GrammarFacts.SubroutineSteps` | CompilerParser.py:90-117 | a subroutine that parses consists of its four head leaves, exactly the parameter lists that the repetition gives from the token after `(`, its `)` leaf, and exactly the bodies that the repetition gives after `)`, which also decides where the subroutine ends |
| `GrammarFacts.ClassKeywordValues` | CompilerParser.py:31 | `mustBe("keyword", " class")` takes `class` and also `las`, but refuses `classes` and an identifier `class` |
| `GrammarFacts.TrailingCommaAccepted` | CompilerParser.py:70-78 | `field int x , ;` parses as a class variable declaration with five leaves |
| `GrammarFacts.FailedProbeDropsTokens` | CompilerParser.py:146-154 | in `{ var int }` the failing variable declaration consumes `var int`, and the body keeps only its braces |
| `GrammarFacts.TypeAfterCommaStartsNewList` | CompilerParser.py:102-105 | `int a , int b )` gives two parameter lists, the first ending in the comma |

## Left out

- The `__main__` demonstration at CompilerParser.py:303-346 is left out: it builds a token list and prints a tree.
- The `print` calls at CompilerParser.py:107, 115, 136 and 153 are left out, because they only write to the console.
- Exception message texts are left out. A failure is the single value `Err`.
- `compileStatements` and the other statement and expression methods (CompilerParser.py:185-246) are left out. They are stubs that return `None`, and no rule in the model calls them, just as none in the code does.
- The `ParseTree` module is not part of this model. Trees are values: the constructor's label is the node name, `addChild` appends a child, and the second constructor argument and the printing are not modelled. No tree is shared or changed after its rule returns, so a value loses nothing.
- Token kinds are the lexer's five kinds. A token kind string outside them is not modelled.
- The repetition idiom appears five times in the code, at CompilerParser.py:37-43, 44-50, 101-107, 109-115 and 147-153. It is modelled once, as `CompileRepeated` over a `Rule` value. Likewise the comma loop appears three times, at CompilerParser.py:70-76, 129-135 and 173-179. It is modelled once as `CompileCommaNames`, with one pass of its body as `CompileCommaName`.
