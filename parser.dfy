/** The parser object: a token list, a cursor, the three primitives `current`, `have`
    and `mustBe`, and one method per grammar rule.

    Every rule method is proved against the function of the same rule in Grammar: it
    returns that function's result and leaves the cursor where the function says,
    failure included. */
module CompilerParser {
  import opened Tokens
  import opened Outcomes
  import opened Grammar

  /** Appending in two steps is appending the two pieces joined. */
  lemma AppendAssociative<T>(a: seq<T>, b: seq<T>, c: seq<T>)
    ensures (a + b) + c == a + (b + c)
  {
  }

  class Parser {
    /** The tokens to parse; never changed after construction. */
    const tokens: seq<Token>
    /** `current_token_index`. */
    var pos: nat

    /** The cursor never runs past the end: it only moves past a token that was there. */
    ghost predicate Valid()
      reads this
    {
      pos <= |tokens|
    }

    /** `__init__`: the cursor starts at the first token. */
    constructor (tokens: seq<Token>)
      ensures this.tokens == tokens && pos == 0
      ensures Valid()
    {
      this.tokens := tokens;
      pos := 0;
    }

    /** `next`: advances the cursor by one. */
    method Next()
      modifies this
      ensures pos == old(pos) + 1
    {
      pos := pos + 1;
    }

    /** `current`: the token under the cursor, or a failure past the end. */
    method Current() returns (r: Result<Token>)
      ensures pos < |tokens| ==> r == Ok(tokens[pos])
      ensures pos >= |tokens| ==> r == Err
    {
      if pos < |tokens| {
        r := Ok(tokens[pos]);
      } else {
        r := Err;
      }
    }

    /** `have`: tests the current token. It never answers "no": a mismatch, like a
        missing token, raises. */
    method Have(kind: Kind, expected: Expected) returns (r: Result<bool>)
      ensures r.Ok? <==> pos < |tokens| && Matches(tokens[pos], kind, expected)
      ensures r.Ok? ==> r.value
    {
      var cur :- Current();
      HaveTestMeansMatches(cur, kind, expected);
      if KindName(cur.kind) == KindName(kind) && expected.Literal? && cur.value == expected.text {
        return Ok(true);
      } else if IsSubstring(KindName(cur.kind), KindName(kind)) && ValueIn(cur.value, expected) {
        return Ok(true);
      }
      r := Err;
    }

    /** `mustBe`: on a match returns the current token and advances past it; otherwise
        fails and leaves the cursor alone. */
    method MustBe(kind: Kind, expected: Expected) returns (r: Result<Token>)
      requires Valid()
      modifies this
      ensures Valid()
      ensures HaveAt(tokens, old(pos), kind, expected) ==> r == Ok(tokens[old(pos)]) && pos == old(pos) + 1
      ensures !HaveAt(tokens, old(pos), kind, expected) ==> r == Err && pos == old(pos)
    {
      var cur :- Current();
      var matched := Have(kind, expected);
      if matched == Ok(true) {
        Next();
        r := Ok(cur);
      } else {
        r := Err;
      }
    }

    /** The comma loop of `compileClassVarDec`, `compileParameterList` and
        `compileVarDec`: collects `,` and a name while a comma follows, and stops at
        the first exception, keeping what it collected. */
    method CompileCommaNames() returns (more: seq<Child>)
      requires Valid()
      modifies this
      ensures Valid()
      ensures more == CommaNamesAt(tokens, old(pos)).0
      ensures pos == CommaNamesAt(tokens, old(pos)).1
    {
      more := [];
      ghost var whole := CommaNamesAt(tokens, pos);
      while true
        invariant Valid()
        invariant whole.0 == more + CommaNamesAt(tokens, pos).0
        invariant whole.1 == CommaNamesAt(tokens, pos).1
        decreases |tokens| - pos
      {
        ghost var before := more;
        var added, goOn := CompileCommaName();
        more := more + added;
        if !goOn {
          break;
        }
        AppendAssociative(before, added, CommaNamesAt(tokens, pos).0);
      }
    }

    /** One pass of the comma loop: `have(",")`, `mustBe(",")`, `current()`,
        `mustBe(identifier)`. It adds nothing when no comma follows, only the comma when
        no name follows it, and otherwise both; the loop goes on only in the last case. */
    method CompileCommaName() returns (added: seq<Child>, goOn: bool)
      requires Valid()
      modifies this
      ensures Valid()
      ensures !goOn ==> CommaNamesAt(tokens, old(pos)) == (added, pos)
      ensures goOn ==> old(pos) < pos
      ensures goOn ==> CommaNamesAt(tokens, old(pos)) == (added + CommaNamesAt(tokens, pos).0, CommaNamesAt(tokens, pos).1)
    {
      var comma := Have(Symbol, Literal(","));
      if comma.Err? {
        return [], false;
      }
      var sep := MustBe(Symbol, Literal(","));
      var cur := Current();
      if cur.Err? {
        return [Leaf(sep.value)], false;
      }
      var ident := MustBe(Identifier, Literal(cur.value.value));
      if ident.Err? {
        return [Leaf(sep.value)], false;
      }
      return [Leaf(sep.value), Leaf(ident.value)], true;
    }

    /** The repetition idiom `try: x = rule(); while x is not None: add(x); x = rule()
        except ParseException: pass`: the trees of the successful attempts, in order;
        the cursor stays where the failing attempt left it. */
    method CompileRepeated(rule: Rule, className: string) returns (items: seq<Child>)
      requires Valid()
      modifies this
      ensures Valid()
      ensures items == RepeatAt(rule, tokens, old(pos), className).0
      ensures pos == RepeatAt(rule, tokens, old(pos), className).1
      decreases |tokens| - pos, 2
    {
      items := [];
      ghost var whole := RepeatAt(rule, tokens, pos, className);
      while true
        invariant Valid()
        invariant whole.0 == items + RepeatAt(rule, tokens, pos, className).0
        invariant whole.1 == RepeatAt(rule, tokens, pos, className).1
        decreases |tokens| - pos
      {
        ghost var p0 := pos;
        var attempt := CompileRule(rule, className);
        if attempt.Err? {
          assert RepeatAt(rule, tokens, p0, className) == ([], pos);
          break;
        }
        ghost var rest := RepeatAt(rule, tokens, pos, className);
        assert RepeatAt(rule, tokens, p0, className) == ([Sub(attempt.value)] + rest.0, rest.1);
        ghost var before := items;
        items := items + [Sub(attempt.value)];
        AppendAssociative(before, [Sub(attempt.value)], rest.0);
      }
    }

    /** One attempt of a repeated rule. */
    method CompileRule(rule: Rule, className: string) returns (r: Result<Tree>)
      requires Valid()
      modifies this
      ensures Valid()
      ensures r == RuleAt(rule, tokens, old(pos), className).AsResult()
      ensures pos == RuleAt(rule, tokens, old(pos), className).Cursor()
      decreases |tokens| - pos, 1
    {
      match rule
      case ClassVarDec => r := CompileClassVarDec(className);
      case Subroutine => r := CompileSubroutine(className);
      case ParameterList => r := CompileParameterList(className);
      case SubroutineBody => r := CompileSubroutineBody(className);
      case VarDec => r := CompileVarDec(className);
    }

    /** The body shared by `compileClassVarDec` and `compileVarDec`. */
    method CompileDeclaration(name: string, lead: Expected, className: string) returns (r: Result<Tree>)
      requires Valid()
      modifies this
      ensures Valid()
      ensures r == DeclarationAt(tokens, old(pos), name, lead, className).AsResult()
      ensures pos == DeclarationAt(tokens, old(pos), name, lead, className).Cursor()
    {
      var tree := Node(name, []);
      var qualifier :- MustBe(Keyword, lead);
      tree := tree.AddChild(Leaf(qualifier));
      var typ :- MustBe(Keyword, AnyOf(VarTypes(className)));
      tree := tree.AddChild(Leaf(typ));
      var cur :- Current();
      var ident :- MustBe(Identifier, Literal(cur.value));
      tree := tree.AddChild(Leaf(ident));
      var more := CompileCommaNames();
      tree := tree.AddChildren(more);
      var semi :- MustBe(Symbol, Literal(";"));
      tree := tree.AddChild(Leaf(semi));
      r := Ok(tree);
    }

    /** `compileClassVarDec`. */
    method CompileClassVarDec(className: string) returns (r: Result<Tree>)
      requires Valid()
      modifies this
      ensures Valid()
      ensures r == ClassVarDecAt(tokens, old(pos), className).AsResult()
      ensures pos == ClassVarDecAt(tokens, old(pos), className).Cursor()
    {
      r := CompileDeclaration("classVarDec", AnyOf(Qualifiers), className);
    }

    /** `compileVarDec`. */
    method CompileVarDec(className: string) returns (r: Result<Tree>)
      requires Valid()
      modifies this
      ensures Valid()
      ensures r == VarDecAt(tokens, old(pos), className).AsResult()
      ensures pos == VarDecAt(tokens, old(pos), className).Cursor()
    {
      r := CompileDeclaration("varDec", Literal("var"), className);
    }

    /** `compileParameterList`. */
    method CompileParameterList(className: string) returns (r: Result<Tree>)
      requires Valid()
      modifies this
      ensures Valid()
      ensures r == ParameterListAt(tokens, old(pos), className).AsResult()
      ensures pos == ParameterListAt(tokens, old(pos), className).Cursor()
    {
      var tree := Node("parameterList", []);
      var typ :- MustBe(Keyword, AnyOf(ReturnTypes(className)));
      tree := tree.AddChild(Leaf(typ));
      var cur :- Current();
      var ident :- MustBe(Identifier, Literal(cur.value));
      tree := tree.AddChild(Leaf(ident));
      var more := CompileCommaNames();
      tree := tree.AddChildren(more);
      r := Ok(tree);
    }

    /** `compileSubroutineBody`. */
    method CompileSubroutineBody(className: string) returns (r: Result<Tree>)
      requires Valid()
      modifies this
      ensures Valid()
      ensures r == SubroutineBodyAt(tokens, old(pos), className).AsResult()
      ensures pos == SubroutineBodyAt(tokens, old(pos), className).Cursor()
      decreases |tokens| - pos, 0
    {
      var tree := Node("subroutineBody", []);
      var open :- MustBe(Symbol, Literal("{"));
      tree := tree.AddChild(Leaf(open));
      var decs := CompileRepeated(VarDec, className);
      tree := tree.AddChildren(decs);
      var close :- MustBe(Symbol, Literal("}"));
      tree := tree.AddChild(Leaf(close));
      r := Ok(tree);
    }

    /** The first four steps of `compileSubroutine`. */
    method CompileSubroutineHead(className: string) returns (r: Result<Tree>)
      requires Valid()
      modifies this
      ensures Valid()
      ensures r == SubroutineHeadAt(tokens, old(pos), className).AsResult()
      ensures pos == SubroutineHeadAt(tokens, old(pos), className).Cursor()
    {
      var tree := Node("subroutine", []);
      var kind :- MustBe(Keyword, AnyOf(SubroutineKinds));
      tree := tree.AddChild(Leaf(kind));
      var typ :- MustBe(Keyword, AnyOf(ReturnTypes(className)));
      tree := tree.AddChild(Leaf(typ));
      var cur :- Current();
      var ident :- MustBe(Identifier, Literal(cur.value));
      tree := tree.AddChild(Leaf(ident));
      var open :- MustBe(Symbol, Literal("("));
      tree := tree.AddChild(Leaf(open));
      r := Ok(tree);
    }

    /** `compileSubroutine`. */
    method CompileSubroutine(className: string) returns (r: Result<Tree>)
      requires Valid()
      modifies this
      ensures Valid()
      ensures r == SubroutineAt(tokens, old(pos), className).AsResult()
      ensures pos == SubroutineAt(tokens, old(pos), className).Cursor()
      decreases |tokens| - pos, 0
    {
      var tree :- CompileSubroutineHead(className);
      var params := CompileRepeated(ParameterList, className);
      tree := tree.AddChildren(params);
      var close :- MustBe(Symbol, Literal(")"));
      tree := tree.AddChild(Leaf(close));
      var bodies := CompileRepeated(SubroutineBody, className);
      tree := tree.AddChildren(bodies);
      r := Ok(tree);
    }

    /** `compileClass`. */
    method CompileClass() returns (r: Result<Tree>)
      requires Valid()
      modifies this
      ensures Valid()
      ensures r == ClassAt(tokens, old(pos)).AsResult()
      ensures pos == ClassAt(tokens, old(pos)).Cursor()
    {
      var tree := Node("class", []);
      var keyword :- MustBe(Keyword, Literal(" class"));
      tree := tree.AddChild(Leaf(keyword));
      var cur :- Current();
      var className := cur.value;
      var ident :- MustBe(Identifier, Literal(className));
      tree := tree.AddChild(Leaf(ident));
      var open :- MustBe(Symbol, Literal("{"));
      tree := tree.AddChild(Leaf(open));
      var decs := CompileRepeated(ClassVarDec, className);
      tree := tree.AddChildren(decs);
      var subs := CompileRepeated(Subroutine, className);
      tree := tree.AddChildren(subs);
      var close :- MustBe(Symbol, Literal("}"));
      tree := tree.AddChild(Leaf(close));
      r := Ok(tree);
    }

    /** `compileProgram`: an empty token list fails before any tree is built or the
        cursor moves; otherwise one class is parsed. */
    method CompileProgram() returns (r: Result<Tree>)
      requires Valid()
      modifies this
      ensures Valid()
      ensures r == ProgramAt(tokens, old(pos)).AsResult()
      ensures pos == ProgramAt(tokens, old(pos)).Cursor()
      ensures |tokens| == 0 ==> r == Err && pos == old(pos)
    {
      if |tokens| == 0 {
        return Err;
      }
      r := CompileClass();
    }
  }
}
