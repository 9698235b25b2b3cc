/** What the grammar rules guarantee about the trees they build and the tokens they
    consume, including the behaviour the parser has as written: a substring test
    where a string is expected, a trailing comma accepted, a failed probe that drops
    the tokens it consumed. */
module GrammarFacts {
  import opened Tokens
  import opened Outcomes
  import opened Grammar

  /** `cs` are the tokens from position `p` on, each as a leaf. */
  predicate LeavesFrom(cs: seq<Child>, toks: seq<Token>, p: nat) {
    p + |cs| <= |toks| && forall i :: 0 <= i < |cs| ==> cs[i] == Leaf(toks[p + i])
  }

  /** Every child is a subtree named `name`. */
  predicate AllNamed(cs: seq<Child>, name: string) {
    forall i :: 0 <= i < |cs| ==> IsNode(cs[i], name)
  }

  /** What the comma loop accepts: `,` name pairs, possibly ending in a lone `,`. */
  predicate CommaNames(ts: seq<Token>)
    decreases |ts|
  {
    |ts| == 0
    || (Matches(ts[0], Symbol, Literal(","))
        && (|ts| == 1 || (ts[1].kind == Identifier && CommaNames(ts[2..]))))
  }

  /** The comma loop turns every token it consumes into a leaf, in order, and what it
      consumes is a run of `,` name pairs, possibly ending in a lone `,`. */
  lemma {:induction false} CommaNamesShape(toks: seq<Token>, p: nat)
    requires p <= |toks|
    ensures var (more, m) := CommaNamesAt(toks, p);
      |more| == m - p && LeavesFrom(more, toks, p) && CommaNames(toks[p..m])
    decreases |toks| - p
  {
    var (more, m) := CommaNamesAt(toks, p);
    if HaveAt(toks, p, Symbol, Literal(",")) {
      match IdentifierAt(toks, p + 1)
      case Failed(_) =>
        assert toks[p..m] == [toks[p]];
      case Done(name, q) =>
        CommaNamesShape(toks, q);
        var rest := CommaNamesAt(toks, q);
        assert more == [Leaf(toks[p]), Leaf(name)] + rest.0;
        assert toks[p..m][2..] == toks[q..m];
    }
  }

  /** A declaration that parses keeps every token it consumed as a leaf, in order:
      the lead keyword, a type (a keyword, even when it is the class name), a name, the
      comma names, and `;`. With k names after commas that is 4 + 2k leaves, or
      5 + 2k when a lone comma precedes the `;`. */
  lemma DeclarationShape(toks: seq<Token>, p: nat, name: string, lead: Expected, className: string)
    requires p <= |toks| && DeclarationAt(toks, p, name, lead, className).Done?
    ensures var o := DeclarationAt(toks, p, name, lead, className);
      var (t, q) := (o.value, o.next);
      && t.name == name
      && p + 4 <= q && |t.children| == q - p && LeavesFrom(t.children, toks, p)
      && Matches(toks[p], Keyword, lead)
      && toks[p + 1].kind == Keyword && toks[p + 1].value in VarTypes(className)
      && toks[p + 2].kind == Identifier
      && CommaNames(toks[p + 3..q - 1])
      && Matches(toks[q - 1], Symbol, Literal(";"))
  {
    var more, m := DeclarationSteps(toks, p, name, lead, className);
    CommaNamesShape(toks, p + 3);
    LeavesAround(DeclarationAt(toks, p, name, lead, className).value.children, toks, p, 3, more, m);
  }

  /** Leaves of the tokens before and after a run of leaves of the tokens between are
      leaves of all those tokens. */
  lemma LeavesAround(cs: seq<Child>, toks: seq<Token>, p: nat, k: nat, more: seq<Child>, m: nat)
    requires p + k + |more| == m < |toks| && LeavesFrom(more, toks, p + k)
    requires cs == seq(k, i requires 0 <= i < k => Leaf(toks[p + i])) + more + [Leaf(toks[m])]
    ensures |cs| == m + 1 - p && LeavesFrom(cs, toks, p)
  {
  }

  /** The steps of a declaration that parses: the comma names and the position of the
      `;`. */
  lemma DeclarationSteps(toks: seq<Token>, p: nat, name: string, lead: Expected, className: string)
      returns (more: seq<Child>, m: nat)
    requires p <= |toks| && DeclarationAt(toks, p, name, lead, className).Done?
    ensures p + 3 <= m < |toks| && (more, m) == CommaNamesAt(toks, p + 3)
    ensures HaveAt(toks, p, Keyword, lead)
    ensures HaveAt(toks, p + 1, Keyword, AnyOf(VarTypes(className)))
    ensures HaveAt(toks, p + 2, Identifier, Literal(toks[p + 2].value))
    ensures HaveAt(toks, m, Symbol, Literal(";"))
    ensures DeclarationAt(toks, p, name, lead, className).next == m + 1
    ensures DeclarationAt(toks, p, name, lead, className).value
      == Node(name, [Leaf(toks[p]), Leaf(toks[p + 1]), Leaf(toks[p + 2])] + more + [Leaf(toks[m])])
  {
    more, m := CommaNamesAt(toks, p + 3).0, CommaNamesAt(toks, p + 3).1;
  }

  /** A parameter list that parses keeps every token it consumed as a leaf, in order:
      a type keyword, a name, then comma names; a name after a comma carries no type. */
  lemma ParameterListShape(toks: seq<Token>, p: nat, className: string)
    requires p <= |toks| && ParameterListAt(toks, p, className).Done?
    ensures var o := ParameterListAt(toks, p, className);
      var (t, q) := (o.value, o.next);
      && t.name == "parameterList"
      && p + 2 <= q && |t.children| == q - p && LeavesFrom(t.children, toks, p)
      && toks[p].kind == Keyword && toks[p].value in ReturnTypes(className)
      && toks[p + 1].kind == Identifier
      && CommaNames(toks[p + 2..q])
  {
    var (more, m) := CommaNamesAt(toks, p + 2);
    CommaNamesShape(toks, p + 2);
    var o := ParameterListAt(toks, p, className);
    assert o.value.children == [Leaf(toks[p]), Leaf(toks[p + 1])] + more;
  }

  /** The token kind and expected value of a rule's first `mustBe`. */
  function LeadKind(rule: Rule): Kind {
    if rule == SubroutineBody then Symbol else Keyword
  }

  function Lead(rule: Rule, className: string): Expected {
    match rule
    case ClassVarDec => AnyOf(Qualifiers)
    case Subroutine => AnyOf(SubroutineKinds)
    case ParameterList => AnyOf(ReturnTypes(className))
    case SubroutineBody => Literal("{")
    case VarDec => Literal("var")
  }

  /** An attempt leaves the cursor where it was exactly when its first `mustBe` fails;
      once that one matches, a failure later in the rule still leaves the cursor past
      the tokens already matched. */
  lemma ProbeStaysIffLeadFails(rule: Rule, toks: seq<Token>, p: nat, className: string)
    requires p <= |toks|
    ensures RuleAt(rule, toks, p, className).Cursor() == p <==> !HaveAt(toks, p, LeadKind(rule), Lead(rule, className))
    ensures !HaveAt(toks, p, LeadKind(rule), Lead(rule, className)) ==> RuleAt(rule, toks, p, className) == Failed(p)
  {
    match rule
    case Subroutine =>
      assert SubroutineHeadAt(toks, p, className).Cursor() == p
        <==> !HaveAt(toks, p, Keyword, AnyOf(SubroutineKinds));
    case _ =>
  }

  /** A repetition adds nothing and leaves the cursor alone exactly when the rule's
      first token is not there: on `( )` a subroutine gets no parameter list. */
  lemma RepeatNothingIff(rule: Rule, toks: seq<Token>, p: nat, className: string)
    requires p <= |toks|
    ensures RepeatAt(rule, toks, p, className) == ([], p) <==> !HaveAt(toks, p, LeadKind(rule), Lead(rule, className))
  {
    ProbeStaysIffLeadFails(rule, toks, p, className);
  }

  /** A repetition ends with an attempt that failed and left the cursor where the
      repetition leaves it, and it adds at most one tree per token consumed. */
  lemma {:induction false} RepeatEndsInFailure(rule: Rule, toks: seq<Token>, p: nat, className: string)
    requires p <= |toks|
    ensures var (items, e) := RepeatAt(rule, toks, p, className);
      && |items| <= e - p
      && exists q :: p <= q <= e && RuleAt(rule, toks, q, className) == Failed(e)
    decreases |toks| - p
  {
    match RuleAt(rule, toks, p, className)
    case Failed(at) =>
      assert RuleAt(rule, toks, p, className) == Failed(at);
    case Done(t, q) =>
      RepeatEndsInFailure(rule, toks, q, className);
  }

  /** A subroutine body that parses: `{`, variable declarations only (statements are
      never attempted), `}`. */
  lemma SubroutineBodyShape(toks: seq<Token>, p: nat, className: string)
    requires p <= |toks| && SubroutineBodyAt(toks, p, className).Done?
    ensures var o := SubroutineBodyAt(toks, p, className);
      var (cs, q) := (o.value.children, o.next);
      && o.value.name == "subroutineBody"
      && 2 <= |cs| && p + 2 <= q
      && cs[0] == Leaf(toks[p]) && Matches(toks[p], Symbol, Literal("{"))
      && cs[|cs| - 1] == Leaf(toks[q - 1]) && Matches(toks[q - 1], Symbol, Literal("}"))
      && AllNamed(cs[1..|cs| - 1], "varDec")
  {
    var decs, m := SubroutineBodySteps(toks, p, className);
    var cs := SubroutineBodyAt(toks, p, className).value.children;
    assert cs[1..|cs| - 1] == decs;
  }

  /** The steps of a body that parses: its declarations and the position of its `}`. */
  lemma SubroutineBodySteps(toks: seq<Token>, p: nat, className: string) returns (decs: seq<Child>, m: nat)
    requires p <= |toks| && SubroutineBodyAt(toks, p, className).Done?
    ensures p + 1 <= m < |toks| && SubroutineBodyAt(toks, p, className).next == m + 1
    ensures HaveAt(toks, p, Symbol, Literal("{")) && HaveAt(toks, m, Symbol, Literal("}"))
    ensures AllNamed(decs, "varDec") && (decs, m) == RepeatAt(VarDec, toks, p + 1, className)
    ensures SubroutineBodyAt(toks, p, className).value == Node("subroutineBody", [Leaf(toks[p])] + decs + [Leaf(toks[m])])
  {
    var ds := RepeatAt(VarDec, toks, p + 1, className);
    decs, m := ds.0, ds.1;
  }

  /** A subroutine that parses: kind, return type, name and `(` as leaves, then any
      number of parameter lists, the `)` leaf, and any number of bodies, none
      included. */
  lemma SubroutineShape(toks: seq<Token>, p: nat, className: string)
    requires p <= |toks| && SubroutineAt(toks, p, className).Done?
    ensures var o := SubroutineAt(toks, p, className);
      var cs := o.value.children;
      && o.value.name == "subroutine"
      && 5 <= |cs| && LeavesFrom(cs[..4], toks, p)
      && exists c :: 4 <= c < |cs| && cs[c].Leaf? && Matches(cs[c].token, Symbol, Literal(")"))
                     && AllNamed(cs[4..c], "parameterList") && AllNamed(cs[c + 1..], "subroutineBody")
  {
    var params, m, bodies := SubroutineSteps(toks, p, className);
    var cs := SubroutineAt(toks, p, className).value.children;
    SplitAtClose(cs, [Leaf(toks[p]), Leaf(toks[p + 1]), Leaf(toks[p + 2]), Leaf(toks[p + 3])], params, toks[m], bodies);
  }

  /** Where the pieces of a subroutine's children lie. */
  lemma SplitAtClose(cs: seq<Child>, head: seq<Child>, params: seq<Child>, close: Token, bodies: seq<Child>)
    requires cs == head + params + [Leaf(close)] + bodies
    requires Matches(close, Symbol, Literal(")"))
    requires AllNamed(params, "parameterList") && AllNamed(bodies, "subroutineBody")
    ensures cs[..|head|] == head
    ensures exists c :: |head| <= c < |cs| && cs[c].Leaf? && Matches(cs[c].token, Symbol, Literal(")"))
                        && AllNamed(cs[|head|..c], "parameterList") && AllNamed(cs[c + 1..], "subroutineBody")
  {
    var c := |head| + |params|;
    assert cs[|head|..c] == params && cs[c] == Leaf(close) && cs[c + 1..] == bodies;
  }

  /** The four tokens a subroutine starts with: a kind keyword, a return type (a
      keyword, even when it is the class name), a name, and `(`. A return type whose
      token is an identifier, as a class name would be, makes the subroutine fail. */
  lemma SubroutineHeadTokens(toks: seq<Token>, p: nat, className: string)
    requires p <= |toks| && SubroutineAt(toks, p, className).Done?
    ensures p + 4 <= |toks|
    ensures toks[p].kind == Keyword && toks[p].value in SubroutineKinds
    ensures toks[p + 1].kind == Keyword && toks[p + 1].value in ReturnTypes(className)
    ensures toks[p + 2].kind == Identifier
    ensures Matches(toks[p + 3], Symbol, Literal("("))
  {
    var _, _, _ := SubroutineSteps(toks, p, className);
  }

  /** A class that parses: `class` (any keyword whose value occurs in " class"), the
      name, `{` as leaves, then class variable declarations, then subroutines, and the
      `}` leaf; every declaration precedes every subroutine. */
  lemma ClassShape(toks: seq<Token>, p: nat)
    requires p <= |toks| && ClassAt(toks, p).Done?
    ensures var o := ClassAt(toks, p);
      var (cs, q) := (o.value.children, o.next);
      && o.value.name == "class"
      && 4 <= |cs| && p + 4 <= q && LeavesFrom(cs[..3], toks, p)
      && Matches(toks[p], Keyword, Literal(" class"))
      && toks[p + 1].kind == Identifier
      && Matches(toks[p + 2], Symbol, Literal("{"))
      && cs[|cs| - 1] == Leaf(toks[q - 1]) && Matches(toks[q - 1], Symbol, Literal("}"))
      && (forall i :: 3 <= i < |cs| - 1 ==> IsNode(cs[i], "classVarDec") || IsNode(cs[i], "subroutine"))
      && (forall i, j :: 0 <= i < j < |cs| && IsNode(cs[i], "subroutine") ==> !IsNode(cs[j], "classVarDec"))
  {
    var decs, _, subs, e := ClassSteps(toks, p);
    var cs := ClassAt(toks, p).value.children;
    DeclarationsBeforeSubroutines(cs, [Leaf(toks[p]), Leaf(toks[p + 1]), Leaf(toks[p + 2])], decs, subs, toks[e]);
  }

  /** The steps of a class that parses: its declarations, its subroutines, and the
      position of its `}`. */
  lemma ClassSteps(toks: seq<Token>, p: nat) returns (decs: seq<Child>, m: nat, subs: seq<Child>, e: nat)
    requires p <= |toks| && ClassAt(toks, p).Done?
    ensures p + 3 <= m <= e < |toks| && ClassAt(toks, p).next == e + 1
    ensures HaveAt(toks, p, Keyword, Literal(" class"))
    ensures HaveAt(toks, p + 1, Identifier, Literal(toks[p + 1].value))
    ensures HaveAt(toks, p + 2, Symbol, Literal("{"))
    ensures HaveAt(toks, e, Symbol, Literal("}"))
    ensures AllNamed(decs, "classVarDec") && AllNamed(subs, "subroutine")
    ensures (decs, m) == RepeatAt(ClassVarDec, toks, p + 3, toks[p + 1].value)
    ensures (subs, e) == RepeatAt(Subroutine, toks, m, toks[p + 1].value)
    ensures ClassAt(toks, p).value
      == Node("class", [Leaf(toks[p]), Leaf(toks[p + 1]), Leaf(toks[p + 2])] + decs + subs + [Leaf(toks[e])])
  {
    assert MustBeAt(toks, p, Keyword, Literal(" class")) == Done(toks[p], p + 1);
    assert IdentifierAt(toks, p + 1) == Done(toks[p + 1], p + 2);
    assert MustBeAt(toks, p + 2, Symbol, Literal("{")) == Done(toks[p + 2], p + 3);
    var className := toks[p + 1].value;
    var ds := RepeatAt(ClassVarDec, toks, p + 3, className);
    decs, m := ds.0, ds.1;
    var ss := RepeatAt(Subroutine, toks, m, className);
    subs, e := ss.0, ss.1;
    assert MustBeAt(toks, e, Symbol, Literal("}")) == Done(toks[e], e + 1);
  }


  /** Children made of leaves, then declarations, then subroutines, then a leaf have
      every declaration before every subroutine. */
  lemma DeclarationsBeforeSubroutines(cs: seq<Child>, head: seq<Child>, decs: seq<Child>, subs: seq<Child>, close: Token)
    requires cs == head + decs + subs + [Leaf(close)]
    requires forall i :: 0 <= i < |head| ==> head[i].Leaf?
    requires AllNamed(decs, "classVarDec") && AllNamed(subs, "subroutine")
    ensures cs[..|head|] == head
    ensures forall i :: |head| <= i < |cs| - 1 ==> IsNode(cs[i], "classVarDec") || IsNode(cs[i], "subroutine")
    ensures forall i, j :: 0 <= i < j < |cs| && IsNode(cs[i], "subroutine") ==> !IsNode(cs[j], "classVarDec")
  {
    forall i | |head| <= i < |cs| - 1
      ensures IsNode(cs[i], "classVarDec") || IsNode(cs[i], "subroutine")
    {
      if i < |head| + |decs| {
        assert cs[i] == decs[i - |head|];
      } else {
        assert cs[i] == subs[i - |head| - |decs|];
      }
    }
    forall i, j | 0 <= i < j < |cs| && IsNode(cs[i], "subroutine")
      ensures !IsNode(cs[j], "classVarDec")
    {
      if j < |cs| - 1 && |head| + |decs| <= j {
        assert cs[j] == subs[j - |head| - |decs|];
      }
    }
  }

  /** The steps of a subroutine that parses: its parameter lists, the position of its
      `)`, and its bodies. */
  lemma SubroutineSteps(toks: seq<Token>, p: nat, className: string)
      returns (params: seq<Child>, m: nat, bodies: seq<Child>)
    requires p <= |toks| && SubroutineAt(toks, p, className).Done?
    ensures p + 4 <= m < |toks|
    ensures HaveAt(toks, p, Keyword, AnyOf(SubroutineKinds))
    ensures HaveAt(toks, p + 1, Keyword, AnyOf(ReturnTypes(className)))
    ensures HaveAt(toks, p + 2, Identifier, Literal(toks[p + 2].value))
    ensures HaveAt(toks, p + 3, Symbol, Literal("("))
    ensures HaveAt(toks, m, Symbol, Literal(")"))
    ensures AllNamed(params, "parameterList") && AllNamed(bodies, "subroutineBody")
    ensures (params, m) == RepeatAt(ParameterList, toks, p + 4, className)
    ensures (bodies, SubroutineAt(toks, p, className).next) == RepeatAt(SubroutineBody, toks, m + 1, className)
    ensures SubroutineAt(toks, p, className).value
      == Node("subroutine", [Leaf(toks[p]), Leaf(toks[p + 1]), Leaf(toks[p + 2]), Leaf(toks[p + 3])]
                            + params + [Leaf(toks[m])] + bodies)
  {
    var head := SubroutineHeadAt(toks, p, className);
    assert head.Done? && head.next == p + 4;
    assert head.value.children == [Leaf(toks[p]), Leaf(toks[p + 1]), Leaf(toks[p + 2]), Leaf(toks[p + 3])];
    var ps := RepeatAt(ParameterList, toks, p + 4, className);
    params, m := ps.0, ps.1;
    assert MustBeAt(toks, m, Symbol, Literal(")")) == Done(toks[m], m + 1);
    var bs := RepeatAt(SubroutineBody, toks, m + 1, className);
    bodies := bs.0;
  }

  /** `mustBe(Keyword, " class")` takes any keyword whose value occurs in " class":
      `class`, but also `las`; it refuses `classes`, and an identifier `class`. */
  lemma ClassKeywordValues()
    ensures Matches(Token(Keyword, "class"), Keyword, Literal(" class"))
    ensures Matches(Token(Keyword, "las"), Keyword, Literal(" class"))
    ensures !Matches(Token(Keyword, "classes"), Keyword, Literal(" class"))
    ensures !Matches(Token(Identifier, "class"), Keyword, Literal(" class"))
  {
    var w := " class";
    OccursMeansSubstring("class", w, 1);
    assert w[2..5] == "las";
    OccursMeansSubstring("las", w, 2);
  }

  /** A declaration may end in a comma: `field int x , ;` parses, with five leaves. */
  lemma TrailingCommaAccepted()
    ensures var toks := [Token(Keyword, "field"), Token(Keyword, "int"), Token(Identifier, "x"),
                         Token(Symbol, ","), Token(Symbol, ";")];
      ClassVarDecAt(toks, 0, "Main")
        == Done(Node("classVarDec", [Leaf(toks[0]), Leaf(toks[1]), Leaf(toks[2]), Leaf(toks[3]), Leaf(toks[4])]), 5)
  {
    var toks := [Token(Keyword, "field"), Token(Keyword, "int"), Token(Identifier, "x"),
                 Token(Symbol, ","), Token(Symbol, ";")];
    assert IsSubstring(",", ",") && IsSubstring(";", ";") by {
      assert "," <= "," && ";" <= ";";
    }
    assert IsSubstring("x", "x") by { assert "x" <= "x"; }
    assert MustBeAt(toks, 0, Keyword, AnyOf(Qualifiers)) == Done(toks[0], 1);
    assert MustBeAt(toks, 1, Keyword, AnyOf(VarTypes("Main"))) == Done(toks[1], 2);
    assert IdentifierAt(toks, 2) == Done(toks[2], 3);
    assert IdentifierAt(toks, 4) == Failed(4);
    assert CommaNamesAt(toks, 3) == ([Leaf(toks[3])], 4);
    assert MustBeAt(toks, 4, Symbol, Literal(";")) == Done(toks[4], 5);
    assert Node("classVarDec", []).AddChild(Leaf(toks[0])).AddChild(Leaf(toks[1])).AddChild(Leaf(toks[2]))
             .AddChildren([Leaf(toks[3])]).AddChild(Leaf(toks[4])).children
        == [Leaf(toks[0]), Leaf(toks[1]), Leaf(toks[2]), Leaf(toks[3]), Leaf(toks[4])];
  }

  /** A failed probe that consumed tokens drops them: in `{ var int }` the variable
      declaration fails after taking `var` and `int`, and the body keeps only its
      braces. */
  lemma FailedProbeDropsTokens()
    ensures var toks := [Token(Symbol, "{"), Token(Keyword, "var"), Token(Keyword, "int"), Token(Symbol, "}")];
      SubroutineBodyAt(toks, 0, "Main") == Done(Node("subroutineBody", [Leaf(toks[0]), Leaf(toks[3])]), 4)
  {
    var toks := [Token(Symbol, "{"), Token(Keyword, "var"), Token(Keyword, "int"), Token(Symbol, "}")];
    assert IsSubstring("{", "{") && IsSubstring("}", "}") && IsSubstring("var", "var") by {
      assert "{" <= "{" && "}" <= "}" && "var" <= "var";
    }
    assert MustBeAt(toks, 0, Symbol, Literal("{")) == Done(toks[0], 1);
    assert MustBeAt(toks, 1, Keyword, Literal("var")) == Done(toks[1], 2);
    assert MustBeAt(toks, 2, Keyword, AnyOf(VarTypes("Main"))) == Done(toks[2], 3);
    assert IdentifierAt(toks, 3) == Failed(3);
    assert VarDecAt(toks, 1, "Main") == Failed(3);
    assert RepeatAt(VarDec, toks, 1, "Main") == ([], 3);
    assert MustBeAt(toks, 3, Symbol, Literal("}")) == Done(toks[3], 4);
    assert Node("subroutineBody", []).AddChild(Leaf(toks[0])).AddChildren([]).AddChild(Leaf(toks[3])).children
        == [Leaf(toks[0]), Leaf(toks[3])];
  }

  /** A type after a comma is not part of a parameter list: `int a , int b )` gives two
      parameter lists, the first ending in the comma. */
  lemma TypeAfterCommaStartsNewList()
    ensures var toks := [Token(Keyword, "int"), Token(Identifier, "a"), Token(Symbol, ","),
                         Token(Keyword, "int"), Token(Identifier, "b"), Token(Symbol, ")")];
      RepeatAt(ParameterList, toks, 0, "Main")
        == ([Sub(Node("parameterList", [Leaf(toks[0]), Leaf(toks[1]), Leaf(toks[2])])),
             Sub(Node("parameterList", [Leaf(toks[3]), Leaf(toks[4])]))], 5)
  {
    var toks := [Token(Keyword, "int"), Token(Identifier, "a"), Token(Symbol, ","),
                 Token(Keyword, "int"), Token(Identifier, "b"), Token(Symbol, ")")];
    assert IsSubstring(",", ",") && IsSubstring("a", "a") && IsSubstring("b", "b") by {
      assert "," <= "," && "a" <= "a" && "b" <= "b";
    }
    assert IsSubstring(")", ",") == false by {
      if IsSubstring(")", ",") {
        SubstringKeepsChars(")", ",", ')');
      }
    }
    assert IdentifierAt(toks, 3) == Failed(3);
    assert CommaNamesAt(toks, 2) == ([Leaf(toks[2])], 3);
    assert CommaNamesAt(toks, 5) == ([], 5);
    var first := Node("parameterList", [Leaf(toks[0]), Leaf(toks[1]), Leaf(toks[2])]);
    var second := Node("parameterList", [Leaf(toks[3]), Leaf(toks[4])]);
    assert ParameterListAt(toks, 0, "Main").value.children == first.children;
    assert RuleAt(ParameterList, toks, 0, "Main") == Done(first, 3);
    assert ParameterListAt(toks, 3, "Main").value.children == second.children;
    assert RuleAt(ParameterList, toks, 3, "Main") == Done(second, 5);
    assert RuleAt(ParameterList, toks, 5, "Main") == Failed(5);
    var r5 := RepeatAt(ParameterList, toks, 5, "Main");
    assert r5 == ([], 5);
    var r3 := RepeatAt(ParameterList, toks, 3, "Main");
    assert r3 == ([Sub(second)] + r5.0, r5.1);
    assert [Sub(second)] + r5.0 == [Sub(second)];
    assert RepeatAt(ParameterList, toks, 0, "Main") == ([Sub(first)] + r3.0, r3.1);
    assert [Sub(first)] + r3.0 == [Sub(first), Sub(second)];
  }
}
