/** The grammar rules of the recursive-descent parser as functions of a token
    sequence and a cursor position.

    Each function says what the corresponding parser method builds and where it
    leaves the cursor, failure included. A repetition (`try: x = rule(); while x is not
    None: add(x); x = rule() except ParseException: pass`) stops at the first failing
    attempt and keeps the cursor wherever that attempt left it. */
module Grammar {
  import opened Tokens
  import opened Outcomes

  /** `static` or `field`, the qualifiers of a class variable declaration. */
  const Qualifiers: seq<string> := ["static", "field"]

  /** The keywords that start a subroutine. */
  const SubroutineKinds: seq<string> := ["method", "function", "constructor"]

  /** Types accepted in a variable declaration; `className` is the enclosing class. */
  function VarTypes(className: string): seq<string> {
    ["int", "char", "boolean", className]
  }

  /** Types accepted as a return type and as a parameter type. */
  function ReturnTypes(className: string): seq<string> {
    ["int", "char", "boolean", className, "void"]
  }

  /** The rules that the parser calls as repetition probes. */
  datatype Rule = ClassVarDec | Subroutine | ParameterList | SubroutineBody | VarDec

  /** The name a rule gives to the tree it builds. */
  function RuleName(rule: Rule): string {
    match rule
    case ClassVarDec => "classVarDec"
    case Subroutine => "subroutine"
    case ParameterList => "parameterList"
    case SubroutineBody => "subroutineBody"
    case VarDec => "varDec"
  }

  /** A rule's outcome stays within the token sequence and never moves the cursor
      back; a success consumes at least one token. */
  predicate Progress<T>(o: Parsed<T>, p: nat, n: nat) {
    (o.Done? ==> p < o.next <= n) && (o.Failed? ==> p <= o.at <= n)
  }

  /** `have(kind, expected)` succeeds at `p`: there is a current token and it matches. */
  predicate HaveAt(toks: seq<Token>, p: nat, kind: Kind, expected: Expected) {
    p < |toks| && Matches(toks[p], kind, expected)
  }

  /** `HaveAt` is the test of `have` as written, on the current token. */
  lemma HaveAtIsHaveTest(toks: seq<Token>, p: nat, kind: Kind, expected: Expected)
    ensures HaveAt(toks, p, kind, expected) <==> p < |toks| && HaveTest(toks[p], KindName(kind), expected)
  {
    if p < |toks| {
      HaveTestMeansMatches(toks[p], kind, expected);
    }
  }

  /** `mustBe(kind, expected)` at `p`: the current token and one step forward when
      `have` succeeds, a failure at the unmoved cursor otherwise. */
  function MustBeAt(toks: seq<Token>, p: nat, kind: Kind, expected: Expected): (r: Parsed<Token>)
    ensures r.Done? <==> HaveAt(toks, p, kind, expected)
    ensures r.Done? ==> p < |toks| && r.value == toks[p] && r.next == p + 1
    ensures r.Failed? ==> r.at == p
  {
    if HaveAt(toks, p, kind, expected) then Done(toks[p], p + 1) else Failed(p)
  }

  /** `name = current().getValue(); mustBe(Identifier, name)`. The expected value is
      the token's own value, so only the kind is tested. */
  function IdentifierAt(toks: seq<Token>, p: nat): (r: Parsed<Token>)
    ensures r.Done? <==> p < |toks| && toks[p].kind == Identifier
    ensures r.Done? ==> r.value == toks[p] && r.next == p + 1
    ensures r.Failed? ==> r.at == p
  {
    if p < |toks| then
      SubstringOfItself(toks[p].value);
      MustBeAt(toks, p, Identifier, Literal(toks[p].value))
    else Failed(p)
  }

  /** The `while have(Symbol, ","): mustBe(","); mustBe(identifier)` loop inside a
      `try` that swallows its exception: the leaves it adds and the cursor after it. A
      comma whose name is missing stays added and consumed. */
  function CommaNamesAt(toks: seq<Token>, p: nat): (r: (seq<Child>, nat))
    requires p <= |toks|
    ensures p <= r.1 <= |toks|
    decreases |toks| - p
  {
    if !HaveAt(toks, p, Symbol, Literal(",")) then ([], p)
    else
      match IdentifierAt(toks, p + 1)
      case Failed(_) => ([Leaf(toks[p])], p + 1)
      case Done(name, q) =>
        var rest := CommaNamesAt(toks, q);
        ([Leaf(toks[p]), Leaf(name)] + rest.0, rest.1)
  }

  /** A declaration: `lead` keyword, a type, a name, more names after commas, `;`.
      Shared by `compileClassVarDec` and `compileVarDec`. */
  function DeclarationAt(toks: seq<Token>, p: nat, name: string, lead: Expected, className: string): (o: Parsed<Tree>)
    requires p <= |toks|
    ensures Progress(o, p, |toks|)
  {
    var qualifier :- MustBeAt(toks, p, Keyword, lead);
    var typ :- MustBeAt(toks, qualifier.next, Keyword, AnyOf(VarTypes(className)));
    var ident :- IdentifierAt(toks, typ.next);
    var (more, m) := CommaNamesAt(toks, ident.next);
    var semi :- MustBeAt(toks, m, Symbol, Literal(";"));
    var tree := Node(name, []).AddChild(Leaf(qualifier.value)).AddChild(Leaf(typ.value)).AddChild(Leaf(ident.value));
    Done(tree.AddChildren(more).AddChild(Leaf(semi.value)), semi.next)
  }

  /** `compileClassVarDec`. */
  function ClassVarDecAt(toks: seq<Token>, p: nat, className: string): (o: Parsed<Tree>)
    requires p <= |toks|
    ensures Progress(o, p, |toks|)
  {
    DeclarationAt(toks, p, "classVarDec", AnyOf(Qualifiers), className)
  }

  /** `compileVarDec`. */
  function VarDecAt(toks: seq<Token>, p: nat, className: string): (o: Parsed<Tree>)
    requires p <= |toks|
    ensures Progress(o, p, |toks|)
  {
    DeclarationAt(toks, p, "varDec", Literal("var"), className)
  }

  /** `compileParameterList`: a type, a name, then names after commas. */
  function ParameterListAt(toks: seq<Token>, p: nat, className: string): (o: Parsed<Tree>)
    requires p <= |toks|
    ensures Progress(o, p, |toks|)
  {
    var typ :- MustBeAt(toks, p, Keyword, AnyOf(ReturnTypes(className)));
    var ident :- IdentifierAt(toks, typ.next);
    var (more, m) := CommaNamesAt(toks, ident.next);
    var tree := Node("parameterList", []).AddChild(Leaf(typ.value)).AddChild(Leaf(ident.value));
    Done(tree.AddChildren(more), m)
  }

  /** `compileSubroutineBody`: `{`, repeated variable declarations, `}`. */
  function SubroutineBodyAt(toks: seq<Token>, p: nat, className: string): (o: Parsed<Tree>)
    requires p <= |toks|
    ensures Progress(o, p, |toks|)
    decreases |toks| - p, 0
  {
    var open :- MustBeAt(toks, p, Symbol, Literal("{"));
    var (decs, m) := RepeatAt(VarDec, toks, open.next, className);
    var close :- MustBeAt(toks, m, Symbol, Literal("}"));
    Done(Node("subroutineBody", []).AddChild(Leaf(open.value)).AddChildren(decs).AddChild(Leaf(close.value)), close.next)
  }

  /** The first four steps of `compileSubroutine`: kind, return type, name, `(`. */
  function SubroutineHeadAt(toks: seq<Token>, p: nat, className: string): (o: Parsed<Tree>)
    requires p <= |toks|
    ensures Progress(o, p, |toks|)
  {
    var kind :- MustBeAt(toks, p, Keyword, AnyOf(SubroutineKinds));
    var typ :- MustBeAt(toks, kind.next, Keyword, AnyOf(ReturnTypes(className)));
    var ident :- IdentifierAt(toks, typ.next);
    var open :- MustBeAt(toks, ident.next, Symbol, Literal("("));
    Done(Node("subroutine", []).AddChild(Leaf(kind.value)).AddChild(Leaf(typ.value))
                               .AddChild(Leaf(ident.value)).AddChild(Leaf(open.value)), open.next)
  }

  /** `compileSubroutine`: kind, return type, name, `(`, repeated parameter lists,
      `)`, repeated bodies. */
  function SubroutineAt(toks: seq<Token>, p: nat, className: string): (o: Parsed<Tree>)
    requires p <= |toks|
    ensures Progress(o, p, |toks|)
    decreases |toks| - p, 0
  {
    var head :- SubroutineHeadAt(toks, p, className);
    var (params, m) := RepeatAt(ParameterList, toks, head.next, className);
    var close :- MustBeAt(toks, m, Symbol, Literal(")"));
    var (bodies, e) := RepeatAt(SubroutineBody, toks, close.next, className);
    Done(head.value.AddChildren(params).AddChild(Leaf(close.value)).AddChildren(bodies), e)
  }

  /** One attempt of a repeated rule. */
  function RuleAt(rule: Rule, toks: seq<Token>, p: nat, className: string): (o: Parsed<Tree>)
    requires p <= |toks|
    ensures Progress(o, p, |toks|)
    ensures o.Done? ==> o.value.name == RuleName(rule)
    decreases |toks| - p, 1
  {
    match rule
    case ClassVarDec => ClassVarDecAt(toks, p, className)
    case Subroutine => SubroutineAt(toks, p, className)
    case ParameterList => ParameterListAt(toks, p, className)
    case SubroutineBody => SubroutineBodyAt(toks, p, className)
    case VarDec => VarDecAt(toks, p, className)
  }

  /** A rule attempted until an attempt fails: the subtrees added, and the cursor the
      failing attempt left behind. */
  function RepeatAt(rule: Rule, toks: seq<Token>, p: nat, className: string): (r: (seq<Child>, nat))
    requires p <= |toks|
    ensures p <= r.1 <= |toks|
    ensures forall i :: 0 <= i < |r.0| ==> IsNode(r.0[i], RuleName(rule))
    decreases |toks| - p, 2
  {
    match RuleAt(rule, toks, p, className)
    case Failed(at) => ([], at)
    case Done(t, q) =>
      var rest := RepeatAt(rule, toks, q, className);
      ([Sub(t)] + rest.0, rest.1)
  }

  /** `compileClass`: `class`, its name, `{`, repeated class variable declarations,
      repeated subroutines, `}`. The class name is the value of the name token. */
  function ClassAt(toks: seq<Token>, p: nat): (o: Parsed<Tree>)
    requires p <= |toks|
    ensures Progress(o, p, |toks|)
  {
    var keyword :- MustBeAt(toks, p, Keyword, Literal(" class"));
    var ident :- IdentifierAt(toks, keyword.next);
    var className := ident.value.value;
    var open :- MustBeAt(toks, ident.next, Symbol, Literal("{"));
    var (decs, m) := RepeatAt(ClassVarDec, toks, open.next, className);
    var (subs, e) := RepeatAt(Subroutine, toks, m, className);
    var close :- MustBeAt(toks, e, Symbol, Literal("}"));
    var tree := Node("class", []).AddChild(Leaf(keyword.value)).AddChild(Leaf(ident.value)).AddChild(Leaf(open.value));
    Done(tree.AddChildren(decs).AddChildren(subs).AddChild(Leaf(close.value)), close.next)
  }

  /** `compileProgram`: refuses an empty token list, otherwise parses one class. */
  function ProgramAt(toks: seq<Token>, p: nat): (o: Parsed<Tree>)
    requires p <= |toks|
    ensures Progress(o, p, |toks|)
    ensures |toks| == 0 ==> o == Failed(p)
  {
    if |toks| == 0 then Failed(p) else ClassAt(toks, p)
  }
}
