/** Tokens, parse trees, and the matching test behind `have` and `mustBe`. */
module Tokens {

  /** The lexer's token kinds. */
  datatype Kind = Keyword | Symbol | Identifier | IntConstant | StringConstant

  /** The string the lexer uses for each kind; `getType` returns it. */
  function KindName(k: Kind): string {
    match k
    case Keyword => "keyword"
    case Symbol => "symbol"
    case Identifier => "identifier"
    case IntConstant => "intConstant"
    case StringConstant => "stringConstant"
  }

  /** A lexed token: its kind (`getType`) and its text (`getValue`). */
  datatype Token = Token(kind: Kind, value: string)

  /** A parse-tree node: the name given to its constructor and its children in the
      order they were added. */
  datatype Tree = Node(name: string, children: seq<Child>) {
    /** `addChild`: appends one child. */
    function AddChild(c: Child): Tree
    {
      Node(name, children + [c])
    }

    /** `addChild` applied to each of `cs` in turn. */
    function AddChildren(cs: seq<Child>): Tree {
      Node(name, children + cs)
    }
  }

  /** `addChild` keeps the node's name and its children, and adds the new child
      last; adding several keeps them in the order given. */
  lemma AddChildAppends(t: Tree, c: Child, cs: seq<Child>)
    ensures t.AddChild(c).name == t.name && |t.AddChild(c).children| == |t.children| + 1
    ensures t.AddChild(c).children[..|t.children|] == t.children
    ensures t.AddChild(c).children[|t.children|] == c
    ensures t.AddChildren(cs).name == t.name
    ensures forall i :: 0 <= i < |cs| ==> t.AddChildren(cs).children[|t.children| + i] == cs[i]
  {
  }

  /** A child is a token (leaf) or a subtree. */
  datatype Child = Leaf(token: Token) | Sub(tree: Tree)

  /** True when `c` is a subtree named `name`. */
  predicate IsNode(c: Child, name: string) {
    c.Sub? && c.tree.name == name
  }

  /** Python's `part in whole` on two strings: `part` is a contiguous piece of `whole`. */
  function IsSubstring(part: string, whole: string): (r: bool)
    ensures r ==> |part| <= |whole|
    ensures |part| == 0 ==> r
    decreases |whole|
  {
    part <= whole || (|whole| > 0 && IsSubstring(part, whole[1..]))
  }

  /** `part` occurs in `whole` starting at index `i`. */
  ghost predicate OccursAt(part: string, whole: string, i: int) {
    0 <= i && i + |part| <= |whole| && whole[i..i + |part|] == part
  }

  /** The recursive test agrees with the definition by position: `part in whole` holds
      exactly when `part` occurs in `whole` at some index. */
  lemma IsSubstringIff(part: string, whole: string)
    ensures IsSubstring(part, whole) <==> exists i :: OccursAt(part, whole, i)
  {
    if IsSubstring(part, whole) {
      var i := SubstringWitness(part, whole);
    }
    if i :| OccursAt(part, whole, i) {
      OccursMeansSubstring(part, whole, i);
    }
  }

  /** An index at which a contained string occurs. */
  lemma {:induction false} SubstringWitness(part: string, whole: string) returns (i: nat)
    requires IsSubstring(part, whole)
    ensures OccursAt(part, whole, i)
    decreases |whole|
  {
    if part <= whole {
      i := 0;
    } else {
      var j := SubstringWitness(part, whole[1..]);
      assert whole[1..][j..j + |part|] == whole[j + 1..j + 1 + |part|];
      i := j + 1;
    }
  }

  /** A string that occurs at some index is contained. */
  lemma {:induction false} OccursMeansSubstring(part: string, whole: string, i: int)
    requires OccursAt(part, whole, i)
    ensures IsSubstring(part, whole)
    decreases i
  {
    if i == 0 {
      assert part <= whole;
    } else {
      assert whole[1..][i - 1..i - 1 + |part|] == whole[i..i + |part|];
      OccursMeansSubstring(part, whole[1..], i - 1);
    }
  }

  /** The second argument of `have`/`mustBe`: one string, or a list of strings. */
  datatype Expected = Literal(text: string) | AnyOf(options: seq<string>)

  /** Python's `value in expectedValue`: a substring test against a string, a
      membership test against a list. */
  function ValueIn(value: string, expected: Expected): (r: bool)
  {
    match expected
    case Literal(s) => IsSubstring(value, s)
    case AnyOf(options) => value in options
  }

  /** `value in expected` means what Python's `in` means: occurrence at some index
      of a string, or equality with some entry of a list. */
  lemma ValueInMeans(value: string, expected: Expected)
    ensures expected.Literal? ==> (ValueIn(value, expected) <==> exists i :: OccursAt(value, expected.text, i))
    ensures expected.AnyOf? ==>
      (ValueIn(value, expected) <==> exists i :: 0 <= i < |expected.options| && expected.options[i] == value)
  {
    if expected.Literal? {
      IsSubstringIff(value, expected.text);
    }
  }

  /** The test `have` applies to the current token, exactly as written: equal kind
      names and equal value, or else kind name contained in the expected kind name and
      value contained in `expected`. A string never equals a list, so the first test
      can only succeed against a Literal. */
  predicate HaveTest(tok: Token, kind: string, expected: Expected) {
    (KindName(tok.kind) == kind && expected.Literal? && tok.value == expected.text)
    || (IsSubstring(KindName(tok.kind), kind) && ValueIn(tok.value, expected))
  }

  /** The same test stated on kinds: no kind name is contained in another, so only the
      value part is a containment test (see HaveTestMeansMatches). */
  predicate Matches(tok: Token, kind: Kind, expected: Expected) {
    tok.kind == kind && ValueIn(tok.value, expected)
  }

  /** No kind name occurs inside another: the containment test `have` applies to kind
      names holds exactly for equal kinds. */
  lemma KindNamesNotNested(a: Kind, b: Kind)
    ensures IsSubstring(KindName(a), KindName(b)) <==> a == b
  {
    if a == b {
      SubstringOfItself(KindName(a));
    } else {
      DistinctKindNamesApart(a, b);
    }
  }

  /** Every string contains itself. */
  lemma SubstringOfItself(s: string)
    ensures IsSubstring(s, s)
  {
    assert s <= s;
  }

  /** A letter of each kind's name. */
  function Mark(k: Kind): (c: char)
    ensures c in KindName(k)
  {
    match k
    case Keyword => 'k'
    case Symbol => 'm'
    case Identifier => 'f'
    case IntConstant => 'C'
    case StringConstant => 'g'
  }

  /** No other kind name has that letter, except that `stringConstant` shares the
      letters of `intConstant`. */
  lemma MarkOnlyIn(a: Kind, b: Kind)
    requires a != b && !(a == IntConstant && b == StringConstant)
    ensures Mark(a) !in KindName(b)
  {
    match a
    case Keyword => assert 'k' !in KindName(b);
    case Symbol => assert 'm' !in KindName(b);
    case Identifier => assert 'f' !in KindName(b);
    case IntConstant => assert 'C' !in KindName(b);
    case StringConstant => assert 'g' !in KindName(b);
  }

  lemma DistinctKindNamesApart(a: Kind, b: Kind)
    requires a != b
    ensures !IsSubstring(KindName(a), KindName(b))
  {
    if a == IntConstant && b == StringConstant {
      IntConstantNotInStringConstant();
    } else if IsSubstring(KindName(a), KindName(b)) {
      MarkOnlyIn(a, b);
      SubstringKeepsChars(KindName(a), KindName(b), Mark(a));
    }
  }

  /** Every character of a contained string occurs in the containing one. */
  lemma {:induction false} SubstringKeepsChars(part: string, whole: string, c: char)
    requires IsSubstring(part, whole) && c in part
    ensures c in whole
  {
    if part <= whole {
      assert part == whole[..|part|];
    } else {
      SubstringKeepsChars(part, whole[1..], c);
      assert whole == [whole[0]] + whole[1..];
    }
  }

  /** The one pair of kind names whose letters do not tell them apart. */
  lemma IntConstantNotInStringConstant()
    ensures !IsSubstring("intConstant", "stringConstant")
  {
    var p, w := "intConstant", "stringConstant";
    var w1 := w[1..];
    var w2 := w1[1..];
    var w3 := w2[1..];
    var w4 := w3[1..];
    assert |w4| < |p|;
    assert w3[2] == 'g' != p[2];
    assert w2[0] == 'r' != p[0];
    assert w1[0] == 't' != p[0];
    assert w[0] == 's' != p[0];
  }

  /** The test as written and the test on kinds agree. */
  lemma HaveTestMeansMatches(tok: Token, kind: Kind, expected: Expected)
    ensures HaveTest(tok, KindName(kind), expected) <==> Matches(tok, kind, expected)
  {
    KindNamesNotNested(tok.kind, kind);
  }
}
