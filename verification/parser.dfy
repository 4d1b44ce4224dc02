/** The parser (`is_valid_parse`, `parsing`, `parse`; identical in b_lab/lab.py and
    a_lab/lab.py).

    `parse` rejects token sequences whose parentheses do not balance, then hands the
    tokens to the recursive-descent `parsing`, which pops tokens from the front of one
    shared list. Here the shared list becomes an explicit remainder: `Parsing` returns the
    expression together with the tokens it did not consume. */
module Parser {
  import opened Errors
  import opened Seqs
  import opened Literals
  import Lexer

  /** A parsed expression: Python ints, floats, strings and (nested) lists. */
  datatype Expr =
    | Int(i: int)
    | Float(lexeme: string)   // kept as its text: floating point is not modelled
    | Sym(name: string)
    | Form(items: seq<Expr>)

  // ---------------------------------------------------------------------------
  // Balance check

  function Delta(t: string): int {
    if t == "(" then 1 else if t == ")" then -1 else 0
  }

  /** Open parentheses minus close parentheses. */
  function Depth(tokens: seq<string>): int {
    if |tokens| == 0 then 0 else Depth(tokens[..|tokens| - 1]) + Delta(tokens[|tokens| - 1])
  }

  /** The running count never drops below zero and ends at zero. */
  predicate Balanced(tokens: seq<string>) {
    && (forall k :: 0 <= k <= |tokens| ==> Depth(tokens[..k]) >= 0)
    && Depth(tokens) == 0
  }

  /** The loop of `is_valid_parse` from position `i` on, with `open` counted so far. */
  function Scan(tokens: seq<string>, i: nat, open: int): (ok: bool)
    requires i <= |tokens| && open == Depth(tokens[..i])
    ensures ok <==> (forall k :: i < k <= |tokens| ==> Depth(tokens[..k]) >= 0) && Depth(tokens) == 0
    decreases |tokens| - i
  {
    assert tokens[..|tokens|] == tokens;
    if i == |tokens| then open == 0
    else
      assert tokens[..i + 1][..i] == tokens[..i];
      var o := open + Delta(tokens[i]);
      if o < 0 then false else Scan(tokens, i + 1, o)
  }

  function IsValidParse(tokens: seq<string>): (ok: bool)
    ensures ok <==> Balanced(tokens)
  {
    assert tokens[..0] == [];
    Scan(tokens, 0, 0)
  }

  // ---------------------------------------------------------------------------
  // Recursive descent

  /** A leaf: a float if the token has a '.' and `float` accepts it, an int if it has none
      and `int` accepts it, and otherwise the token itself as a symbol. */
  function Classify(token: string): (e: Expr)
    ensures !e.Form?
    ensures e.Sym? ==> e.name == token
    ensures e.Float? ==> e.lexeme == token && '.' in token
    ensures e.Int? ==> '.' !in token && IsIntLiteral(token) && e.i == IntLiteralValue(token)
    ensures e.Sym? <==> !(if '.' in token then IsFloatLiteral(token) else IsIntLiteral(token))
  {
    if '.' in token then
      (if IsFloatLiteral(token) then Float(token) else Sym(token))
    else if IsIntLiteral(token) then Int(IntLiteralValue(token))
    else Sym(token)
  }

  /** What `str(i)` writes for an int reads back as that int. */
  lemma ClassifyShowInt(i: int)
    ensures Classify(ShowInt(i)) == Int(i)
  {
    ShowIntRoundTrip(i);
  }

  /** Neither `int` nor `float` accepts a token that starts with something other than a
      sign, a '.' or a digit, so such a token is a symbol. */
  lemma ClassifyNameStart(token: string)
    requires |token| == 0 || !(IsSign(token[0]) || token[0] == '.' || IsDigit(token[0]))
    ensures Classify(token) == Sym(token)
  {
    if '.' in token {
      var e := FindExponent(token);
      if e > 0 {
        var m := token[..e];
        var i := FindChar(m, '.');
        if i < |m| {
          assert i > 0 && m[..i][0] == token[0];
        }
      }
    }
  }

  /** Digits, a '.', then digits: a float. */
  lemma ClassifyDecimal(whole: string, frac: string)
    requires |whole| > 0 && |frac| > 0
    requires forall k :: 0 <= k < |whole| ==> IsDigit(whole[k])
    requires forall k :: 0 <= k < |frac| ==> IsDigit(frac[k])
    ensures Classify(whole + "." + frac) == Float(whole + "." + frac)
  {
    DecimalIsFloat(whole, frac);
  }

  /** `rest` is what is left of `tokens` after dropping a non-empty prefix. */
  predicate ProperSuffix(rest: seq<string>, tokens: seq<string>) {
    |rest| < |tokens| && rest == tokens[|tokens| - |rest|..]
  }

  /** `parsing`: pop the first token; if nothing is left it is a leaf, otherwise collect
      items up to the next ')'. The first token is dropped whatever it is. */
  function Parsing(tokens: seq<string>): (r: Result<(Expr, seq<string>)>)
    ensures r.Ok? ==> ProperSuffix(r.value.1, tokens)
    ensures r.Err? ==> r.error == HostError(IndexError)
    decreases |tokens|, 0
  {
    if |tokens| == 0 then Err(HostError(IndexError))
    else if |tokens| == 1 then Ok((Classify(tokens[0]), []))
    else ParseItems(tokens[1..], [])
  }

  /** The `while tokens[0] != ')'` loop of `parsing`, with the items collected so far. */
  function ParseItems(tokens: seq<string>, acc: seq<Expr>): (r: Result<(Expr, seq<string>)>)
    ensures r.Ok? ==> ProperSuffix(r.value.1, tokens)
    ensures r.Err? ==> r.error == HostError(IndexError)
    decreases |tokens|, 1
  {
    if |tokens| == 0 then Err(HostError(IndexError))
    else if tokens[0] == ")" then Ok((Form(acc), tokens[1..]))
    else if tokens[0] == "(" then
      match Parsing(tokens)
      case Err(e) => Err(e)
      case Ok((sub, rest)) => ParseItems(rest, acc + [sub])
    else ParseItems(tokens[1..], acc + [Classify(tokens[0])])
  }

  /** `parse`: SyntaxError unless the parentheses balance; tokens left over after the first
      complete expression are ignored. */
  function Parse(tokens: seq<string>): (r: Result<Expr>)
    ensures r == Err(SyntaxError) <==> !Balanced(tokens)
    ensures r.Err? && Balanced(tokens) ==> r.error == HostError(IndexError)
    ensures |tokens| == 1 && Balanced(tokens) ==> r == Ok(Classify(tokens[0]))
  {
    if !IsValidParse(tokens) then Err(SyntaxError)
    else
      var p :- Parsing(tokens);
      Ok(p.0)
  }

  // ---------------------------------------------------------------------------
  // A form of atoms

  predicate IsAtomToken(t: string) {
    t != "(" && t != ")"
  }

  function ClassifyAll(tokens: seq<string>): (r: seq<Expr>)
    ensures |r| == |tokens|
    ensures forall i :: 0 <= i < |r| ==> r[i] == Classify(tokens[i])
  {
    if |tokens| == 0 then [] else [Classify(tokens[0])] + ClassifyAll(tokens[1..])
  }

  lemma {:induction false} ParseItemsAtoms(atoms: seq<string>, acc: seq<Expr>, rest: seq<string>)
    requires forall i :: 0 <= i < |atoms| ==> IsAtomToken(atoms[i])
    ensures ParseItems(atoms + [")"] + rest, acc) == Ok((Form(acc + ClassifyAll(atoms)), rest))
  {
    var tokens := atoms + [")"] + rest;
    if |atoms| == 0 {
      assert tokens == [")"] + rest;
      assert tokens[1..] == rest;
      assert acc + ClassifyAll(atoms) == acc;
    } else {
      assert tokens[1..] == atoms[1..] + [")"] + rest;
      ParseItemsAtoms(atoms[1..], acc + [Classify(atoms[0])], rest);
      assert acc + [Classify(atoms[0])] + ClassifyAll(atoms[1..]) == acc + ClassifyAll(atoms);
    }
  }

  /** `( a1 ... an )` over atoms parses to the classified atoms and consumes exactly the
      tokens up to and including the matching ')'. */
  lemma ParseAtomForm(atoms: seq<string>, rest: seq<string>)
    requires forall i :: 0 <= i < |atoms| ==> IsAtomToken(atoms[i])
    ensures Parsing(["("] + atoms + [")"] + rest) == Ok((Form(ClassifyAll(atoms)), rest))
  {
    var tokens := ["("] + atoms + [")"] + rest;
    assert tokens[1..] == atoms + [")"] + rest;
    ParseItemsAtoms(atoms, [], rest);
    assert [] + ClassifyAll(atoms) == ClassifyAll(atoms);
  }

  // ---------------------------------------------------------------------------
  // Writing an expression back as tokens, and reading it again

  /** The token of an atom: the source's own printing of numbers and symbols. */
  function AtomToken(e: Expr): string
    requires !e.Form?
  {
    match e
    case Int(i) => ShowInt(i)
    case Float(x) => x
    case Sym(s) => s
  }

  function Serialize(e: Expr): seq<string>
    decreases e
  {
    match e
    case Form(items) => ["("] + SerializeAll(items) + [")"]
    case _ => [AtomToken(e)]
  }

  function SerializeAll(items: seq<Expr>): seq<string>
    decreases items
  {
    if |items| == 0 then [] else Serialize(items[0]) + SerializeAll(items[1..])
  }

  /** Expressions the parser can produce: every atom's token is a clean token that the parser
      classifies back to that atom. */
  predicate WellFormed(e: Expr)
    decreases e
  {
    match e
    case Int(_) => true
    case Float(x) => Lexer.CleanToken(x) && Classify(x) == e
    case Sym(s) => Lexer.CleanToken(s) && IsAtomToken(s) && Classify(s) == e
    case Form(items) => forall i :: 0 <= i < |items| ==> WellFormed(items[i])
  }

  lemma AtomTokenClassify(e: Expr)
    requires !e.Form? && WellFormed(e)
    ensures Classify(AtomToken(e)) == e
    ensures IsAtomToken(AtomToken(e))
    ensures Lexer.CleanToken(AtomToken(e))
  {
    if e.Int? {
      ShowIntRoundTrip(e.i);
      var s := ShowInt(e.i);
      assert forall k :: 0 <= k < |s| ==> s[k] != '(' && s[k] != ')' && s[k] != ';' && !Lexer.IsSpace(s[k]);
    } else if e.Float? {
      assert e.lexeme != "(" && e.lexeme != ")" by {
        assert '.' in e.lexeme;
      }
    }
  }

  lemma {:induction false} ParsingSerialized(e: Expr, rest: seq<string>)
    requires WellFormed(e) && e.Form?
    ensures Parsing(Serialize(e) + rest) == Ok((e, rest))
    decreases e, 1
  {
    var tokens := Serialize(e) + rest;
    assert tokens[1..] == SerializeAll(e.items) + [")"] + rest;
    ParseItemsSerialized(e.items, [], rest);
    assert [] + e.items == e.items;
  }

  lemma {:induction false} ParseItemsSerialized(items: seq<Expr>, acc: seq<Expr>, rest: seq<string>)
    requires forall i :: 0 <= i < |items| ==> WellFormed(items[i])
    ensures ParseItems(SerializeAll(items) + [")"] + rest, acc) == Ok((Form(acc + items), rest))
    decreases items, 0
  {
    var tokens := SerializeAll(items) + [")"] + rest;
    if |items| == 0 {
      assert tokens == [")"] + rest;
      assert tokens[1..] == rest;
      assert acc + items == acc;
    } else {
      var x := items[0];
      var tail := SerializeAll(items[1..]) + [")"] + rest;
      assert tokens == Serialize(x) + tail;
      ParseItemsSerialized(items[1..], acc + [x], rest);
      assert acc + [x] + items[1..] == acc + items;
      if x.Form? {
        ParsingSerialized(x, tail);
      } else {
        AtomTokenClassify(x);
        assert tokens[1..] == tail;
      }
    }
  }

  lemma {:induction false} DepthAppend(a: seq<string>, b: seq<string>)
    ensures Depth(a + b) == Depth(a) + Depth(b)
    decreases |b|
  {
    if |b| == 0 {
      assert a + b == a;
    } else {
      assert (a + b)[..|a + b| - 1] == a + b[..|b| - 1];
      DepthAppend(a, b[..|b| - 1]);
    }
  }

  lemma BalancedAppend(a: seq<string>, b: seq<string>)
    requires Balanced(a) && Balanced(b)
    ensures Balanced(a + b)
  {
    DepthAppend(a, b);
    forall k | 0 <= k <= |a + b|
      ensures Depth((a + b)[..k]) >= 0
    {
      if k <= |a| {
        assert (a + b)[..k] == a[..k];
      } else {
        assert (a + b)[..k] == a + b[..k - |a|];
        DepthAppend(a, b[..k - |a|]);
      }
    }
  }

  lemma BalancedWrap(a: seq<string>)
    requires Balanced(a)
    ensures Balanced(["("] + a + [")"])
  {
    var w := ["("] + a + [")"];
    DepthAppend(["("] + a, [")"]);
    DepthAppend(["("], a);
    assert Depth(["("]) == 1 by { assert ["("][..0] == []; }
    assert Depth([")"]) == -1 by { assert [")"][..0] == []; }
    forall k | 0 <= k <= |w|
      ensures Depth(w[..k]) >= 0
    {
      if k == 0 {
        assert w[..k] == [];
      } else if k <= |a| + 1 {
        assert w[..k] == ["("] + a[..k - 1];
        DepthAppend(["("], a[..k - 1]);
      } else {
        assert w[..k] == w;
      }
    }
  }

  lemma {:induction false} SerializeBalanced(e: Expr)
    requires WellFormed(e)
    ensures Balanced(Serialize(e))
    decreases e, 1
  {
    match e
    case Form(items) =>
      SerializeAllBalanced(items);
      BalancedWrap(SerializeAll(items));
    case _ =>
      var t := AtomToken(e);
      AtomTokenClassify(e);
      assert [t][..0] == [] && [t][..1] == [t];
  }

  lemma {:induction false} SerializeAllBalanced(items: seq<Expr>)
    requires forall i :: 0 <= i < |items| ==> WellFormed(items[i])
    ensures Balanced(SerializeAll(items))
    decreases items, 0
  {
    if |items| == 0 {
      assert SerializeAll(items) == [];
      assert SerializeAll(items)[..0] == [];
    } else {
      SerializeBalanced(items[0]);
      SerializeAllBalanced(items[1..]);
      BalancedAppend(Serialize(items[0]), SerializeAll(items[1..]));
    }
  }

  /** Parsing the tokens of a well-formed expression gives the expression back. */
  lemma ParseSerialized(e: Expr)
    requires WellFormed(e)
    ensures Parse(Serialize(e)) == Ok(e)
  {
    SerializeBalanced(e);
    if e.Form? {
      ParsingSerialized(e, []);
      assert Serialize(e) + [] == Serialize(e);
    } else {
      AtomTokenClassify(e);
    }
  }

  lemma {:induction false} SerializeClean(e: Expr)
    requires WellFormed(e)
    ensures forall i :: 0 <= i < |Serialize(e)| ==> Lexer.CleanToken(Serialize(e)[i])
    decreases e, 1
  {
    match e
    case Form(items) =>
      SerializeAllClean(items);
    case _ =>
      AtomTokenClassify(e);
  }

  lemma {:induction false} SerializeAllClean(items: seq<Expr>)
    requires forall i :: 0 <= i < |items| ==> WellFormed(items[i])
    ensures forall i :: 0 <= i < |SerializeAll(items)| ==> Lexer.CleanToken(SerializeAll(items)[i])
    decreases items, 0
  {
    if |items| > 0 {
      SerializeClean(items[0]);
      SerializeAllClean(items[1..]);
    }
  }

  /** Program text for an expression: its tokens separated by single spaces. */
  function Print(e: Expr): string {
    Lexer.Join(Serialize(e), ' ')
  }

  /** `parse(tokenize(program))` reads back any well-formed expression from its printed
      text: tokenizing and parsing invert printing. */
  lemma PrintParseRoundTrip(e: Expr)
    requires WellFormed(e)
    ensures Parse(Lexer.Tokenize(Print(e))) == Ok(e)
  {
    SerializeClean(e);
    Lexer.TokenizeJoined(Serialize(e));
    ParseSerialized(e);
  }
}
