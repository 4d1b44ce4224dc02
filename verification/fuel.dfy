/** The evaluator's fuel is only a bound on the number of evaluation steps: an evaluation
    that finishes without running out of fuel ends the same way with any larger bound. So a
    result other than `OutOfFuel` is what the source computes, whatever the fuel was. */
module FuelLaws {
  import opened Errors
  import opened Parser
  import opened Values
  import Environment
  import Builtins
  import opened Evaluator

  lemma {:induction false} EvalMono(d: Dialect, e: Expr, env: nat, st: State, fuel: nat, fuel': nat)
    requires WF(st) && env in st.frames && fuel <= fuel'
    ensures Eval(d, e, env, st, fuel).result != Err(OutOfFuel) ==>
      Eval(d, e, env, st, fuel') == Eval(d, e, env, st, fuel)
    decreases fuel, 0, 0
  {
    if fuel == 0 {
      assert Eval(d, e, env, st, fuel).result == Err(OutOfFuel);
    } else if e.Form? {
      FormMonoAt(d, e, env, st, fuel, fuel');
    } else {
      AtomFuel(d, e, env, st, fuel, fuel');
    }
  }

  /** `EvalMono` for a form, with both fuels written as one more than what is left. */
  lemma {:induction false} FormMonoAt(d: Dialect, e: Expr, env: nat, st: State, fuel: nat, fuel': nat)
    requires WF(st) && env in st.frames && e.Form? && 0 < fuel <= fuel'
    ensures Eval(d, e, env, st, fuel).result != Err(OutOfFuel) ==>
      Eval(d, e, env, st, fuel') == Eval(d, e, env, st, fuel)
    decreases fuel - 1, 5, 0
  {
    var items, f, f' := e.items, fuel - 1, fuel' - 1;
    assert e == Form(items) && fuel == f + 1 && fuel' == f' + 1;
    FormMono(d, items, env, st, f, f');
  }

  /** A form takes one step and then evaluates with what is left. */
  lemma {:induction false} FormMono(d: Dialect, items: seq<Expr>, env: nat, st: State, fuel: nat, fuel': nat)
    requires WF(st) && env in st.frames && fuel <= fuel'
    ensures Eval(d, Form(items), env, st, fuel + 1).result != Err(OutOfFuel) ==>
      Eval(d, Form(items), env, st, fuel' + 1) == Eval(d, Form(items), env, st, fuel + 1)
    decreases fuel, 4, 0
  {
    EvalFormMono(d, items, env, st, fuel, fuel');
  }

  /** An atom takes one step, whatever the fuel beyond that. */
  lemma AtomFuel(d: Dialect, e: Expr, env: nat, st: State, fuel: nat, fuel': nat)
    requires WF(st) && env in st.frames && !e.Form? && 0 < fuel <= fuel'
    ensures Eval(d, e, env, st, fuel') == Eval(d, e, env, st, fuel)
  {
  }

  lemma {:induction false} EvalFormMono(d: Dialect, items: seq<Expr>, env: nat, st: State, fuel: nat, fuel': nat)
    requires WF(st) && env in st.frames && fuel <= fuel'
    ensures EvalForm(d, items, env, st, fuel).result != Err(OutOfFuel) ==>
      EvalForm(d, items, env, st, fuel') == EvalForm(d, items, env, st, fuel)
    decreases fuel, 3, 0
  {
    if |items| > 0 {
      var head := items[0];
      if head.Int? || head.Float? {
      } else if head == Sym("define") {
        EvalDefineMono(d, items, env, st, fuel, fuel');
      } else if d == Early && head == Sym("lambda") {
      } else if head.Form? {
        NestedMono(d, items, env, st, fuel, fuel');
      } else if d == Full && head == Sym("lambda") {
      } else if d == Full && head == Sym("if") {
        EvalIfMono(d, items, env, st, fuel, fuel');
      } else if d == Full && head == Sym("and") {
        AndMono(d, items[1..], env, st, fuel, fuel');
      } else if d == Full && head == Sym("or") {
        OrMono(d, items[1..], env, st, fuel, fuel');
      } else {
        NamedCallMono(d, items, env, st, fuel, fuel');
      }
    }
  }

  /** A form whose head is itself a form: the head, then the call. */
  lemma {:induction false} NestedMono(d: Dialect, items: seq<Expr>, env: nat, st: State, fuel: nat, fuel': nat)
    requires WF(st) && env in st.frames && |items| > 0 && fuel <= fuel'
    ensures EvalNested(d, items, env, st, fuel).result != Err(OutOfFuel) ==>
      EvalNested(d, items, env, st, fuel') == EvalNested(d, items, env, st, fuel)
    decreases fuel, 2, 2
  {
    EvalMono(d, items[0], env, st, fuel, fuel');
    var o := Eval(d, items[0], env, st, fuel);
    if o.result.Ok? {
      Environment.BindNameWF(o.st, env, "temp_func", o.result.value);
      var st1 := Environment.BindName(o.st, env, "temp_func", o.result.value);
      EvalCallMono(d, o.result.value, items[1..], env, st1, fuel, fuel');
    }
  }

  /** A form whose head names the function to call. */
  lemma {:induction false} NamedCallMono(d: Dialect, items: seq<Expr>, env: nat, st: State, fuel: nat, fuel': nat)
    requires WF(st) && env in st.frames && |items| > 0 && items[0].Sym? && fuel <= fuel'
    ensures EvalNamed(d, items, env, st, fuel).result != Err(OutOfFuel) ==>
      EvalNamed(d, items, env, st, fuel') == EvalNamed(d, items, env, st, fuel)
    decreases fuel, 2, 2
  {
    var f := Environment.Lookup(d, st.frames, env, items[0].name);
    Environment.LookupValid(d, st, env, items[0].name);
    if f.Ok? {
      EvalCallMono(d, f.value, items[1..], env, st, fuel, fuel');
    }
  }

  lemma {:induction false} EvalDefineMono(d: Dialect, items: seq<Expr>, env: nat, st: State, fuel: nat, fuel': nat)
    requires WF(st) && env in st.frames && |items| > 0 && fuel <= fuel'
    ensures EvalDefine(d, items, env, st, fuel).result != Err(OutOfFuel) ==>
      EvalDefine(d, items, env, st, fuel') == EvalDefine(d, items, env, st, fuel)
    decreases fuel, 2, 0
  {
    if |items| >= 3 {
      if items[1].Form? {
        if |items[1].items| > 0 {
          EvalMono(d, Form(DefineRewrite(items)), env, st, fuel, fuel');
        }
      } else {
        EvalMono(d, items[2], env, st, fuel, fuel');
      }
    }
  }

  lemma {:induction false} EvalIfMono(d: Dialect, items: seq<Expr>, env: nat, st: State, fuel: nat, fuel': nat)
    requires WF(st) && env in st.frames && fuel <= fuel'
    ensures EvalIf(d, items, env, st, fuel).result != Err(OutOfFuel) ==>
      EvalIf(d, items, env, st, fuel') == EvalIf(d, items, env, st, fuel)
    decreases fuel, 2, 0
  {
    if |items| >= 2 {
      EvalMono(d, items[1], env, st, fuel, fuel');
      var o := Eval(d, items[1], env, st, fuel);
      if o.result.Ok? {
        WFLinked(o.st);
        var t := Builtins.Truth(o.st.heap, o.result.value);
        if t.Ok? {
          var i := if t.value then 2 else 3;
          if i < |items| {
            EvalMono(d, items[i], env, o.st, fuel, fuel');
          }
        }
      }
    }
  }

  lemma {:induction false} AndMono(d: Dialect, es: seq<Expr>, env: nat, st: State, fuel: nat, fuel': nat)
    requires WF(st) && env in st.frames && fuel <= fuel'
    ensures AndLoop(d, es, env, st, fuel).result != Err(OutOfFuel) ==>
      AndLoop(d, es, env, st, fuel') == AndLoop(d, es, env, st, fuel)
    decreases fuel, 1, |es|
  {
    if |es| > 0 {
      EvalMono(d, es[0], env, st, fuel, fuel');
      var o := Eval(d, es[0], env, st, fuel);
      if o.result.Ok? {
        WFLinked(o.st);
        var t := Builtins.Truth(o.st.heap, o.result.value);
        if t.Ok? && t.value {
          AndMono(d, es[1..], env, o.st, fuel, fuel');
        }
      }
    }
  }

  lemma {:induction false} OrMono(d: Dialect, es: seq<Expr>, env: nat, st: State, fuel: nat, fuel': nat)
    requires WF(st) && env in st.frames && fuel <= fuel'
    ensures OrLoop(d, es, env, st, fuel).result != Err(OutOfFuel) ==>
      OrLoop(d, es, env, st, fuel') == OrLoop(d, es, env, st, fuel)
    decreases fuel, 1, |es|
  {
    if |es| > 0 {
      EvalMono(d, es[0], env, st, fuel, fuel');
      var o := Eval(d, es[0], env, st, fuel);
      if o.result.Ok? {
        WFLinked(o.st);
        var t := Builtins.Truth(o.st.heap, o.result.value);
        if t.Ok? && !t.value {
          OrMono(d, es[1..], env, o.st, fuel, fuel');
        }
      }
    }
  }

  lemma {:induction false} EvalCallMono(d: Dialect, f: Value, operands: seq<Expr>, env: nat, st: State, fuel: nat, fuel': nat)
    requires WF(st) && env in st.frames && ValidIn(f, st) && fuel <= fuel'
    ensures EvalCall(d, f, operands, env, st, fuel).result != Err(OutOfFuel) ==>
      EvalCall(d, f, operands, env, st, fuel') == EvalCall(d, f, operands, env, st, fuel)
    decreases fuel, 2, 0
  {
    OperandsMono(d, operands, env, st, fuel, fuel');
    AppliedMono(d, f, operands, env, st, fuel, fuel');
  }

  /** The function applied to the operands' values, with the two fuels. */
  lemma AppliedMono(d: Dialect, f: Value, operands: seq<Expr>, env: nat, st: State, fuel: nat, fuel': nat)
    requires WF(st) && env in st.frames && ValidIn(f, st) && fuel <= fuel'
    ensures var oa := EvalOperands(d, operands, env, st, fuel);
      oa.result.Ok? ==>
        && ValidIn(f, oa.st)
        && (Apply(d, f, oa.result.value, oa.st, fuel).result != Err(OutOfFuel) ==>
              Apply(d, f, oa.result.value, oa.st, fuel') == Apply(d, f, oa.result.value, oa.st, fuel))
    decreases fuel, 1, 1
  {
    var oa := EvalOperands(d, operands, env, st, fuel);
    if oa.result.Ok? {
      ValidGrows(f, st, oa.st);
      ApplyMono(d, f, oa.result.value, oa.st, fuel, fuel');
    }
  }

  lemma {:induction false} OperandsMono(d: Dialect, es: seq<Expr>, env: nat, st: State, fuel: nat, fuel': nat)
    requires WF(st) && env in st.frames && fuel <= fuel'
    ensures EvalOperands(d, es, env, st, fuel).result != Err(OutOfFuel) ==>
      EvalOperands(d, es, env, st, fuel') == EvalOperands(d, es, env, st, fuel)
    decreases fuel, 1, |es|
  {
    if |es| > 0 {
      EvalMono(d, es[0], env, st, fuel, fuel');
      var o := Eval(d, es[0], env, st, fuel);
      if o.result.Ok? {
        OperandsMono(d, es[1..], env, o.st, fuel, fuel');
      }
    }
  }

  lemma {:induction false} ApplyMono(d: Dialect, f: Value, args: seq<Value>, st: State, fuel: nat, fuel': nat)
    requires WF(st) && ValidIn(f, st) && forall k :: 0 <= k < |args| ==> ValidIn(args[k], st)
    requires fuel <= fuel'
    ensures Apply(d, f, args, st, fuel).result != Err(OutOfFuel) ==>
      Apply(d, f, args, st, fuel') == Apply(d, f, args, st, fuel)
    decreases fuel, 1, 0
  {
    if f.Closure? {
      var n := ParamCount(f.params);
      if n.Ok? && n.value == |args| {
        var (st1, frame) := Environment.NewFrame(st, f.env);
        forall k | 0 <= k < |args| ensures ValidIn(args[k], st1) { ValidGrows(args[k], st, st1); }
        var st2 := BindParams(st1, frame, ParamNames(f.params), args);
        if st2.Ok? {
          EvalMono(d, f.body, frame, st2.value, fuel, fuel');
        }
      }
    }
  }

  /** A program whose evaluation does not run out of fuel gives the same result and store
      with any larger fuel. */
  lemma RunMono(d: Dialect, program: string, fuel: nat, fuel': nat)
    requires fuel <= fuel'
    ensures Run(d, program, fuel).result != Err(OutOfFuel) ==> Run(d, program, fuel') == Run(d, program, fuel)
  {
    var tokens := Lexer.Tokenize(program);
    if Parse(tokens).Ok? {
      EvalMono(d, Parse(tokens).value, 0, Initial(), fuel, fuel');
    }
  }
}
