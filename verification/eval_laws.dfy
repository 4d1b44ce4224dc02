/** Laws of `result_and_env` (b_lab/lab.py:304-375, a_lab/lab.py:172-223): what each
    special form evaluates, in which order, and which bindings it leaves behind. */
module EvalLaws {
  import opened Errors
  import opened Parser
  import opened Values
  import opened Seqs
  import Environment
  import Builtins
  import opened Evaluator

  /** The test value `v` is defined in `st` and has truth value `b`. */
  predicate TestIs(st: State, v: Value, b: bool) {
    && Linked(st.heap) && (v.ListRef? ==> v.loc in st.heap)
    && Builtins.Truth(st.heap, v) == Ok(b)
  }

  // ---------------------------------------------------------------------------
  // Atoms and malformed forms

  /** A number evaluates to itself and a symbol to what the environment chain binds it to;
      neither touches the store. */
  lemma AtomsEvaluate(d: Dialect, e: Expr, env: nat, st: State, fuel: nat)
    requires WF(st) && env in st.frames && fuel > 0 && !e.Form?
    ensures Eval(d, e, env, st, fuel).st == st
    ensures e.Int? ==> Eval(d, e, env, st, fuel).result == Ok(IntV(e.i))
    ensures e.Float? ==> Eval(d, e, env, st, fuel).result == Ok(FloatV(e.lexeme))
    ensures e.Sym? ==> Eval(d, e, env, st, fuel).result == Environment.Lookup(d, st.frames, env, e.name)
  {
  }

  /** `()` and a form headed by a number are EvaluationErrors, raised before anything is
      evaluated. */
  lemma MalformedForms(d: Dialect, items: seq<Expr>, env: nat, st: State, fuel: nat)
    requires WF(st) && env in st.frames
    requires |items| == 0 || items[0].Int? || items[0].Float?
    ensures Eval(d, Form(items), env, st, fuel + 1) == Outcome(Err(EvaluationError), st)
  {
  }

  // ---------------------------------------------------------------------------
  // `define` and `lambda`

  /** `(define name e)` evaluates `e` in the current frame and binds `name` there to the
      result, which is also the value of the form; every other name keeps its meaning. */
  lemma DefineBinds(d: Dialect, name: string, e: Expr, env: nat, st: State, fuel: nat)
    requires WF(st) && env in st.frames
    ensures var o := Eval(d, Form([Sym("define"), Sym(name), e]), env, st, fuel + 1);
      var oe := Eval(d, e, env, st, fuel);
      && o.result == oe.result
      && (oe.result.Err? ==> o.st == oe.st)
      && (oe.result.Ok? ==>
            && Environment.FramesOk(o.st.frames) && env in o.st.frames
            && Environment.Lookup(d, o.st.frames, env, name) == oe.result
            && o.st.heap == oe.st.heap && o.st.next == oe.st.next
            && (forall k :: k in oe.st.frames && k != env ==> k in o.st.frames && o.st.frames[k] == oe.st.frames[k])
            && (forall other :: other != name ==>
                  Environment.Lookup(d, o.st.frames, env, other) == Environment.Lookup(d, oe.st.frames, env, other)))
  {
    var items := [Sym("define"), Sym(name), e];
    assert items[0] == Sym("define") && items[1] == Sym(name) && items[2] == e;
    assert Eval(d, Form(items), env, st, fuel + 1) == EvalForm(d, items, env, st, fuel);
    assert EvalForm(d, items, env, st, fuel) == EvalDefine(d, items, env, st, fuel);
    var oe := Eval(d, e, env, st, fuel);
    if oe.result.Ok? {
      var o := Eval(d, Form(items), env, st, fuel + 1);
      assert o.st == Environment.BindName(oe.st, env, name, oe.result.value);
      forall other | other != name
        ensures Environment.Lookup(d, o.st.frames, env, other) == Environment.Lookup(d, oe.st.frames, env, other)
      {
        Environment.BindLookup(d, oe.st, env, name, oe.result.value, other);
      }
      Environment.BindLookup(d, oe.st, env, name, oe.result.value, name + "'");
    }
  }

  /** `(define (f p...) body)` is `(define f (lambda (p...) body))`: the rewrite costs one
      extra evaluation step and nothing else. */
  lemma DefineShorthand(d: Dialect, f: string, ps: seq<Expr>, body: Expr, env: nat, st: State, fuel: nat)
    requires WF(st) && env in st.frames
    ensures Eval(d, Form([Sym("define"), Form([Sym(f)] + ps), body]), env, st, fuel + 2)
         == Eval(d, Form([Sym("define"), Sym(f), Form([Sym("lambda"), Form(ps), body])]), env, st, fuel + 1)
  {
    var items := [Sym("define"), Form([Sym(f)] + ps), body];
    var long := [Sym("define"), Sym(f), Form([Sym("lambda"), Form(ps), body])];
    assert items[0] == Sym("define") && items[1] == Form([Sym(f)] + ps);
    assert ([Sym(f)] + ps)[0] == Sym(f) && ([Sym(f)] + ps)[1..] == ps;
    assert DefineRewrite(items) == long;
    assert Eval(d, Form(items), env, st, fuel + 2) == EvalForm(d, items, env, st, fuel + 1);
    assert EvalForm(d, items, env, st, fuel + 1) == EvalDefine(d, items, env, st, fuel + 1);
  }

  /** `(lambda params body)` yields a fresh closure over the current frame; the body is not
      evaluated and no frame or cell changes. */
  lemma LambdaClosure(d: Dialect, params: Expr, body: Expr, env: nat, st: State, fuel: nat)
    requires WF(st) && env in st.frames
    ensures Eval(d, Form([Sym("lambda"), params, body]), env, st, fuel + 1)
         == Outcome(Ok(Closure(st.next, params, body, env)), st.(next := st.next + 1))
  {
  }

  // ---------------------------------------------------------------------------
  // `if`, `and`, `or` (b_lab only)

  /** `(if c a b)` evaluates the test and then exactly the branch it selects. */
  lemma IfSelects(c: Expr, a: Expr, b: Expr, env: nat, st: State, fuel: nat)
    requires WF(st) && env in st.frames
    ensures var o := Eval(Full, Form([Sym("if"), c, a, b]), env, st, fuel + 1);
      var oc := Eval(Full, c, env, st, fuel);
      && (oc.result.Err? ==> o == oc)
      && (oc.result.Ok? && TestIs(oc.st, oc.result.value, true) ==>
            WF(oc.st) && env in oc.st.frames && o == Eval(Full, a, env, oc.st, fuel))
      && (oc.result.Ok? && TestIs(oc.st, oc.result.value, false) ==>
            WF(oc.st) && env in oc.st.frames && o == Eval(Full, b, env, oc.st, fuel))
  {
    var items := [Sym("if"), c, a, b];
    assert items[0] == Sym("if") && items[1] == c && items[2] == a && items[3] == b;
    assert Eval(Full, Form(items), env, st, fuel + 1) == EvalForm(Full, items, env, st, fuel);
    assert EvalForm(Full, items, env, st, fuel) == EvalIf(Full, items, env, st, fuel);
  }

  /** `(if c a)` with a false test has no branch to take: IndexError, after the test. */
  lemma IfWithoutElse(c: Expr, a: Expr, env: nat, st: State, fuel: nat)
    requires WF(st) && env in st.frames
    ensures var oc := Eval(Full, c, env, st, fuel);
      oc.result.Ok? && TestIs(oc.st, oc.result.value, false) ==>
        Eval(Full, Form([Sym("if"), c, a]), env, st, fuel + 1) == Outcome(Err(HostError(IndexError)), oc.st)
  {
    var items := [Sym("if"), c, a];
    assert items[0] == Sym("if") && items[1] == c && |items| == 3;
    assert Eval(Full, Form(items), env, st, fuel + 1) == EvalForm(Full, items, env, st, fuel);
    assert EvalForm(Full, items, env, st, fuel) == EvalIf(Full, items, env, st, fuel);
  }

  /** `(and a... b...)` runs `(and a...)` and, only when that is True, continues with
      `(and b...)` from the store it left. */
  lemma {:induction false} AndAppend(d: Dialect, es1: seq<Expr>, es2: seq<Expr>, env: nat, st: State, fuel: nat)
    requires WF(st) && env in st.frames
    ensures var o1 := AndLoop(d, es1, env, st, fuel);
      && WF(o1.st) && env in o1.st.frames
      && AndLoop(d, es1 + es2, env, st, fuel)
         == if o1.result == Ok(BoolV(true)) then AndLoop(d, es2, env, o1.st, fuel) else o1
    decreases |es1|
  {
    if |es1| == 0 {
      assert es1 + es2 == es2;
    } else {
      AppendTail(es1, es2);
      var o := Eval(d, es1[0], env, st, fuel);
      if o.result.Ok? {
        WFLinked(o.st);
        var t := Builtins.Truth(o.st.heap, o.result.value);
        if t.Ok? && t.value {
          AndAppend(d, es1[1..], es2, env, o.st, fuel);
          assert AndLoop(d, es1, env, st, fuel) == AndLoop(d, es1[1..], env, o.st, fuel);
          assert AndLoop(d, es1 + es2, env, st, fuel) == AndLoop(d, es1[1..] + es2, env, o.st, fuel);
        }
      }
    }
  }

  /** `(or a... b...)` runs `(or a...)` and, only when that is False, continues with
      `(or b...)` from the store it left. */
  lemma {:induction false} OrAppend(d: Dialect, es1: seq<Expr>, es2: seq<Expr>, env: nat, st: State, fuel: nat)
    requires WF(st) && env in st.frames
    ensures var o1 := OrLoop(d, es1, env, st, fuel);
      && WF(o1.st) && env in o1.st.frames
      && OrLoop(d, es1 + es2, env, st, fuel)
         == if o1.result == Ok(BoolV(false)) then OrLoop(d, es2, env, o1.st, fuel) else o1
    decreases |es1|
  {
    if |es1| == 0 {
      assert es1 + es2 == es2;
    } else {
      AppendTail(es1, es2);
      var o := Eval(d, es1[0], env, st, fuel);
      if o.result.Ok? {
        WFLinked(o.st);
        var t := Builtins.Truth(o.st.heap, o.result.value);
        if t.Ok? && !t.value {
          OrAppend(d, es1[1..], es2, env, o.st, fuel);
          assert OrLoop(d, es1, env, st, fuel) == OrLoop(d, es1[1..], env, o.st, fuel);
          assert OrLoop(d, es1 + es2, env, st, fuel) == OrLoop(d, es1[1..] + es2, env, o.st, fuel);
        }
      }
    }
  }

  /** One operand: `(and e)` is True or False as `e` is truthy, `(or e)` likewise. */
  lemma AndOrSingle(e: Expr, env: nat, st: State, fuel: nat, b: bool)
    requires WF(st) && env in st.frames
    ensures var oe := Eval(Full, e, env, st, fuel);
      oe.result.Ok? && TestIs(oe.st, oe.result.value, b) ==>
        && AndLoop(Full, [e], env, st, fuel) == Outcome(Ok(BoolV(b)), oe.st)
        && OrLoop(Full, [e], env, st, fuel) == Outcome(Ok(BoolV(b)), oe.st)
  {
  }

  // ---------------------------------------------------------------------------
  // Application

  /** Operands are evaluated left to right: those of `es1` first, then those of `es2` in
      the store `es1` left; the first error stops the rest. */
  lemma {:induction false} OperandsAppend(d: Dialect, es1: seq<Expr>, es2: seq<Expr>, env: nat, st: State, fuel: nat)
    requires WF(st) && env in st.frames
    ensures var o1 := EvalOperands(d, es1, env, st, fuel);
      var o := EvalOperands(d, es1 + es2, env, st, fuel);
      && WF(o1.st) && env in o1.st.frames
      && (o1.result.Err? ==> o == o1)
      && (o1.result.Ok? ==>
            var o2 := EvalOperands(d, es2, env, o1.st, fuel);
            o == if o2.result.Err? then o2 else Outcomes(Ok(o1.result.value + o2.result.value), o2.st))
    decreases |es1|
  {
    if |es1| == 0 {
      assert es1 + es2 == es2;
      var o2 := EvalOperands(d, es2, env, st, fuel);
      if o2.result.Ok? {
        assert [] + o2.result.value == o2.result.value;
      }
    } else {
      AppendTail(es1, es2);
      var o := Eval(d, es1[0], env, st, fuel);
      if o.result.Ok? {
        OperandsAppend(d, es1[1..], es2, env, o.st, fuel);
        OperandsStep(d, es1, env, st, fuel);
        OperandsStep(d, es1 + es2, env, st, fuel);
        var r1 := EvalOperands(d, es1[1..], env, o.st, fuel);
        if r1.result.Ok? {
          var o2 := EvalOperands(d, es2, env, r1.st, fuel);
          if o2.result.Ok? {
            AppendAssoc([o.result.value], r1.result.value, o2.result.value);
          }
        }
      } else {
        OperandsStep(d, es1, env, st, fuel);
        OperandsStep(d, es1 + es2, env, st, fuel);
      }
    }
  }

  lemma AppendTail<T>(s: seq<T>, t: seq<T>)
    requires |s| > 0
    ensures (s + t)[0] == s[0] && (s + t)[1..] == s[1..] + t
  {
  }

  lemma AppendAssoc<T>(a: seq<T>, b: seq<T>, c: seq<T>)
    ensures a + (b + c) == (a + b) + c
  {
  }

  /** One step of the operand loop, the first operand, then the rest. */
  lemma OperandsStep(d: Dialect, es: seq<Expr>, env: nat, st: State, fuel: nat)
    requires WF(st) && env in st.frames && |es| > 0
    ensures var o := Eval(d, es[0], env, st, fuel);
      && WF(o.st) && env in o.st.frames
      && (o.result.Err? ==> EvalOperands(d, es, env, st, fuel) == Outcomes(Err(o.result.error), o.st))
      && (o.result.Ok? ==>
            var r := EvalOperands(d, es[1..], env, o.st, fuel);
            EvalOperands(d, es, env, st, fuel)
              == if r.result.Err? then r else Outcomes(Ok([o.result.value] + r.result.value), r.st))
  {
  }

  /** A call `(name operands...)`: the operator is looked up first; when it is unbound the
      operands are never evaluated and nothing changes, otherwise the operands are
      evaluated and the function applied to their values. */
  lemma CallOrder(d: Dialect, name: string, operands: seq<Expr>, env: nat, st: State, fuel: nat)
    requires WF(st) && env in st.frames
    requires name != "define" && name != "lambda"
    requires d == Full ==> name != "if" && name != "and" && name != "or"
    ensures var f := Environment.Lookup(d, st.frames, env, name);
      var o := Eval(d, Form([Sym(name)] + operands), env, st, fuel + 1);
      && (f.Err? ==> o == Outcome(Err(f.error), st))
      && (f.Ok? ==>
            var oa := EvalOperands(d, operands, env, st, fuel);
            && WF(oa.st) && ValidIn(f.value, oa.st)
            && (oa.result.Ok? ==> forall k :: 0 <= k < |oa.result.value| ==> ValidIn(oa.result.value[k], oa.st))
            && o == if oa.result.Err? then Outcome(Err(oa.result.error), oa.st)
                    else Apply(d, f.value, oa.result.value, oa.st, fuel))
  {
    var items := [Sym(name)] + operands;
    assert items[0] == Sym(name);
    assert Eval(d, Form(items), env, st, fuel + 1) == EvalForm(d, items, env, st, fuel);
    assert EvalForm(d, items, env, st, fuel) == EvalNamed(d, items, env, st, fuel);
    NamedCallOrder(d, name, operands, env, st, fuel);
  }

  lemma NamedCallOrder(d: Dialect, name: string, operands: seq<Expr>, env: nat, st: State, fuel: nat)
    requires WF(st) && env in st.frames
    ensures var f := Environment.Lookup(d, st.frames, env, name);
      var o := EvalNamed(d, [Sym(name)] + operands, env, st, fuel);
      && (f.Err? ==> o == Outcome(Err(f.error), st))
      && (f.Ok? ==>
            var oa := EvalOperands(d, operands, env, st, fuel);
            && WF(oa.st) && ValidIn(f.value, oa.st)
            && (oa.result.Ok? ==> forall k :: 0 <= k < |oa.result.value| ==> ValidIn(oa.result.value[k], oa.st))
            && o == if oa.result.Err? then Outcome(Err(oa.result.error), oa.st)
                    else Apply(d, f.value, oa.result.value, oa.st, fuel))
  {
    var items := [Sym(name)] + operands;
    assert items[0] == Sym(name) && items[1..] == operands;
    Environment.LookupValid(d, st, env, name);
    var f := Environment.Lookup(d, st.frames, env, name);
    if f.Ok? {
      ValidGrows(f.value, st, EvalOperands(d, operands, env, st, fuel).st);
    }
  }

  /** A call whose head is a form, `((head) operands...)`: the head is evaluated first, and
      an error there ends the call; otherwise its value is bound to `temp_func` in the
      current frame and then called with the operands, as a call by name is. */
  lemma NestedCallOrder(d: Dialect, head: seq<Expr>, operands: seq<Expr>, env: nat, st: State, fuel: nat)
    requires WF(st) && env in st.frames
    ensures var oh := Eval(d, Form(head), env, st, fuel);
      var o := Eval(d, Form([Form(head)] + operands), env, st, fuel + 1);
      && (oh.result.Err? ==> o == oh)
      && (oh.result.Ok? ==>
            var st1 := Environment.BindName(oh.st, env, "temp_func", oh.result.value);
            && WF(st1) && env in st1.frames && ValidIn(oh.result.value, st1)
            && o == EvalCall(d, oh.result.value, operands, env, st1, fuel))
  {
    var items := [Form(head)] + operands;
    assert items[0] == Form(head) && items[1..] == operands;
    assert Eval(d, Form(items), env, st, fuel + 1) == EvalForm(d, items, env, st, fuel);
    assert EvalForm(d, items, env, st, fuel) == EvalNested(d, items, env, st, fuel);
    NestedCall(d, items, env, st, fuel);
  }

  lemma NestedCall(d: Dialect, items: seq<Expr>, env: nat, st: State, fuel: nat)
    requires WF(st) && env in st.frames && |items| > 0
    ensures var oh := Eval(d, items[0], env, st, fuel);
      var o := EvalNested(d, items, env, st, fuel);
      && (oh.result.Err? ==> o == oh)
      && (oh.result.Ok? ==>
            var st1 := Environment.BindName(oh.st, env, "temp_func", oh.result.value);
            && WF(st1) && env in st1.frames && ValidIn(oh.result.value, st1)
            && o == EvalCall(d, oh.result.value, items[1..], env, st1, fuel))
  {
    var oh := Eval(d, items[0], env, st, fuel);
    if oh.result.Ok? {
      Environment.BindNameWF(oh.st, env, "temp_func", oh.result.value);
    }
  }

  /** A form whose head is itself a form: the head is evaluated, bound to `temp_func` in
      the current frame, and called. With no operands the binding is still there after the
      call, whatever the function does. */
  lemma NestedHeadBinds(d: Dialect, head: seq<Expr>, env: nat, st: State, fuel: nat)
    requires WF(st) && env in st.frames
    ensures var o := Eval(d, Form([Form(head)]), env, st, fuel + 1);
      var oh := Eval(d, Form(head), env, st, fuel);
      && (oh.result.Err? ==> o == oh)
      && (oh.result.Ok? ==>
            && Environment.FramesOk(o.st.frames) && env in o.st.frames
            && Environment.Lookup(d, o.st.frames, env, "temp_func") == oh.result)
  {
    var items := [Form(head)];
    assert Eval(d, Form(items), env, st, fuel + 1) == EvalForm(d, items, env, st, fuel);
    assert EvalForm(d, items, env, st, fuel) == EvalNested(d, items, env, st, fuel);
    NestedBindsTemp(d, items, env, st, fuel);
  }

  lemma NestedBindsTemp(d: Dialect, items: seq<Expr>, env: nat, st: State, fuel: nat)
    requires WF(st) && env in st.frames && |items| == 1
    ensures var o := EvalNested(d, items, env, st, fuel);
      var oh := Eval(d, items[0], env, st, fuel);
      && (oh.result.Err? ==> o == oh)
      && (oh.result.Ok? ==>
            && Environment.FramesOk(o.st.frames) && env in o.st.frames
            && Environment.Lookup(d, o.st.frames, env, "temp_func") == oh.result)
  {
    var oh := Eval(d, items[0], env, st, fuel);
    if oh.result.Ok? {
      assert items[1..] == [];
      var f := oh.result.value;
      Environment.BindNameWF(oh.st, env, "temp_func", f);
      var st1 := Environment.BindName(oh.st, env, "temp_func", f);
      var o := EvalNested(d, items, env, st, fuel);
      assert o == EvalCall(d, f, [], env, st1, fuel);
      assert EvalOperands(d, [], env, st1, fuel) == Outcomes(Ok([]), st1);
      assert o == Apply(d, f, [], st1, fuel);
      assert o.st.frames[env] == st1.frames[env];
    }
  }

  // ---------------------------------------------------------------------------
  // Calling a user function

  /** The table that `cur_env[var] = params[i]`, run for each parameter in turn, leaves
      when it starts from `t`: a later parameter of the same name wins, and a number as
      parameter binds nothing a lookup can see. */
  function BindAll(t: map<string, Value>, names: seq<Expr>, args: seq<Value>): map<string, Value>
    requires |names| == |args|
    decreases |names|
  {
    if |names| == 0 then t
    else BindAll(if names[0].Sym? then t[names[0].name := args[0]] else t, names[1..], args[1..])
  }

  /** The store in which a call's body runs: one new frame, child of `parent`, holding
      `table`. */
  function CallState(st: State, parent: nat, table: map<string, Value>): State {
    st.(frames := st.frames[st.next := Frame(table, Enclosing(parent))], next := st.next + 1)
  }

  /** Binding parameters one by one writes exactly the table `BindAll` describes into the
      frame, and nothing else. */
  lemma {:induction false} BindParamsTable(st: State, f: nat, names: seq<Expr>, args: seq<Value>)
    requires WF(st) && f in st.frames && |names| == |args|
    requires forall k :: 0 <= k < |args| ==> ValidIn(args[k], st)
    requires forall k :: 0 <= k < |names| ==> !names[k].Form?
    ensures BindParams(st, f, names, args)
         == Ok(st.(frames := st.frames[f := st.frames[f].(table := BindAll(st.frames[f].table, names, args))]))
    decreases |names|
  {
    if |names| > 0 {
      var F := st.frames[f];
      var t1 := if names[0].Sym? then F.table[names[0].name := args[0]] else F.table;
      var st1 := BindParamsFirst(st, f, names, args);
      BindParamsTable(st1, f, names[1..], args[1..]);
      var t := BindAll(t1, names[1..], args[1..]);
      assert BindAll(F.table, names, args) == t;
      TableTwice(st.frames, f, t1, t);
    } else {
      assert st.frames[f := st.frames[f]] == st.frames;
    }
  }

  /** The first assignment `cur_env[var] = params[0]` of the binding loop. */
  lemma BindParamsFirst(st: State, f: nat, names: seq<Expr>, args: seq<Value>) returns (st1: State)
    requires WF(st) && f in st.frames && |names| == |args| && |names| > 0
    requires forall k :: 0 <= k < |args| ==> ValidIn(args[k], st)
    requires !names[0].Form?
    ensures st1 == st.(frames := st.frames[f := st.frames[f].(table :=
      if names[0].Sym? then st.frames[f].table[names[0].name := args[0]] else st.frames[f].table)])
    ensures WF(st1) && f in st1.frames
    ensures forall k :: 0 <= k < |args[1..]| ==> ValidIn(args[1..][k], st1)
    ensures BindParams(st, f, names, args) == BindParams(st1, f, names[1..], args[1..])
  {
    var F := st.frames[f];
    var t1 := if names[0].Sym? then F.table[names[0].name := args[0]] else F.table;
    st1 := st.(frames := st.frames[f := F.(table := t1)]);
    if !names[0].Sym? {
      assert st.frames[f := F] == st.frames;
    }
    assert Environment.Bind(st, f, names[0], args[0]) == Ok(st1);
    Environment.BindWF(st, f, names[0], args[0]);
    forall k | 0 <= k < |args| - 1 ensures ValidIn(args[1..][k], st1) {
      ValidGrows(args[k + 1], st, st1);
    }
  }

  /** Writing a frame's table twice leaves the second table. */
  lemma TableTwice(frames: map<nat, Frame>, f: nat, t1: map<string, Value>, t: map<string, Value>)
    requires f in frames
    ensures var fr1 := frames[f := frames[f].(table := t1)];
      fr1[f := fr1[f].(table := t)] == frames[f := frames[f].(table := t)]
  {
    var fr1 := frames[f := frames[f].(table := t1)];
    assert fr1[f].(table := t) == frames[f].(table := t);
  }

  /** A name no parameter carries keeps what `t` gave it. */
  lemma {:induction false} BindAllOther(t: map<string, Value>, names: seq<Expr>, args: seq<Value>, n: string)
    requires |names| == |args| && Sym(n) !in names
    ensures n in BindAll(t, names, args) <==> n in t
    ensures n in t ==> BindAll(t, names, args)[n] == t[n]
    decreases |names|
  {
    if |names| > 0 {
      assert names[0] != Sym(n);
      assert Sym(n) !in names[1..];
      BindAllOther(if names[0].Sym? then t[names[0].name := args[0]] else t, names[1..], args[1..], n);
    }
  }

  /** Distinct parameter names are bound positionally: the `k`-th name to the `k`-th
      argument. */
  lemma {:induction false} BindAllPositional(t: map<string, Value>, names: seq<Expr>, args: seq<Value>)
    requires |names| == |args| && Distinct(names)
    requires forall k :: 0 <= k < |names| ==> names[k].Sym?
    ensures forall k :: 0 <= k < |names| ==>
      names[k].name in BindAll(t, names, args) && BindAll(t, names, args)[names[k].name] == args[k]
    decreases |names|
  {
    if |names| > 0 {
      var t1 := t[names[0].name := args[0]];
      assert Distinct(names[1..]) by {
        forall i, j | 0 <= i < j < |names[1..]| ensures names[1..][i] != names[1..][j] {
          assert names[1..][i] == names[i + 1] && names[1..][j] == names[j + 1];
        }
      }
      BindAllPositional(t1, names[1..], args[1..]);
      assert Sym(names[0].name) !in names[1..] by {
        forall j | 0 <= j < |names[1..]| ensures names[1..][j] != names[0] {
          assert names[1..][j] == names[j + 1];
        }
      }
      BindAllOther(t1, names[1..], args[1..], names[0].name);
      forall k | 1 <= k < |names|
        ensures names[k].name in BindAll(t, names, args) && BindAll(t, names, args)[names[k].name] == args[k]
      {
        assert names[k] == names[1..][k - 1] && args[k] == args[1..][k - 1];
      }
    }
  }

  /** Calling a closure with arguments it cannot take: a number as parameter list has no
      length (TypeError) and a wrong number of arguments is an EvaluationError, both before
      anything is allocated; a list among the parameters cannot be a key (TypeError). */
  lemma ApplyClosureRejects(d: Dialect, id: nat, params: Expr, body: Expr, cenv: nat, args: seq<Value>, st: State, fuel: nat)
    requires WF(st) && ValidIn(Closure(id, params, body, cenv), st)
    requires forall k :: 0 <= k < |args| ==> ValidIn(args[k], st)
    ensures var o := Apply(d, Closure(id, params, body, cenv), args, st, fuel);
      && (params.Int? || params.Float? ==> o == Outcome(Err(HostError(TypeError)), st))
      && ((params.Form? || params.Sym?) && |ParamNames(params)| != |args| ==>
            o == Outcome(Err(EvaluationError), st))
      && ((params.Form? || params.Sym?) && |ParamNames(params)| == |args|
          && (exists k :: 0 <= k < |args| && ParamNames(params)[k].Form?) ==>
            o.result == Err(HostError(TypeError)))
  {
    if params.Form? || params.Sym? {
      assert ParamCount(params) == Ok(|ParamNames(params)|);
    }
  }

  /** Calling a closure with as many arguments as it has parameters: the body runs in one
      new frame whose parent is the frame the closure captured (not the caller's) and whose
      table binds the parameters to the arguments. */
  lemma ApplyClosureRuns(d: Dialect, id: nat, params: Expr, body: Expr, cenv: nat, args: seq<Value>, st: State, fuel: nat)
    requires WF(st) && ValidIn(Closure(id, params, body, cenv), st)
    requires forall k :: 0 <= k < |args| ==> ValidIn(args[k], st)
    requires (params.Form? || params.Sym?) && |ParamNames(params)| == |args|
    requires forall k :: 0 <= k < |args| ==> !ParamNames(params)[k].Form?
    ensures var st' := CallState(st, cenv, BindAll(map[], ParamNames(params), args));
      && WF(st') && st.next in st'.frames
      && Apply(d, Closure(id, params, body, cenv), args, st, fuel) == Eval(d, body, st.next, st', fuel)
  {
    assert ParamCount(params) == Ok(|args|);
    CallBinds(st, cenv, ParamNames(params), args);
  }

  /** The new frame of a call, once its parameters are bound, is `CallState`. */
  lemma CallBinds(st: State, cenv: nat, names: seq<Expr>, args: seq<Value>)
    requires WF(st) && cenv in st.frames && |names| == |args|
    requires forall k :: 0 <= k < |args| ==> ValidIn(args[k], st)
    requires forall k :: 0 <= k < |args| ==> !names[k].Form?
    ensures var (st1, frame) := Environment.NewFrame(st, cenv);
      && frame == st.next
      && (forall k :: 0 <= k < |args| ==> ValidIn(args[k], st1))
      && BindParams(st1, frame, names, args) == Ok(CallState(st, cenv, BindAll(map[], names, args)))
  {
    var st1 := CallState(st, cenv, map[]);
    assert Environment.NewFrame(st, cenv) == (st1, st.next);
    assert WF(st1) && Grows(st, st1);
    forall k | 0 <= k < |args| ensures ValidIn(args[k], st1) { ValidGrows(args[k], st, st1); }
    BindParamsTable(st1, st.next, names, args);
    CallStateTable(st, cenv, BindAll(map[], names, args));
  }

  /** Filling the table of an empty call frame gives the call state with that table. */
  lemma CallStateTable(st: State, cenv: nat, t: map<string, Value>)
    ensures var st1 := CallState(st, cenv, map[]);
      st1.(frames := st1.frames[st.next := st1.frames[st.next].(table := t)]) == CallState(st, cenv, t)
  {
    var st1 := CallState(st, cenv, map[]);
    assert st1.frames[st.next := st1.frames[st.next].(table := t)] == st.frames[st.next := Frame(t, Enclosing(cenv))];
  }

  /** In the frame a call creates, each of the distinct parameter names looks up to its
      argument and every other name resolves as it would in the captured frame. */
  lemma CallFrameLookup(d: Dialect, st: State, cenv: nat, names: seq<Expr>, args: seq<Value>)
    requires WF(st) && cenv in st.frames && |names| == |args| && Distinct(names)
    requires forall k :: 0 <= k < |names| ==> names[k].Sym?
    ensures var st' := CallState(st, cenv, BindAll(map[], names, args));
      && Environment.FramesOk(st'.frames) && st.next in st'.frames
      && (forall k :: 0 <= k < |names| ==> Environment.Lookup(d, st'.frames, st.next, names[k].name) == Ok(args[k]))
      && (forall n :: Sym(n) !in names ==>
            Environment.Lookup(d, st'.frames, st.next, n) == Environment.Lookup(d, st.frames, cenv, n))
  {
    var st' := CallState(st, cenv, BindAll(map[], names, args));
    forall k | k in st'.frames ensures ParentOk(st'.frames, k) {
      if k != st.next { assert ParentOk(st.frames, k); }
    }
    BindAllPositional(map[], names, args);
    forall n | Sym(n) !in names
      ensures Environment.Lookup(d, st'.frames, st.next, n) == Environment.Lookup(d, st.frames, cenv, n)
    {
      BindAllOther(map[], names, args, n);
      Environment.LookupUnchanged(d, st.frames, st'.frames, cenv, n);
    }
  }
}
