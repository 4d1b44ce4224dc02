/** `result_and_env` and `evaluate` (b_lab/lab.py:304-379; a_lab/lab.py:172-223) and the
    call of a user function (`Function.__call__`, b_lab/lab.py:236-248; `Lambda.__call__`,
    a_lab/lab.py:155-165).

    Evaluation threads the store: definitions write frames, `list` and `concat` write cells,
    `lambda` and calls allocate. Every evaluation step spends one unit of fuel; running out
    is `OutOfFuel`, where the source would go on (or hit Python's recursion limit). */
module Evaluator {
  import opened Errors
  import opened Parser
  import opened Values
  import Environment
  import Builtins

  /** Operands evaluated so far, with the store after them. */
  datatype Outcomes = Outcomes(result: Result<seq<Value>>, st: State)

  /** No frame of `st` other than those in `mutable` changes. */
  predicate FramesKept(st: State, st': State, mutable: set<nat>) {
    forall k :: k in st.frames && k !in mutable ==> k in st'.frames && st'.frames[k] == st.frames[k]
  }

  /** What every evaluation step keeps: the store invariant, growth, untouched frames other
      than those in `mutable`, and a result pointing into the store. */
  predicate Step(st: State, o: Outcome, mutable: set<nat>) {
    && WF(o.st) && Grows(st, o.st) && FramesKept(st, o.st, mutable)
    && (o.result.Ok? ==> ValidIn(o.result.value, o.st))
  }

  predicate StepAll(st: State, o: Outcomes, mutable: set<nat>) {
    && WF(o.st) && Grows(st, o.st) && FramesKept(st, o.st, mutable)
    && (o.result.Ok? ==> forall k :: 0 <= k < |o.result.value| ==> ValidIn(o.result.value[k], o.st))
  }

  lemma StepTrans(st1: State, st2: State, o: Outcome, mutable: set<nat>)
    requires WF(st2) && Grows(st1, st2) && FramesKept(st1, st2, mutable)
    requires Step(st2, o, mutable)
    ensures Step(st1, o, mutable)
  {
  }

  /** A call keeps every frame but `env` when its operands did and the function keeps every
      frame. */
  lemma CallStep(st: State, st1: State, o: Outcome, env: nat)
    requires WF(st1) && Grows(st, st1) && FramesKept(st, st1, {env})
    requires Step(st1, o, {})
    ensures Step(st, o, {env})
  {
  }

  // ---------------------------------------------------------------------------
  // `result_and_env`

  /** Evaluates `e` in frame `env`. */
  function Eval(d: Dialect, e: Expr, env: nat, st: State, fuel: nat): (o: Outcome)
    requires WF(st) && env in st.frames
    ensures Step(st, o, {env})
    decreases fuel, 0, 0
  {
    if fuel == 0 then Outcome(Err(OutOfFuel), st)
    else match e
      case Int(i) => Outcome(Ok(IntV(i)), st)
      case Float(x) => Outcome(Ok(FloatV(x)), st)
      case Sym(s) =>
        Environment.LookupValid(d, st, env, s);
        Outcome(Environment.Lookup(d, st.frames, env, s), st)
      case Form(items) => EvalForm(d, items, env, st, fuel - 1)
  }

  /** A parenthesised expression, dispatched on its first element in the order of the
      source: `define`; in a_lab `lambda`; a nested head; in b_lab `lambda`, `if`, `and`,
      `or`; otherwise a call of the function the head names. */
  function EvalForm(d: Dialect, items: seq<Expr>, env: nat, st: State, fuel: nat): (o: Outcome)
    requires WF(st) && env in st.frames
    ensures Step(st, o, {env})
    decreases fuel, 3, 0
  {
    if |items| == 0 then Outcome(Err(EvaluationError), st)
    else
      var head := items[0];
      if head.Int? || head.Float? then Outcome(Err(EvaluationError), st)
      else if head == Sym("define") then EvalDefine(d, items, env, st, fuel)
      else if d == Early && head == Sym("lambda") then MakeClosure(items, env, st)
      else if head.Form? then EvalNested(d, items, env, st, fuel)
      else if d == Full && head == Sym("lambda") then MakeClosure(items, env, st)
      else if d == Full && head == Sym("if") then EvalIf(d, items, env, st, fuel)
      else if d == Full && head == Sym("and") then AndLoop(d, items[1..], env, st, fuel)
      else if d == Full && head == Sym("or") then OrLoop(d, items[1..], env, st, fuel)
      else EvalNamed(d, items, env, st, fuel)
  }

  /** A form whose head is itself a form: the head is evaluated and bound to `temp_func` in
      `env`, and the call then looks `temp_func` up, finding that value. */
  function EvalNested(d: Dialect, items: seq<Expr>, env: nat, st: State, fuel: nat): (o: Outcome)
    requires WF(st) && env in st.frames && |items| > 0
    ensures Step(st, o, {env})
    decreases fuel, 2, 1
  {
    var o := Eval(d, items[0], env, st, fuel);
    if o.result.Err? then o
    else
      var f := o.result.value;
      Environment.BindNameWF(o.st, env, "temp_func", f);
      var st1 := Environment.BindName(o.st, env, "temp_func", f);
      var o2 := EvalCall(d, f, items[1..], env, st1, fuel);
      StepTrans(st, st1, o2, {env});
      o2
  }

  /** A form whose head is a symbol naming the function to call: `env[first_term]`, then
      the call. */
  function EvalNamed(d: Dialect, items: seq<Expr>, env: nat, st: State, fuel: nat): (o: Outcome)
    requires WF(st) && env in st.frames && |items| > 0 && items[0].Sym?
    ensures Step(st, o, {env})
    decreases fuel, 2, 1
  {
    var f := Environment.Lookup(d, st.frames, env, items[0].name);
    Environment.LookupValid(d, st, env, items[0].name);
    if f.Err? then Outcome(Err(f.error), st)
    else EvalCall(d, f.value, items[1..], env, st, fuel)
  }

  /** `(lambda params body)`: a new function object capturing `env`; the body is not
      evaluated. */
  function MakeClosure(items: seq<Expr>, env: nat, st: State): (o: Outcome)
    requires WF(st) && env in st.frames
    ensures Step(st, o, {})
  {
    if |items| < 3 then Outcome(Err(HostError(IndexError)), st)
    else
      var st' := st.(next := st.next + 1);
      assert forall v: Value :: ValidIn(v, st) ==> ValidIn(v, st');
      Outcome(Ok(Closure(st.next, items[1], items[2], env)), st')
  }

  /** `(define name e)` and `(define (f params...) body)`. The short form is rewritten to
      `(define f (lambda (params...) body))` and evaluated again. */
  function EvalDefine(d: Dialect, items: seq<Expr>, env: nat, st: State, fuel: nat): (o: Outcome)
    requires WF(st) && env in st.frames && |items| > 0
    ensures Step(st, o, {env})
    decreases fuel, 2, 0
  {
    if |items| < 2 then Outcome(Err(HostError(IndexError)), st)
    else if items[1].Form? then
      if |items| < 3 || |items[1].items| == 0 then Outcome(Err(HostError(IndexError)), st)
      else Eval(d, Form(DefineRewrite(items)), env, st, fuel)
    else if |items| < 3 then Outcome(Err(HostError(IndexError)), st)
    else
      var o := Eval(d, items[2], env, st, fuel);
      if o.result.Err? then o
      else match items[1]
        case Sym(s) =>
          Environment.BindNameWF(o.st, env, s, o.result.value);
          Outcome(o.result, Environment.BindName(o.st, env, s, o.result.value))
        case _ => o  // a number as name: bound under a key no lookup uses
  }

  /** The rewrite of `(define (f params...) body rest...)`. */
  function DefineRewrite(items: seq<Expr>): seq<Expr>
    requires |items| >= 3 && items[1].Form? && |items[1].items| > 0
  {
    var sig := items[1].items;
    [items[0], sig[0], Form([Sym("lambda"), Form(sig[1..]), items[2]])] + items[3..]
  }

  /** `(if test then else)`: only the branch the test selects is looked at. */
  function EvalIf(d: Dialect, items: seq<Expr>, env: nat, st: State, fuel: nat): (o: Outcome)
    requires WF(st) && env in st.frames
    ensures Step(st, o, {env})
    decreases fuel, 2, 0
  {
    if |items| < 2 then Outcome(Err(HostError(IndexError)), st)
    else
      var o := Eval(d, items[1], env, st, fuel);
      if o.result.Err? then o
      else
        WFLinked(o.st);
        var t := Builtins.Truth(o.st.heap, o.result.value);
        if t.Err? then Outcome(Err(t.error), o.st)
        else
          var i := if t.value then 2 else 3;
          if i >= |items| then Outcome(Err(HostError(IndexError)), o.st)
          else
            var o2 := Eval(d, items[i], env, o.st, fuel);
            StepTrans(st, o.st, o2, {env});
            o2
  }

  /** `(and e...)`: False at the first false operand, later ones unevaluated; else True. */
  function AndLoop(d: Dialect, es: seq<Expr>, env: nat, st: State, fuel: nat): (o: Outcome)
    requires WF(st) && env in st.frames
    ensures Step(st, o, {env})
    ensures o.result.Ok? ==> o.result.value.BoolV?
    decreases fuel, 1, |es|
  {
    if |es| == 0 then Outcome(Ok(BoolV(true)), st)
    else
      var o := Eval(d, es[0], env, st, fuel);
      if o.result.Err? then o
      else
        WFLinked(o.st);
        var t := Builtins.Truth(o.st.heap, o.result.value);
        if t.Err? then Outcome(Err(t.error), o.st)
        else if !t.value then Outcome(Ok(BoolV(false)), o.st)
        else
          var o2 := AndLoop(d, es[1..], env, o.st, fuel);
          StepTrans(st, o.st, o2, {env});
          o2
  }

  /** `(or e...)`: True at the first true operand, later ones unevaluated; else False. */
  function OrLoop(d: Dialect, es: seq<Expr>, env: nat, st: State, fuel: nat): (o: Outcome)
    requires WF(st) && env in st.frames
    ensures Step(st, o, {env})
    ensures o.result.Ok? ==> o.result.value.BoolV?
    decreases fuel, 1, |es|
  {
    if |es| == 0 then Outcome(Ok(BoolV(false)), st)
    else
      var o := Eval(d, es[0], env, st, fuel);
      if o.result.Err? then o
      else
        WFLinked(o.st);
        var t := Builtins.Truth(o.st.heap, o.result.value);
        if t.Err? then Outcome(Err(t.error), o.st)
        else if t.value then Outcome(Ok(BoolV(true)), o.st)
        else
          var o2 := OrLoop(d, es[1..], env, o.st, fuel);
          StepTrans(st, o.st, o2, {env});
          o2
  }

  /** A call whose function `f` is already resolved: the operands are evaluated left to
      right, then `f` is applied to them. */
  function EvalCall(d: Dialect, f: Value, operands: seq<Expr>, env: nat, st: State, fuel: nat): (o: Outcome)
    requires WF(st) && env in st.frames && ValidIn(f, st)
    ensures Step(st, o, {env})
    decreases fuel, 2, 0
  {
    var oa := EvalOperands(d, operands, env, st, fuel);
    if oa.result.Err? then Outcome(Err(oa.result.error), oa.st)
    else
      ValidGrows(f, st, oa.st);
      var o := Apply(d, f, oa.result.value, oa.st, fuel);
      CallStep(st, oa.st, o, env);
      o
  }

  /** The `for expression in parsed[1:]` loop collecting operands. */
  function EvalOperands(d: Dialect, es: seq<Expr>, env: nat, st: State, fuel: nat): (o: Outcomes)
    requires WF(st) && env in st.frames
    ensures StepAll(st, o, {env})
    ensures o.result.Ok? ==> |o.result.value| == |es|
    decreases fuel, 1, |es|
  {
    if |es| == 0 then Outcomes(Ok([]), st)
    else
      var o := Eval(d, es[0], env, st, fuel);
      if o.result.Err? then Outcomes(Err(o.result.error), o.st)
      else
        var rest := EvalOperands(d, es[1..], env, o.st, fuel);
        if rest.result.Err? then rest
        else
          ValidGrows(o.result.value, o.st, rest.st);
          Outcomes(Ok([o.result.value] + rest.result.value), rest.st)
  }

  // ---------------------------------------------------------------------------
  // Calling a function

  /** `len(self.params)`: a parameter list, or a symbol standing for its characters; a
      number has no length. */
  function ParamCount(params: Expr): (r: Result<nat>)
    ensures r.Err? <==> params.Int? || params.Float?
  {
    match params
    case Form(ps) => Ok(|ps|)
    case Sym(s) => Ok(|s|)
    case _ => Err(HostError(TypeError))
  }

  /** What `enumerate(self.params)` yields. */
  function ParamNames(params: Expr): (names: seq<Expr>)
    requires params.Form? || params.Sym?
    ensures ParamCount(params) == Ok(|names|)
  {
    match params
    case Form(ps) => ps
    case Sym(s) => seq(|s|, i requires 0 <= i < |s| => Sym([s[i]]))
  }

  /** `cur_env[var] = params[i]` for each parameter in turn. */
  function BindParams(st: State, f: nat, names: seq<Expr>, args: seq<Value>): (r: Result<State>)
    requires WF(st) && f in st.frames && |names| == |args|
    requires forall k :: 0 <= k < |args| ==> ValidIn(args[k], st)
    ensures r.Ok? ==> WF(r.value) && Grows(st, r.value) && FramesKept(st, r.value, {f})
    ensures r.Ok? ==> r.value.next == st.next
    ensures r.Err? <==> exists k :: 0 <= k < |names| && names[k].Form?
    ensures r.Err? ==> r.error == HostError(TypeError)
    decreases |names|
  {
    if |names| == 0 then Ok(st)
    else
      Environment.BindWF(st, f, names[0], args[0]);
      var st1 :- Environment.Bind(st, f, names[0], args[0]);
      assert forall k :: 1 <= k < |args| ==> ValidIn(args[k], st1) by {
        forall k | 1 <= k < |args| ensures ValidIn(args[k], st1) { ValidGrows(args[k], st, st1); }
      }
      var r := BindParams(st1, f, names[1..], args[1..]);
      assert forall k :: 1 <= k < |names| ==> names[k] == names[1..][k - 1];
      r
  }

  /** `operation(operands)`: a builtin, or a user function called with a new frame whose
      parent is the frame it captured; anything else is not callable. No frame that exists
      before the call changes. */
  function Apply(d: Dialect, f: Value, args: seq<Value>, st: State, fuel: nat): (o: Outcome)
    requires WF(st) && ValidIn(f, st) && forall k :: 0 <= k < |args| ==> ValidIn(args[k], st)
    ensures Step(st, o, {})
    decreases fuel, 1, 0
  {
    match f
    case Prim(op) => Builtins.CallBuiltin(op, args, st)
    case Closure(_, params, body, cenv) =>
      var n := ParamCount(params);
      if n.Err? then Outcome(Err(n.error), st)
      else if n.value != |args| then Outcome(Err(EvaluationError), st)
      else
        var (st1, frame) := Environment.NewFrame(st, cenv);
        assert forall k :: 0 <= k < |args| ==> ValidIn(args[k], st1) by {
          forall k | 0 <= k < |args| ensures ValidIn(args[k], st1) { ValidGrows(args[k], st, st1); }
        }
        var st2 := BindParams(st1, frame, ParamNames(params), args);
        if st2.Err? then Outcome(Err(st2.error), st1)
        else
          var o := Eval(d, body, frame, st2.value, fuel);
          assert frame !in st.frames;
          o
    case _ => Outcome(Err(HostError(TypeError)), st)
  }

  // ---------------------------------------------------------------------------
  // The pipeline

  /** `evaluate(parse(tokenize(program)))` in a fresh global environment. */
  function Run(d: Dialect, program: string, fuel: nat): (o: Outcome)
    ensures WF(o.st)
  {
    var tokens := Lexer.Tokenize(program);
    match Parse(tokens)
    case Err(e) => Outcome(Err(e), Initial())
    case Ok(e) => Eval(d, e, 0, Initial(), fuel)
  }
}
