/** The builtins dictionary (`carlae_builtins`, b_lab/lab.py:173-194; a_lab/lab.py:102-107
    holds only `+ - * /`) and the Python semantics its functions inherit.

    Arguments are Python values: `True`/`False` take part in arithmetic as 1 and 0,
    floats are opaque (`Num.F`: some float), and anything else (a list, a function) makes an
    arithmetic operator raise TypeError. */
module Builtins {
  import opened Errors
  import opened Seqs
  import opened Values
  import opened Sorting
  import Lists

  // ---------------------------------------------------------------------------
  // Numbers

  /** A Python number: an int (bools included) or some float. */
  datatype Num = I(n: int) | F

  /** The number a value stands for in arithmetic; other values raise TypeError. */
  function AsNum(v: Value): (r: Result<Num>)
    ensures r.Ok? <==> v.IntV? || v.BoolV? || v.FloatV?
    ensures r.Err? ==> r.error == HostError(TypeError)
  {
    match v
    case IntV(i) => Ok(I(i))
    case BoolV(b) => Ok(I(if b then 1 else 0))
    case FloatV(_) => Ok(F)
    case _ => Err(HostError(TypeError))
  }

  /** An int or bool: a value whose arithmetic this model computes. */
  predicate IsInt(v: Value) {
    v.IntV? || v.BoolV?
  }

  function IntOf(v: Value): int
    requires IsInt(v)
  {
    if v.IntV? then v.i else if v.b then 1 else 0
  }

  predicate AllInts(args: seq<Value>) {
    forall k :: 0 <= k < |args| ==> IsInt(args[k])
  }

  function IntsOf(args: seq<Value>): (ns: seq<int>)
    requires AllInts(args)
    ensures |ns| == |args| && forall k :: 0 <= k < |args| ==> ns[k] == IntOf(args[k])
  {
    if |args| == 0 then [] else [IntOf(args[0])] + IntsOf(args[1..])
  }

  /** The mathematical sum and product of a sequence of integers, folded from the left as
      `sum` and the `mult` loop do. */
  function SumInts(ns: seq<int>): int {
    if |ns| == 0 then 0 else SumInts(ns[..|ns| - 1]) + ns[|ns| - 1]
  }

  function ProductInts(ns: seq<int>): int {
    if |ns| == 0 then 1 else ProductInts(ns[..|ns| - 1]) * ns[|ns| - 1]
  }

  lemma {:induction false} SumIntsAppend(a: seq<int>, b: seq<int>)
    ensures SumInts(a + b) == SumInts(a) + SumInts(b)
    decreases |b|
  {
    if |b| > 0 {
      assert (a + b)[..|a + b| - 1] == a + b[..|b| - 1];
      SumIntsAppend(a, b[..|b| - 1]);
    } else {
      assert a + b == a;
    }
  }

  lemma {:induction false} ProductIntsAppend(a: seq<int>, b: seq<int>)
    ensures ProductInts(a + b) == ProductInts(a) * ProductInts(b)
    decreases |b|
  {
    if |b| > 0 {
      assert (a + b)[..|a + b| - 1] == a + b[..|b| - 1];
      ProductIntsAppend(a, b[..|b| - 1]);
      calc {
        ProductInts(a + b);
        ProductInts(a + b[..|b| - 1]) * b[|b| - 1];
        ProductInts(a) * ProductInts(b[..|b| - 1]) * b[|b| - 1];
      }
    } else {
      assert a + b == a;
    }
  }

  /** Whether `acc ⊕ x` raises OverflowError: an int meeting a float is converted to a
      float first, which fails when it is too large for one. */
  predicate MixOverflows(acc: Num, x: Num) {
    match (acc, x)
    case (I(a), F) => Abs(a) >= FloatLimit
    case (F, I(b)) => Abs(b) >= FloatLimit
    case _ => false
  }

  /** `acc ⊕ x` when it does not fail: exact on ints, and a float once either side is one. */
  function Combine(acc: Num, x: Num, mul: bool): Num {
    match (acc, x)
    case (I(a), I(b)) => I(if mul then a * b else a + b)
    case _ => F
  }

  /** A fold of `acc ⊕ v` over `args`, left to right, as `sum` and the `mult` loop do: a
      non-number raises TypeError, an int too large for a float meeting a float raises
      OverflowError, and otherwise a float makes the accumulator a float from then on. */
  function FoldNums(acc: Num, args: seq<Value>, mul: bool): (r: Result<Num>)
    ensures r.Err? ==> r.error == HostError(TypeError) || r.error == HostError(OverflowError)
    ensures (exists k :: 0 <= k < |args| && AsNum(args[k]).Err?) ==> r.Err?
    ensures r == Err(HostError(TypeError)) ==> exists k :: 0 <= k < |args| && AsNum(args[k]).Err?
    ensures r == Err(HostError(OverflowError)) ==> acc == F || exists k :: 0 <= k < |args| && args[k].FloatV?
    ensures acc.I? && (forall k :: 0 <= k < |args| ==> !args[k].FloatV?) ==> r != Err(HostError(OverflowError))
    ensures r.Ok? ==> (r.value == F <==> acc == F || exists k :: 0 <= k < |args| && args[k].FloatV?)
    decreases |args|
  {
    if |args| == 0 then Ok(acc)
    else
      var x :- AsNum(args[0]);
      if MixOverflows(acc, x) then Err(HostError(OverflowError))
      else
        var r := FoldNums(Combine(acc, x, mul), args[1..], mul);
        assert forall k :: 1 <= k < |args| ==> args[k] == args[1..][k - 1];
        r
  }

  /** The fold over `a + b` is the fold over `a`, continued over `b` from where it stopped:
      the first fault in the arguments decides the error. */
  lemma {:induction false} FoldNumsAppend(acc: Num, a: seq<Value>, b: seq<Value>, mul: bool)
    ensures FoldNums(acc, a + b, mul)
      == match FoldNums(acc, a, mul) case Err(e) => Err(e) case Ok(m) => FoldNums(m, b, mul)
    decreases |a|
  {
    if |a| > 0 {
      assert (a + b)[0] == a[0] && (a + b)[1..] == a[1..] + b;
      var x := AsNum(a[0]);
      if x.Ok? && !MixOverflows(acc, x.value) {
        var acc' := Combine(acc, x.value, mul);
        assert FoldNums(acc, a, mul) == FoldNums(acc', a[1..], mul);
        assert FoldNums(acc, a + b, mul) == FoldNums(acc', a[1..] + b, mul);
        FoldNumsAppend(acc', a[1..], b, mul);
      }
    } else {
      assert a + b == b;
    }
  }

  /** One step of the fold: TypeError for a non-number; OverflowError exactly when an int
      of magnitude `FloatLimit` or more meets a float, whichever of the two is the int;
      otherwise a float exactly when either side is one. */
  lemma FoldNumsOne(acc: Num, v: Value, mul: bool)
    ensures AsNum(v).Err? ==> FoldNums(acc, [v], mul) == Err(HostError(TypeError))
    ensures FoldNums(acc, [v], mul) == Err(HostError(OverflowError)) <==>
      || (acc.I? && v.FloatV? && Abs(acc.n) >= FloatLimit)
      || (acc == F && IsInt(v) && Abs(IntOf(v)) >= FloatLimit)
  {
    assert [v][1..] == [];
  }

  /** A float next to an int too large for one stops `+`, `*` and `-` with OverflowError,
      before a later argument that is not a number is reached. */
  lemma OverflowBeforeTypeError(l: nat)
    ensures Sum([FloatV("1.5"), IntV(FloatLimit), ListRef(l)]) == Err(HostError(OverflowError))
    ensures Mult([FloatV("1.5"), IntV(FloatLimit), ListRef(l)]) == Err(HostError(OverflowError))
    ensures Sub([ListRef(l), FloatV("1.5"), IntV(FloatLimit)]) == Err(HostError(OverflowError))
  {
    FloatLimitPositive();
    var args := [FloatV("1.5"), IntV(FloatLimit), ListRef(l)];
    var rest := [FloatV("1.5"), IntV(FloatLimit)];
    assert args[1..] == [IntV(FloatLimit), ListRef(l)] && rest[1..] == [IntV(FloatLimit)];
    assert !MixOverflows(I(0), F) && !MixOverflows(I(1), F) && MixOverflows(F, I(FloatLimit));
    assert FoldNums(F, args[1..], false) == Err(HostError(OverflowError));
    assert FoldNums(F, args[1..], true) == Err(HostError(OverflowError));
    assert FoldNums(I(0), args, false) == FoldNums(F, args[1..], false);
    assert FoldNums(I(1), args, true) == FoldNums(F, args[1..], true);
    assert FoldNums(F, rest[1..], false) == Err(HostError(OverflowError));
    assert FoldNums(I(0), rest, false) == FoldNums(F, rest[1..], false);
    assert [ListRef(l), FloatV("1.5"), IntV(FloatLimit)][1..] == rest;
  }

  /** On ints and bools, the fold is the integer sum or product. */
  lemma {:induction false} FoldInts(acc: int, args: seq<Value>, mul: bool)
    requires AllInts(args)
    ensures FoldNums(I(acc), args, mul)
      == Ok(I(if mul then acc * ProductInts(IntsOf(args)) else acc + SumInts(IntsOf(args))))
    decreases |args|
  {
    if |args| > 0 {
      var x := IntOf(args[0]);
      var acc' := if mul then acc * x else acc + x;
      assert AsNum(args[0]) == Ok(I(x));
      assert FoldNums(I(acc), args, mul) == FoldNums(I(acc'), args[1..], mul);
      FoldInts(acc', args[1..], mul);
      assert IntsOf(args) == [x] + IntsOf(args[1..]);
      FoldStep(acc, x, IntsOf(args[1..]), mul);
    }
  }

  lemma FoldStep(acc: int, x: int, ns: seq<int>, mul: bool)
    ensures (if mul then (acc * x) * ProductInts(ns) else (acc + x) + SumInts(ns))
      == (if mul then acc * ProductInts([x] + ns) else acc + SumInts([x] + ns))
  {
    SumIntsAppend([x], ns);
    ProductIntsAppend([x], ns);
    assert SumInts([x]) == x && ProductInts([x]) == x;
    assert (acc * x) * ProductInts(ns) == acc * (x * ProductInts(ns));
  }

  /** A number as a result value; a float result is not computed. */
  function Finish(n: Num): Result<Value> {
    match n
    case I(i) => Ok(IntV(i))
    case F => Err(Unmodelled)
  }

  // ---------------------------------------------------------------------------
  // `+ - * /` (b_lab/lab.py:88-107, a_lab/lab.py:84-99)

  /** Python's `sum(args)`. */
  function Sum(args: seq<Value>): Result<Value> {
    var n :- FoldNums(I(0), args, false);
    Finish(n)
  }

  /** `sub(args)`: negation of a single argument, else the first minus the sum of the rest. */
  function Sub(args: seq<Value>): Result<Value> {
    if |args| == 1 then
      var x :- AsNum(args[0]);
      (match x case I(i) => Ok(IntV(-i)) case F => Err(Unmodelled))
    else if |args| == 0 then Err(HostError(IndexError))
    else
      var s :- FoldNums(I(0), args[1..], false);
      var a :- AsNum(args[0]);
      if MixOverflows(a, s) then Err(HostError(OverflowError))
      else (match (a, s) case (I(x), I(y)) => Ok(IntV(x - y)) case _ => Err(Unmodelled))
  }

  /** `mult(args)`. */
  function Mult(args: seq<Value>): Result<Value> {
    var n :- FoldNums(I(1), args, true);
    Finish(n)
  }

  /** 2 to the power `n`. */
  function Pow2(n: nat): (p: nat)
    ensures p >= 1
  {
    if n == 0 then 1 else 2 * Pow2(n - 1)
  }

  function Abs(x: int): nat {
    if x < 0 then -x else x
  }

  /** The least magnitude a Python float cannot hold, 2^1024 - 2^970: the largest finite
      double is 2^1024 - 2^971, and anything from halfway between it and 2^1024 on rounds
      (to even) up to 2^1024. An int of at least this magnitude cannot be converted to a
      float, and an int quotient whose exact value is at least this large cannot be
      rounded to one: both raise OverflowError. */
  const FloatLimit: nat := 0x3F_FFFF_FFFF_FFFF * Pow2(970)

  lemma FloatLimitPositive()
    ensures FloatLimit > 0
  {
    assert Pow2(970) >= 1;
  }

  /** `div(args)`: a single argument gives 1, whatever it is; otherwise `/` is true division,
      whose result is a float, so only its errors are computed. Dividing an int by an int
      checks the divisor for zero and then rounds the exact quotient; dividing by or into a
      float converts the int operand to a float first. */
  function Div(args: seq<Value>): (r: Result<Value>)
    ensures |args| == 1 ==> r == Ok(IntV(1))
    ensures |args| >= 2 ==> r.Err?
  {
    if |args| == 1 then Ok(IntV(1))
    else if |args| == 0 then Err(HostError(IndexError))
    else
      var a :- AsNum(args[0]);
      var b :- AsNum(args[1]);
      match (a, b)
      case (I(x), I(y)) =>
        if y == 0 then Err(HostError(ZeroDivisionError))
        else if Abs(x) >= FloatLimit * Abs(y) then Err(HostError(OverflowError))
        else DivLoop(args[2..])
      case (I(x), F) =>
        // whether the float divisor is zero is not modelled
        if Abs(x) >= FloatLimit then Err(HostError(OverflowError)) else Err(Unmodelled)
      case (F, _) => DivLoop(args[1..])
  }

  /** `temp /= val` for each later argument, `temp` being a float by now: an int divisor is
      converted to a float, then compared with zero. */
  function DivLoop(divisors: seq<Value>): (r: Result<Value>)
    ensures r.Err?
    decreases |divisors|
  {
    if |divisors| == 0 then Err(Unmodelled)
    else
      var d :- AsNum(divisors[0]);
      match d
      case I(v) =>
        if Abs(v) >= FloatLimit then Err(HostError(OverflowError))
        else if v == 0 then Err(HostError(ZeroDivisionError))
        else DivLoop(divisors[1..])
      case F => Err(Unmodelled)  // whether a float divisor is zero is not modelled
  }

  /** On ints and bools `+` is the integer sum and `*` the integer product. */
  lemma SumMultOnInts(args: seq<Value>)
    requires AllInts(args)
    ensures Sum(args) == Ok(IntV(SumInts(IntsOf(args))))
    ensures Mult(args) == Ok(IntV(ProductInts(IntsOf(args))))
  {
    FoldInts(0, args, false);
    FoldInts(1, args, true);
  }

  /** On ints and bools `-` negates a single argument and otherwise undoes `+`: adding the
      later arguments back to the difference gives the first argument again. */
  lemma SubOnInts(args: seq<Value>)
    requires AllInts(args) && |args| >= 1
    ensures |args| == 1 ==> Sub(args) == Ok(IntV(-IntOf(args[0])))
    ensures |args| >= 2 ==> Sub(args).Ok? && Sum([Sub(args).value] + args[1..]) == Ok(IntV(IntOf(args[0])))
  {
    if |args| >= 2 {
      var rest := args[1..];
      assert AllInts(rest);
      FoldInts(0, rest, false);
      var d := IntV(IntOf(args[0]) - SumInts(IntsOf(rest)));
      assert Sub(args) == Ok(d);
      var ds := [d] + rest;
      assert AllInts(ds);
      SumMultOnInts(ds);
      assert IntsOf(ds) == [IntOf(d)] + IntsOf(rest);
      SumIntsAppend([IntOf(d)], IntsOf(rest));
      assert SumInts([IntOf(d)]) == IntOf(d);
    }
  }

  /** An int divisor a float quotient can be divided by: non-zero, and convertible to a
      float. */
  predicate SafeDivisor(v: Value)
    requires IsInt(v)
  {
    0 < Abs(IntOf(v)) < FloatLimit
  }

  /** `/` on ints and bools with two or more arguments. The first division is of ints: a
      zero divisor is ZeroDivisionError, and a quotient too large for a float is
      OverflowError. Every later divisor is converted to a float, which is OverflowError
      when it is too large, and then is ZeroDivisionError when it is zero. Only when
      nothing fails is the result the float quotient, which is not modelled. */
  lemma DivOnInts(args: seq<Value>)
    requires |args| >= 2 && AllInts(args)
    ensures var x, y := IntOf(args[0]), IntOf(args[1]);
      var fits := y != 0 && Abs(x) < FloatLimit * Abs(y);
      && Div(args).Err?
      && Div(args).error in {HostError(ZeroDivisionError), HostError(OverflowError), Unmodelled}
      && (Div(args) == Err(Unmodelled) <==> fits && forall k :: 2 <= k < |args| ==> SafeDivisor(args[k]))
      && (Div(args) == Err(HostError(ZeroDivisionError)) <==>
            || y == 0
            || (&& fits
                && exists k :: 2 <= k < |args| && IntOf(args[k]) == 0
                               && forall j :: 2 <= j < k ==> Abs(IntOf(args[j])) < FloatLimit))
  {
    var ds := args[2..];
    assert AllInts(ds);
    DivLoopOnInts(ds);
    assert forall k :: 2 <= k < |args| ==> args[k] == ds[k - 2];
    var y := IntOf(args[1]);
    if y != 0 && Abs(IntOf(args[0])) < FloatLimit * Abs(y) {
      assert Div(args) == DivLoop(ds);
      ShiftedZero(args, ds);
    }
  }

  /** The ZeroDivisionError condition of `DivLoopOnInts`, read at an offset of two. */
  lemma ShiftedZero(args: seq<Value>, ds: seq<Value>)
    requires |args| >= 2 && AllInts(args) && ds == args[2..]
    ensures AllInts(ds)
    ensures (exists k :: 0 <= k < |ds| && IntOf(ds[k]) == 0 && forall j :: 0 <= j < k ==> Abs(IntOf(ds[j])) < FloatLimit)
        <==> (exists k :: 2 <= k < |args| && IntOf(args[k]) == 0 && forall j :: 2 <= j < k ==> Abs(IntOf(args[j])) < FloatLimit)
  {
    assert AllInts(ds);
    if k :| 0 <= k < |ds| && IntOf(ds[k]) == 0 && forall j :: 0 <= j < k ==> Abs(IntOf(ds[j])) < FloatLimit {
      assert args[k + 2] == ds[k];
      forall j | 2 <= j < k + 2 ensures Abs(IntOf(args[j])) < FloatLimit {
        assert args[j] == ds[j - 2];
      }
    }
    if k :| 2 <= k < |args| && IntOf(args[k]) == 0 && forall j :: 2 <= j < k ==> Abs(IntOf(args[j])) < FloatLimit {
      assert ds[k - 2] == args[k];
      forall j | 0 <= j < k - 2 ensures Abs(IntOf(ds[j])) < FloatLimit {
        assert ds[j] == args[j + 2];
      }
    }
  }

  lemma {:induction false} DivLoopOnInts(ds: seq<Value>)
    requires AllInts(ds)
    ensures DivLoop(ds).error in {HostError(ZeroDivisionError), HostError(OverflowError), Unmodelled}
    ensures DivLoop(ds) == Err(Unmodelled) <==> forall k :: 0 <= k < |ds| ==> SafeDivisor(ds[k])
    ensures DivLoop(ds) == Err(HostError(ZeroDivisionError)) <==>
      exists k :: 0 <= k < |ds| && IntOf(ds[k]) == 0 && forall j :: 0 <= j < k ==> Abs(IntOf(ds[j])) < FloatLimit
    decreases |ds|
  {
    FloatLimitPositive();
    if |ds| > 0 {
      var v := IntOf(ds[0]);
      assert AsNum(ds[0]) == Ok(I(v));
      if Abs(v) >= FloatLimit {
        assert !SafeDivisor(ds[0]);
      } else if v == 0 {
        assert !SafeDivisor(ds[0]);
      } else {
        var rest := ds[1..];
        assert AllInts(rest);
        DivLoopOnInts(rest);
        assert DivLoop(ds) == DivLoop(rest);
        assert forall k :: 1 <= k < |ds| ==> ds[k] == rest[k - 1];
        if k :| 0 <= k < |rest| && IntOf(rest[k]) == 0 && forall j :: 0 <= j < k ==> Abs(IntOf(rest[j])) < FloatLimit {
          assert IntOf(ds[k + 1]) == 0;
          assert forall j :: 0 <= j < k + 1 ==> Abs(IntOf(ds[j])) < FloatLimit;
        }
        if k :| 0 <= k < |ds| && IntOf(ds[k]) == 0 && forall j :: 0 <= j < k ==> Abs(IntOf(ds[j])) < FloatLimit {
          assert k > 0 && IntOf(rest[k - 1]) == 0;
          assert forall j :: 0 <= j < k - 1 ==> Abs(IntOf(rest[j])) < FloatLimit;
        }
      }
    }
  }

  // ---------------------------------------------------------------------------
  // `=?`, the comparisons and `not` (b_lab/lab.py:109-132)

  /** `a is b` for the objects a value stands for. */
  predicate SameObject(a: Value, b: Value) {
    match (a, b)
    case (Prim(x), Prim(y)) => x == y
    case (Closure(x, _, _, _), Closure(y, _, _, _)) => x == y
    case (ListRef(x), ListRef(y)) => x == y
    case _ => false
  }

  /** Python's `a != b`: numbers compare by value, other objects by identity. */
  function NotEqual(a: Value, b: Value): Result<bool> {
    if IsInt(a) && IsInt(b) then Ok(IntOf(a) != IntOf(b))
    else if AsNum(a).Ok? && AsNum(b).Ok? then Err(Unmodelled)
    else if AsNum(a).Ok? || AsNum(b).Ok? then Ok(true)
    else Ok(!SameObject(a, b))
  }

  /** `equals(args)`: every later argument equals the first; the loop stops at the first
      that does not. */
  function Equal(args: seq<Value>): (r: Result<Value>)
    ensures r.Ok? ==> r.value.BoolV?
  {
    if |args| == 0 then Ok(BoolV(true)) else EqualLoop(args[0], args[1..])
  }

  function EqualLoop(first: Value, rest: seq<Value>): (r: Result<Value>)
    ensures r.Ok? ==> r.value.BoolV?
    decreases |rest|
  {
    if |rest| == 0 then Ok(BoolV(true))
    else
      var ne :- NotEqual(rest[0], first);
      if ne then Ok(BoolV(false)) else EqualLoop(first, rest[1..])
  }

  /** The equivalence `=?` tests on values without floats. */
  predicate Equivalent(a: Value, b: Value) {
    if IsInt(a) && IsInt(b) then IntOf(a) == IntOf(b) else SameObject(a, b)
  }

  lemma {:induction false} EqualLoopSpec(first: Value, rest: seq<Value>)
    requires !first.FloatV? && forall k :: 0 <= k < |rest| ==> !rest[k].FloatV?
    ensures EqualLoop(first, rest) == Ok(BoolV(forall k :: 0 <= k < |rest| ==> Equivalent(rest[k], first)))
    decreases |rest|
  {
    if |rest| > 0 {
      EqualLoopSpec(first, rest[1..]);
      assert forall k :: 1 <= k < |rest| ==> rest[k] == rest[1..][k - 1];
    }
  }

  /** `=?` is true exactly when all arguments are equal to the first: numerically for ints
      and bools, by identity for everything else. */
  lemma EqualSpec(args: seq<Value>)
    requires forall k :: 0 <= k < |args| ==> !args[k].FloatV?
    ensures Equal(args) == Ok(BoolV(forall k :: 0 <= k < |args| ==> Equivalent(args[k], args[0])))
  {
    if |args| > 0 {
      EqualLoopSpec(args[0], args[1..]);
      assert forall k :: 1 <= k < |args| ==> args[k] == args[1..][k - 1];
      assert Equivalent(args[0], args[0]);
    }
  }

  datatype Comparison = Lt | Le | Gt | Ge

  /** `<`, `<=`, `>`, `>=`: compare `args` with `sorted(set(args))` (strict ones) or
      `sorted(args)`, in reverse for `>` and `>=`. Sorting compares every element once there
      are two or more, and only numbers are ordered; `set` merges equal numbers and the same
      object. */
  function Compare(c: Comparison, args: seq<Value>): Result<Value> {
    var strict, desc := c == Lt || c == Gt, c == Gt || c == Ge;
    if exists k :: 0 <= k < |args| && AsNum(args[k]).Err? then
      // a value `sorted` cannot order: harmless only when nothing gets compared
      if |args| <= 1 then Ok(BoolV(true))
      else if strict && forall k :: 0 <= k < |args| ==> SameObject(args[k], args[0]) then Ok(BoolV(false))
      else Err(HostError(TypeError))
    else if !AllInts(args) then
      if |args| <= 1 then Ok(BoolV(true)) else Err(Unmodelled)
    else
      var ns := IntsOf(args);
      Ok(BoolV(if strict then ns == Sort(Dedup(ns), desc) else ns == Sort(ns, desc)))
  }

  /** On ints and bools the comparisons hold exactly when the arguments are strictly
      increasing (`<`), non-decreasing (`<=`), strictly decreasing (`>`) or non-increasing
      (`>=`). */
  lemma CompareOnInts(args: seq<Value>)
    requires AllInts(args)
    ensures Compare(Lt, args) == Ok(BoolV(StrictlySorted(IntsOf(args), false)))
    ensures Compare(Gt, args) == Ok(BoolV(StrictlySorted(IntsOf(args), true)))
    ensures Compare(Le, args) == Ok(BoolV(Sorted(IntsOf(args), false)))
    ensures Compare(Ge, args) == Ok(BoolV(Sorted(IntsOf(args), true)))
  {
    CompareOnIntsBy(Lt, args);
    CompareOnIntsBy(Gt, args);
    CompareOnIntsBy(Le, args);
    CompareOnIntsBy(Ge, args);
  }

  lemma CompareOnIntsBy(c: Comparison, args: seq<Value>)
    requires AllInts(args)
    ensures var strict, desc := c == Lt || c == Gt, c == Gt || c == Ge;
      Compare(c, args) == Ok(BoolV(if strict then StrictlySorted(IntsOf(args), desc) else Sorted(IntsOf(args), desc)))
  {
    var strict, desc := c == Lt || c == Gt, c == Gt || c == Ge;
    assert !exists k :: 0 <= k < |args| && AsNum(args[k]).Err? by {
      forall k | 0 <= k < |args| ensures AsNum(args[k]).Ok? {
        assert IsInt(args[k]);
      }
    }
    var ns := IntsOf(args);
    if strict {
      SortSetFixedIff(ns, desc);
    } else {
      SortFixedIff(ns, desc);
    }
  }

  /** Python truthiness: zero and False are false, a list is false when empty (`__len__`
      walks it), functions are true. */
  function Truth(h: map<nat, Cell>, v: Value): Result<bool>
    requires Linked(h) && (v.ListRef? ==> v.loc in h)
  {
    match v
    case IntV(i) => Ok(i != 0)
    case BoolV(b) => Ok(b)
    case FloatV(_) => Err(Unmodelled)
    case Prim(_) => Ok(true)
    case Closure(_, _, _, _) => Ok(true)
    case ListRef(l) =>
      var n :- Lists.Len(h, l);
      Ok(n != 0)
  }

  /** A list is true exactly when it has elements. */
  lemma TruthOfList(h: map<nat, Cell>, locs: seq<nat>, vals: seq<Value>)
    requires Linked(h) && Lists.IsPath(h, locs, vals)
    ensures Truth(h, ListRef(locs[0])) == Ok(|vals| != 0)
  {
    Lists.ElementsOfPath(h, locs, vals);
  }

  /** `not_op(args)`. */
  function Not(h: map<nat, Cell>, args: seq<Value>): Result<Value>
    requires Linked(h) && forall k :: 0 <= k < |args| ==> args[k].ListRef? ==> args[k].loc in h
  {
    if |args| == 0 then Err(HostError(IndexError))
    else
      var t :- Truth(h, args[0]);
      Ok(BoolV(!t))
  }

  /** `not` negates truthiness: an int is negated by being zero, and a list by being empty. */
  lemma NotNegates(h: map<nat, Cell>, locs: seq<nat>, vals: seq<Value>, i: int)
    requires Linked(h) && Lists.IsPath(h, locs, vals)
    ensures Not(h, [ListRef(locs[0])]) == Ok(BoolV(|vals| == 0))
    ensures Not(h, [IntV(i)]) == Ok(BoolV(i == 0))
    ensures Not(h, []) == Err(HostError(IndexError))
  {
    TruthOfList(h, locs, vals);
  }

  // ---------------------------------------------------------------------------
  // Dispatch

  predicate ArgsValid(args: seq<Value>, st: State) {
    forall k :: 0 <= k < |args| ==> ValidIn(args[k], st)
  }

  /** Applying a builtin to evaluated operands. Only `list` and `concat` change the store. */
  function CallBuiltin(op: Builtin, args: seq<Value>, st: State): (o: Outcome)
    requires WF(st) && ArgsValid(args, st)
    ensures WF(o.st) && Grows(st, o.st) && o.st.frames == st.frames
    ensures o.result.Ok? ==> ValidIn(o.result.value, o.st)
    ensures op != MakeList && op != Concat ==> o.st == st
  {
    WFLinked(st);
    assert forall k :: 0 <= k < |args| ==> args[k].ListRef? ==> args[k].loc in st.heap by {
      forall k | 0 <= k < |args| ensures args[k].ListRef? ==> args[k].loc in st.heap {
        assert ValidIn(args[k], st);
      }
    }
    match op
    case Add => Outcome(Sum(args), st)
    case Subtract => Outcome(Sub(args), st)
    case Multiply => Outcome(Mult(args), st)
    case Divide => Outcome(Div(args), st)
    case Equal => Outcome(Equal(args), st)
    case Greater => Outcome(Compare(Gt, args), st)
    case GreaterEq => Outcome(Compare(Ge, args), st)
    case Less => Outcome(Compare(Lt, args), st)
    case LessEq => Outcome(Compare(Le, args), st)
    case Not => Outcome(Not(st.heap, args), st)
    case MakeList =>
      var (st', head) := Lists.ListInit(st, args);
      Outcome(Ok(ListRef(head)), st')
    case Car =>
      var r := Lists.Car(st.heap, args);
      assert r.Ok? ==> ValidIn(r.value, st) by {
        if r.Ok? { assert CellValidIn(st.heap[args[0].loc], st); }
      }
      Outcome(r, st)
    case Cdr =>
      var r := Lists.Cdr(st.heap, args);
      assert r.Ok? ==> ValidIn(r.value, st) by {
        if r.Ok? { assert CellValidIn(st.heap[args[0].loc], st); }
      }
      Outcome(r, st)
    case Length => Outcome(Lists.Length(st.heap, args), st)
    case EltAt =>
      var r := Lists.EltAtIndex(st.heap, args);
      assert r.Ok? ==> ValidIn(r.value, st) by {
        if r.Ok? {
          var k :| k in st.heap && st.heap[k].Cons? && st.heap[k].elt == r.value;
          assert CellValidIn(st.heap[k], st);
        }
      }
      Outcome(r, st)
    case Concat => Lists.Concatenate(st, args)
  }
}
