# Carlae interpreter, modelled in Dafny

Carlae is a small Lisp. Its interpreter turns a program into a value in five steps:

1. `tokenize` strips `;` comments, pads parentheses with spaces and splits on whitespace.
2. `is_valid_parse` checks that the parentheses balance.
3. `parsing`/`parse` build a nested expression whose leaves are ints, floats and symbols.
4. `result_and_env` evaluates the expression in a chain of environments.
5. The builtins dictionary supplies arithmetic, comparisons, `not`, and singly linked lists
   (`list`, `car`, `cdr`, `length`, `elt-at-index`, `concat`).

Two versions exist:

- `b_lab/lab.py` is the full one. It adds `if`, `and`, `or`, the comparisons and lists.
- `a_lab/lab.py` is the earlier one. It has only `define`, `lambda`, application and `+ - * /`.
  It also checks `lambda` before a nested head.

One evaluator models both, parameterised by `Dialect` (`Early` for a_lab, `Full` for b_lab).

## How the model is built

Everything is a pure function over an explicit store, `State(frames, heap, next)`:

- **Frames.** A frame id maps to a symbol table and a parent. The parent is an older frame,
  or `Root`, which stands for the builtins dictionary.
- **Heap.** A location maps to a list node: the empty sentinel `Empty` (the source's
  `List('None', 'None')`), or `Cons(elt, next)`.
- **`next`.** One counter hands out frame ids, node locations and function identities.
  Python compares lists and functions by identity.

Sharing works as in the source:

- A closure refers to the frame it was defined in by id, so recursive `define` works.
- `concat` really mutates its first argument.

Evaluation returns an `Outcome(result, store)`. The store after a failed step keeps the
changes made before the failure, as Python does.

Errors are a `Result` with these cases:

- `SyntaxError` and `EvaluationError`: the source's own errors.
- `HostError(IndexError | TypeError | AttributeError | ZeroDivisionError | OverflowError)`: Python's
  exceptions, which the source lets escape.
- `Diverges`: a walk around a cyclic list, where Python would never terminate.
- `Unmodelled`: any result that needs floating point.
- `OutOfFuel`.

The evaluator takes a fuel argument. `FuelLaws.RunMono` proves that a result other than
`OutOfFuel` does not depend on the fuel.

Modules:

| file | module | source |
|---|---|---|
| `errors.dfy`, `seqs.dfy` | `Errors`, `Seqs` | shared vocabulary |
| `lexer.dfy` | `Lexer` | `tokenize` |
| `literals.dfy` | `Literals` | what `int()`/`float()` accept |
| `parser.dfy` | `Parser` | `is_valid_parse`, `parsing`, `parse` |
| `values.dfy` | `Values` | values, list nodes, frames, the store |
| `lists.dfy` | `Lists` | class `List`, `list_init`, `concatenate`, `car`, `cdr`, `list_len`, `elt_at_ind` |
| `sorting.dfy` | `Sorting` | `sorted`, `set` as the comparisons use them |
| `builtins.dfy` | `Builtins` | `sum`, `sub`, `mult`, `div`, `equals`, comparisons, `not_op`, dispatch |
| `environment.dfy` | `Environment` | class `Environment`, the builtins dictionaries |
| `evaluator.dfy` | `Evaluator` | `result_and_env`, `Function.__call__`/`Lambda.__call__`, `evaluate` |
| `eval_laws.dfy` | `EvalLaws` | laws of the special forms and of application |
| `fuel.dfy` | `FuelLaws` | fuel monotonicity |

## Model

| member | source | states |
|---|---|---|
| `Lexer.Tokenize` | b_lab/lab.py:10-20 | every token is non-empty, holds no whitespace and no `;`, and a token holding a parenthesis is that parenthesis alone |
| `Lexer.StripComment` | b_lab/lab.py:14-16 | the kept part of a line is the text before its first `;`; a line without `;` is kept whole |
| `Lexer.SplitLinesJoin` | b_lab/lab.py:12-18 | splitting on newlines and joining the lines again restores the text |
| `Lexer.TokensCoverProgram` | b_lab/lab.py:10-20 | the tokens, concatenated, are exactly the non-blank characters of the program once comments are removed: nothing is lost, nothing invented |
| `Lexer.TokenizeJoined` | b_lab/lab.py:18-20 | tokens of that shape, joined by spaces, tokenize back to themselves |
| `Literals.ShowIntRoundTrip` | b_lab/lab.py:45-50 | the decimal text of any integer has no `.`, is an int literal, and `int()` reads it back as that integer |
| `Parser.IsValidParse` | b_lab/lab.py:23-34 | true exactly when the running count of `(` minus `)` never goes negative and ends at 0 |
| `Parser.ClassifyShowInt` | b_lab/lab.py:43-52 | the decimal text of any int is read back as that int |
| `Parser.ClassifyNameStart` | b_lab/lab.py:64-71 | a token that starts with neither a sign, a `.` nor a digit is a symbol |
| `Parser.ClassifyDecimal` | b_lab/lab.py:64-71 | digits, a `.`, then digits make a float |
| `Parser.Parsing` | b_lab/lab.py:38-75 | a successful parse consumes a non-empty prefix of the tokens; the only failure is IndexError |
| `Parser.Parse` | b_lab/lab.py:78-82 | SyntaxError exactly when the parentheses do not balance; balanced input fails only with IndexError; a single token is its classified atom |
| `Parser.ParseAtomForm` | b_lab/lab.py:53-75 | `( a1 … an )` over atoms parses to the list of classified atoms and consumes exactly through the matching `)` |
| `Parser.ParseSerialized` | b_lab/lab.py:38-82 | parsing the token list of a well-formed expression gives that expression back |
| `Parser.PrintParseRoundTrip` | b_lab/lab.py:10-82 | printing a well-formed expression, tokenizing and parsing the text gives the expression back |
| `Lists.WalkIsPath` | b_lab/lab.py:272-276 | a walk that ends at the sentinel visited distinct nodes, each linked to the next, ending in `Empty` |
| `Lists.ElementsOfPath` | b_lab/lab.py:272-292 | iterating a well-formed list yields its elements in order, and `len` is their number |
| `Lists.GetItemSpec` | b_lab/lab.py:278-284 | `lst[i]` is the i-th element for 0 ≤ i < len and EvaluationError for every other integer |
| `Lists.TailOfPath` | b_lab/lab.py:264-270 | `get_tail` of a non-empty list is its last node |
| `Lists.ListInit` | b_lab/lab.py:134-138 | `list_init` lays out fresh nodes holding the arguments in order, ending in a fresh sentinel, and changes no existing node or frame |
| `Lists.ListInitElements` | b_lab/lab.py:134-138 | iterating `list_init(xs)` yields `xs`, and its length is `len(xs)` |
| `Lists.Concatenate` | b_lab/lab.py:161-163 | with no arguments `concatenate` returns a fresh empty list |
| `Lists.ConcatOneSplices` | b_lab/lab.py:256-270 | `concat` links the second list after the last node of the first, so the first now holds both lists' elements, and no node outside the first list changes |
| `Lists.ConcatenateSplices` | b_lab/lab.py:164-170 | with two or more pairwise disjoint lists the result is the first argument itself, now holding all the arguments' elements in order |
| `Lists.ConcatenateCopies` | b_lab/lab.py:164-166 | with one argument the result is a fresh head node with the same elements, and the argument still holds its own |
| `Lists.ListAccessors` | b_lab/lab.py:140-159 | on a well-formed list: `car` is the first element, `cdr` the list of the rest, `length` the count, `elt-at-index` the i-th element; `car`/`cdr` of the empty list and out-of-range indices are EvaluationErrors |
| `Sorting.Sort` | b_lab/lab.py:120 | `sorted` returns an ordered permutation of its argument |
| `Sorting.Dedup` | b_lab/lab.py:116 | the elements of `set(args)`: no repetitions, and the same members as the arguments |
| `Sorting.SortedUnique` | b_lab/lab.py:120 | two ordered sequences with the same elements are equal, so `sorted` has only one possible result |
| `Sorting.SortFixedIff` | b_lab/lab.py:119-121 | a sequence equals its sorted form exactly when it is already in order |
| `Sorting.SortSetFixedIff` | b_lab/lab.py:123-125 | a sequence equals the sorted form of its set exactly when it is strictly in order |
| `Builtins.FoldNums` | b_lab/lab.py:94-98 | a non-number always makes the fold fail; it fails only with TypeError, which needs a non-number, or OverflowError, which needs a float; with no float it never overflows; a result is a float exactly when some argument is one |
| `Builtins.FoldNumsAppend` | b_lab/lab.py:94-98 | folding over `a + b` is folding over `a` and continuing over `b`, so the first failing step decides the error |
| `Builtins.FoldNumsOne` | b_lab/lab.py:94-98 | one step: TypeError for a non-number, and OverflowError exactly when an int of magnitude at least 2^1024 - 2^970 meets a float |
| `Builtins.OverflowBeforeTypeError` | b_lab/lab.py:88-98 | `(+ 1.5 N l)`, `(* 1.5 N l)` and `(- l 1.5 N)`, where N is that large and l is a list, raise OverflowError before the list is reached |
| `Builtins.SumMultOnInts` | b_lab/lab.py:94-98 | on ints and bools `+` is the integer sum and `*` the product, `1` for no arguments |
| `Builtins.SubOnInts` | b_lab/lab.py:88-92 | `-` negates one argument; otherwise adding the later arguments back to the result gives the first |
| `Builtins.Div` | b_lab/lab.py:100-107 | `/` of one argument is 1, whatever it is; with two or more it never produces an int |
| `Builtins.DivOnInts` | b_lab/lab.py:100-107 | on ints and bools, `/` fails in the first step that fails: ZeroDivisionError for a zero divisor, OverflowError for a first quotient or a later divisor too large for a float; with no failure the result is a float |
| `Builtins.EqualSpec` | b_lab/lab.py:109-113 | `=?` is true exactly when every argument equals the first, so no argument or one gives true |
| `Builtins.CompareOnInts` | b_lab/lab.py:115-129 | on ints and bools `<`, `<=`, `>`, `>=` hold exactly when the arguments are strictly increasing, non-decreasing, strictly decreasing or non-increasing |
| `Builtins.TruthOfList` | b_lab/lab.py:286-292 | a list is true exactly when it is non-empty |
| `Builtins.NotNegates` | b_lab/lab.py:131-132 | `not` is true exactly for zero and for the empty list; with no argument it is IndexError |
| `Builtins.CallBuiltin` | b_lab/lab.py:173-194 | a builtin never touches a frame, and only `list` and `concat` touch the heap |
| `Environment.RootLookup` | b_lab/lab.py:221-225 | the last step of a lookup: a name is found exactly when the dialect's builtins dictionary (`Environment.Builtins`, b_lab/lab.py:173-194 and a_lab/lab.py:105-111) has it, as the value stored there; otherwise EvaluationError |
| `Environment.Chain` | a_lab/lab.py:130-137 | from any frame, the parent links reach the builtins |
| `Environment.LookupInnermost` | a_lab/lab.py:130-137 | a lookup returns the binding of the innermost frame on the chain that binds the name |
| `Environment.LookupFallsThrough` | a_lab/lab.py:134-142 | a name no frame binds comes from the builtins, or is an EvaluationError |
| `Environment.Bind` | a_lab/lab.py:126-127 | `env[k] = v` changes only the table of that frame; a list as key is TypeError |
| `Environment.BindLookup` | a_lab/lab.py:126-142 | after `env[k] = v`, `k` looks up to `v` and every other name as before |
| `Environment.NewFrameLookup` | a_lab/lab.py:119-123 | a new environment binds nothing, so lookups fall through to its parent |
| `Evaluator.Eval` | b_lab/lab.py:304-319 | evaluation writes no frame but the current one and fresh ones, and its value lives in the store |
| `Evaluator.EvalNested` | b_lab/lab.py:337-339 | a nested head and the call it makes write no frame but the current one and fresh ones |
| `Evaluator.EvalNamed` | b_lab/lab.py:369-375 | a call by name writes no frame but the current one and fresh ones |
| `Evaluator.AndLoop` | b_lab/lab.py:353-358 | `and` yields a boolean, and writes no frame but the current one |
| `Evaluator.EvalOperands` | b_lab/lab.py:370-373 | one value per operand |
| `Evaluator.BindParams` | b_lab/lab.py:244-246 | parameter binding fails exactly when some parameter is a list, with TypeError |
| `Evaluator.Apply` | b_lab/lab.py:236-248 | a call leaves every frame that existed before it unchanged |
| `EvalLaws.AtomsEvaluate` | b_lab/lab.py:314-319 | a number evaluates to itself, a symbol to its binding, and neither changes the store |
| `EvalLaws.MalformedForms` | b_lab/lab.py:308-313 | `()` and a form headed by a number are EvaluationErrors, with nothing evaluated |
| `EvalLaws.DefineBinds` | a_lab/lab.py:199-202 | `(define name e)` evaluates `e` in the current frame, binds `name` there to the value and returns it; other frames and names are unchanged |
| `EvalLaws.DefineShorthand` | a_lab/lab.py:195-198 | `(define (f p…) body)` behaves as `(define f (lambda (p…) body))` |
| `EvalLaws.LambdaClosure` | a_lab/lab.py:205-206 | `lambda` returns a fresh closure over the current frame without evaluating its body |
| `EvalLaws.IfSelects` | b_lab/lab.py:346-349 | `if` evaluates the test and then exactly the branch it selects |
| `EvalLaws.IfWithoutElse` | b_lab/lab.py:346-349 | a false test with no else branch is IndexError |
| `EvalLaws.AndAppend` | b_lab/lab.py:353-358 | `and` stops at the first false operand and evaluates nothing after it |
| `EvalLaws.OrAppend` | b_lab/lab.py:362-367 | `or` stops at the first true operand and evaluates nothing after it |
| `EvalLaws.AndOrSingle` | b_lab/lab.py:353-367 | with one operand, `and` and `or` give that operand's truth value |
| `EvalLaws.OperandsAppend` | b_lab/lab.py:370-373 | operands are evaluated left to right, each in the store the previous ones left; the first error stops the rest |
| `EvalLaws.CallOrder` | a_lab/lab.py:213-219 | the operator is looked up first: unbound, nothing else happens; bound, the operands are evaluated and the function applied to their values |
| `EvalLaws.NestedHeadBinds` | a_lab/lab.py:209-211 | a form as head is evaluated and left bound to `temp_func` in the current frame |
| `EvalLaws.NestedCallOrder` | a_lab/lab.py:209-219 | `((head) operands…)`: an error in the head ends the call; otherwise the head's value is bound to `temp_func` and called with the operands' values |
| `EvalLaws.BindParamsTable` | a_lab/lab.py:162-163 | binding parameters writes the table of one-by-one assignments into the frame, and nothing else |
| `EvalLaws.BindAllPositional` | a_lab/lab.py:162-163 | with distinct parameter names, the k-th name is bound to the k-th argument |
| `EvalLaws.ApplyClosureRejects` | a_lab/lab.py:155-158 | a wrong argument count is an EvaluationError before any frame is made; a number as parameter list is TypeError |
| `EvalLaws.ApplyClosureRuns` | a_lab/lab.py:155-165 | otherwise the body runs in one new frame, child of the captured frame (not the caller's), binding the parameters to the arguments |
| `EvalLaws.CallFrameLookup` | a_lab/lab.py:160-165 | in that frame each parameter looks up to its argument and every other name as in the captured frame |
| `FuelLaws.EvalMono` | b_lab/lab.py:304-375 | an evaluation that does not run out of fuel ends the same way with more fuel |
| `FuelLaws.RunMono` | b_lab/lab.py:378-379 | a whole run's result other than `OutOfFuel` does not depend on the fuel |

## Left out

- The REPL loops under `__main__` (b_lab/lab.py:384-398, a_lab/lab.py:226-240) and the
  debug `print('hi')` in `car`. They are console I/O only.
- Floating point.
  - A float literal is kept as its text.
  - Any arithmetic, comparison, index or truth test that involves a float is `Unmodelled`,
    unless it fails first. `+`, `-`, `*` and `/` do model the OverflowError that Python
    raises when it converts an int too large for a float (magnitude 2^1024 - 2^970 or
    more) to meet a float operand.
  - So is every multi-argument `/` that does not fail first, because true division always
    yields a float.
- `Builtins.Div`: with two or more arguments it states only that no int comes out. The
  float quotient is not computed. When a float operand is involved, whether a float
  divisor is zero is not modelled either. For ints the errors are modelled in full: see
  `Builtins.DivOnInts`.
- The full literal grammar of Python's `int()`/`float()`. Non-ASCII digits are not
  modelled. Underscores, signs, exponents, `inf` and `nan` are.
- `Parser.Classify`: does not model the limit of 4300 digits that Python 3.11 and later
  put on `int()` of a decimal string. Under that limit, the bare `except` in the source
  (b_lab/lab.py:49, 68) turns a longer int token into a symbol, while the model reads it
  as an int. The limit depends on the Python version and its settings, so the model uses
  the unlimited reading.
- Python's recursion limit. The evaluator's fuel stands in for it, and for programs that
  never terminate. `OutOfFuel` is where the source would go on or raise `RecursionError`.
- A number used as a name (`(define 5 1)`, a number among `lambda` parameters). Python
  stores it under a key that no symbol lookup can reach, so the model binds nothing.
- `Lists.ConcatenateSplices` assumes the lists are pairwise disjoint.
  - Passing the same list twice makes it cyclic in the source.
  - Later walks of a cyclic list are `Diverges` in the model.
- `Lists.ListAccessors` and the other list laws are stated for lists reached through
  `list`-built nodes. A `cdr` or a `concat` can also produce a node whose next is not a
  list; the functions model that case (AttributeError) but no law is stated for it.
- The in-place rewrite of the syntax tree by `(define (f …) …)` (b_lab/lab.py:328-329).
  Evaluating the rewritten tree again means the same thing, so the model rewrites a copy.
- `parse` ignores tokens after the first complete expression, as the source does. No
  property is stated about the leftover tokens.

Two behaviours of the code are easy to miss:

- **`concat` does not copy.**
  - `concatenate` (b_lab/lab.py:161-170) returns `args[0]` itself, spliced in place.
  - `List.concat` (b_lab/lab.py:256-262) links the later lists in without copying them.
  - So the first argument is mutated and shares its nodes with the later ones.
- **The operator is looked up before the operands are evaluated.** `EvalLaws.CallOrder`
  states this order (a_lab/lab.py:215-217, b_lab/lab.py:371-373). So an unbound operator
  fails before any operand's side effect.
