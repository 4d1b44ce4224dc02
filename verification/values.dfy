/** Runtime values and the store they live in.

    Python objects that are shared and mutated by reference become entries of an explicit
    store: environments (`Environment`, b_lab/lab.py:201-225) are frames addressed by id,
    list nodes (`List`, b_lab/lab.py:251-292) are cells addressed by location, and one
    counter hands out frame ids, cell locations and closure identities. */
module Values {
  import opened Errors
  import opened Parser

  /** The two versions of the interpreter: a_lab (`define`, `lambda` and calls over
      `+ - * /`) and b_lab (adds `if`, `and`, `or`, comparisons, booleans and lists). */
  datatype Dialect = Early | Full

  /** The Python functions of the builtins dictionary (b_lab/lab.py:173-194). */
  datatype Builtin =
    | Add | Subtract | Multiply | Divide
    | Equal | Greater | GreaterEq | Less | LessEq | Not
    | MakeList | Car | Cdr | Length | EltAt | Concat

  datatype Value =
    | IntV(i: int)
    | FloatV(lexeme: string)
    | BoolV(b: bool)
    | Prim(op: Builtin)
    /** A `Function` object; `id` is its identity, `env` the frame it was created in. */
    | Closure(id: nat, params: Expr, body: Expr, env: nat)
    /** A reference to a `List` node. */
    | ListRef(loc: nat)

  /** A `List` node: the empty sentinel (`elt == 'None'`) or an element and a next node.
      `next` is any value, because `concat` links whatever it is given. */
  datatype Cell = Empty | Cons(elt: Value, next: Value)

  datatype Parent = Root | Enclosing(id: nat)

  /** An `Environment`: its own symbol table and its parent (the builtins when Root). */
  datatype Frame = Frame(table: map<string, Value>, parent: Parent)

  datatype State = State(frames: map<nat, Frame>, heap: map<nat, Cell>, next: nat)

  /** What a builtin or an evaluation step produces: a value or an error, and the store as
      it is afterwards (changes made before an error stay, as they do in the source). */
  datatype Outcome = Outcome(result: Result<Value>, st: State)

  /** Every reference in `v` points into the store. */
  predicate ValidIn(v: Value, st: State) {
    match v
    case ListRef(l) => l in st.heap
    case Closure(id, _, _, env) => id < st.next && env in st.frames
    case _ => true
  }

  predicate CellValidIn(c: Cell, st: State) {
    c.Cons? ==> ValidIn(c.elt, st) && ValidIn(c.next, st)
  }

  predicate ParentOk(frames: map<nat, Frame>, k: nat)
    requires k in frames
  {
    match frames[k].parent
    case Root => true
    case Enclosing(p) => p in frames && p < k
  }

  /** The store invariant: ids are below the counter, parents are older frames, and every
      value held anywhere points into the store. */
  predicate WF(st: State) {
    && (forall k :: k in st.frames ==> k < st.next && ParentOk(st.frames, k))
    && (forall k :: k in st.heap ==> k < st.next && CellValidIn(st.heap[k], st))
    && (forall k, n :: k in st.frames && n in st.frames[k].table ==> ValidIn(st.frames[k].table[n], st))
  }

  /** Every cell whose next is a list reference points at a cell of the heap. */
  predicate Linked(h: map<nat, Cell>) {
    forall k :: k in h && h[k].Cons? && h[k].next.ListRef? ==> h[k].next.loc in h
  }

  lemma WFLinked(st: State)
    requires WF(st)
    ensures Linked(st.heap)
  {
    forall k | k in st.heap && st.heap[k].Cons? && st.heap[k].next.ListRef?
      ensures st.heap[k].next.loc in st.heap
    {
      assert CellValidIn(st.heap[k], st);
    }
  }

  /** `st2` extends `st1`: nothing is deallocated, no frame changes its parent. */
  predicate Grows(st1: State, st2: State) {
    && st1.next <= st2.next
    && st1.heap.Keys <= st2.heap.Keys
    && (forall k :: k in st1.frames ==> k in st2.frames && st2.frames[k].parent == st1.frames[k].parent)
  }

  lemma ValidGrows(v: Value, st1: State, st2: State)
    requires ValidIn(v, st1) && Grows(st1, st2)
    ensures ValidIn(v, st2)
  {
  }

  /** Replacing a cell by one whose references point into the store keeps the invariant. */
  lemma SetCellWF(st: State, k: nat, c: Cell)
    requires WF(st) && k in st.heap && CellValidIn(c, st)
    ensures WF(st.(heap := st.heap[k := c]))
  {
    var st2 := st.(heap := st.heap[k := c]);
    assert st2.heap.Keys == st.heap.Keys;
    forall v: Value | ValidIn(v, st)
      ensures ValidIn(v, st2)
    {
    }
  }

  /** Adding a cell at the counter and advancing it keeps the invariant. */
  lemma AllocCellWF(st: State, c: Cell)
    requires WF(st) && CellValidIn(c, st)
    ensures WF(st.(heap := st.heap[st.next := c], next := st.next + 1))
    ensures Grows(st, st.(heap := st.heap[st.next := c], next := st.next + 1))
  {
    var st2 := st.(heap := st.heap[st.next := c], next := st.next + 1);
    forall v: Value | ValidIn(v, st)
      ensures ValidIn(v, st2)
    {
    }
  }

  /** A store holding one empty global environment (`Environment()`), frame 0. */
  function Initial(): (st: State)
    ensures WF(st) && 0 in st.frames
  {
    State(map[0 := Frame(map[], Root)], map[], 1)
  }
}
