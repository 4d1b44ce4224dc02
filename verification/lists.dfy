/** The cons list `List` (b_lab/lab.py:251-292) and the list builtins built on it
    (`list_init`, `car`, `cdr`, `list_len`, `elt_at_ind`, `concatenate`, lines 134-170).

    Nodes are cells of the heap. A traversal follows `next` references until it meets the
    empty sentinel; since `concat` can make a list run into itself, every traversal keeps
    the set of cells it has passed, and coming back to one of them means the source's
    `while` loop never ends (`Diverges`). */
module Lists {
  import opened Errors
  import opened Seqs
  import opened Values

  /** The elements of a list and the cells holding them (the sentinel last). */
  datatype Path = Path(vals: seq<Value>, locs: seq<nat>)

  /** `locs` are distinct cells, the first |vals| holding `vals` in order and each linking
      to the next, the last one the empty sentinel. */
  predicate IsPath(h: map<nat, Cell>, locs: seq<nat>, vals: seq<Value>) {
    && |locs| == |vals| + 1
    && Distinct(locs)
    && (forall i :: 0 <= i < |locs| ==> locs[i] in h)
    && (forall i :: 0 <= i < |vals| ==> h[locs[i]] == Cons(vals[i], ListRef(locs[i + 1])))
    && h[locs[|vals|]] == Empty
  }

  /** The node-by-node walk of `__iter__` / `__len__` (lines 272-292). */
  function Walk(h: map<nat, Cell>, loc: nat, visited: set<nat>): (r: Result<Path>)
    requires Linked(h) && loc in h
    decreases h.Keys - visited
  {
    if loc in visited then Err(Diverges)
    else
      match h[loc]
      case Empty => Ok(Path([], [loc]))
      case Cons(e, ListRef(n)) =>
        (match Walk(h, n, visited + {loc})
         case Err(err) => Err(err)
         case Ok(p) => Ok(Path([e] + p.vals, [loc] + p.locs)))
      case Cons(_, _) => Err(HostError(AttributeError))
  }

  /** The elements `for x in lst` yields. */
  function Elements(h: map<nat, Cell>, loc: nat): Result<seq<Value>>
    requires Linked(h) && loc in h
  {
    var p :- Walk(h, loc, {});
    Ok(p.vals)
  }

  /** `len(lst)`. */
  function Len(h: map<nat, Cell>, loc: nat): Result<nat>
    requires Linked(h) && loc in h
  {
    var p :- Walk(h, loc, {});
    Ok(|p.vals|)
  }

  lemma {:induction false} WalkIsPath(h: map<nat, Cell>, loc: nat, visited: set<nat>)
    requires Linked(h) && loc in h && Walk(h, loc, visited).Ok?
    ensures var p := Walk(h, loc, visited).value;
      IsPath(h, p.locs, p.vals) && p.locs[0] == loc
      && forall i :: 0 <= i < |p.locs| ==> p.locs[i] !in visited
    decreases h.Keys - visited
  {
    var p := Walk(h, loc, visited).value;
    if h[loc].Cons? {
      var n := h[loc].next.loc;
      WalkIsPath(h, n, visited + {loc});
      var q := Walk(h, n, visited + {loc}).value;
      assert p.locs == [loc] + q.locs && p.vals == [h[loc].elt] + q.vals;
      forall i | 0 <= i < |p.vals|
        ensures h[p.locs[i]] == Cons(p.vals[i], ListRef(p.locs[i + 1]))
      {
        if i > 0 {
          assert p.locs[i] == q.locs[i - 1] && p.locs[i + 1] == q.locs[i];
        }
      }
      forall i | 0 <= i < |p.locs|
        ensures p.locs[i] in h && p.locs[i] !in visited
      {
        if i > 0 {
          assert p.locs[i] == q.locs[i - 1];
        }
      }
      assert Distinct(p.locs) by {
        forall i, j | 0 <= i < j < |p.locs|
          ensures p.locs[i] != p.locs[j]
        {
          assert p.locs[j] == q.locs[j - 1];
          if i > 0 {
            assert p.locs[i] == q.locs[i - 1];
          }
        }
      }
      assert h[p.locs[|p.vals|]] == Empty by {
        assert p.locs[|p.vals|] == q.locs[|q.vals|];
      }
    } else {
      assert p.locs == [loc];
    }
  }

  lemma {:induction false} PathWalk(h: map<nat, Cell>, locs: seq<nat>, vals: seq<Value>, visited: set<nat>)
    requires Linked(h) && IsPath(h, locs, vals)
    requires forall i :: 0 <= i < |locs| ==> locs[i] !in visited
    ensures Walk(h, locs[0], visited) == Ok(Path(vals, locs))
    decreases |vals|
  {
    if |vals| > 0 {
      assert h[locs[0]] == Cons(vals[0], ListRef(locs[1]));
      var locs', vals' := locs[1..], vals[1..];
      forall i | 0 <= i < |vals'|
        ensures h[locs'[i]] == Cons(vals'[i], ListRef(locs'[i + 1]))
      {
        assert locs'[i] == locs[i + 1] && locs'[i + 1] == locs[i + 2];
      }
      forall i | 0 <= i < |locs'|
        ensures locs'[i] !in visited + {locs[0]}
      {
        assert locs'[i] == locs[i + 1];
      }
      PathWalk(h, locs', vals', visited + {locs[0]});
      assert locs[0] !in visited;
      assert Walk(h, locs[0], visited) == Ok(Path([vals[0]] + vals', [locs[0]] + locs'));
      assert [locs[0]] + locs' == locs && [vals[0]] + vals' == vals;
    } else {
      assert locs == [locs[0]];
    }
  }

  /** The elements of a list are the values along its path, and nothing else: the walk
      succeeds exactly on well-terminated, non-cyclic lists. */
  lemma ElementsOfPath(h: map<nat, Cell>, locs: seq<nat>, vals: seq<Value>)
    requires Linked(h) && IsPath(h, locs, vals)
    ensures Elements(h, locs[0]) == Ok(vals)
    ensures Len(h, locs[0]) == Ok(|vals|)
  {
    PathWalk(h, locs, vals, {});
  }

  /** A path only depends on the cells along it. */
  lemma PathFrame(h: map<nat, Cell>, h': map<nat, Cell>, locs: seq<nat>, vals: seq<Value>)
    requires IsPath(h, locs, vals)
    requires forall i :: 0 <= i < |locs| ==> locs[i] in h' && h'[locs[i]] == h[locs[i]]
    ensures IsPath(h', locs, vals)
  {
  }

  // ---------------------------------------------------------------------------
  // `__getitem__`

  /** `for i in range(index): current = current.next_node` followed by `current.elt`. */
  function Nth(h: map<nat, Cell>, loc: nat, i: nat): (r: Result<Value>)
    requires Linked(h) && loc in h
    ensures r.Ok? ==> exists k :: k in h && h[k].Cons? && h[k].elt == r.value
    decreases i
  {
    match h[loc]
    case Empty => Err(HostError(AttributeError))  // not reached after the length check
    case Cons(e, next) =>
      if i == 0 then Ok(e)
      else if next.ListRef? then Nth(h, next.loc, i - 1)
      else Err(HostError(AttributeError))
  }

  lemma {:induction false} NthOfPath(h: map<nat, Cell>, locs: seq<nat>, vals: seq<Value>, i: nat)
    requires Linked(h) && IsPath(h, locs, vals) && i < |vals|
    ensures Nth(h, locs[0], i) == Ok(vals[i])
    decreases i
  {
    if i > 0 {
      var locs', vals' := locs[1..], vals[1..];
      forall j | 0 <= j < |vals'|
        ensures h[locs'[j]] == Cons(vals'[j], ListRef(locs'[j + 1]))
      {
        assert locs'[j] == locs[j + 1] && locs'[j + 1] == locs[j + 2];
      }
      NthOfPath(h, locs', vals', i - 1);
    }
  }

  /** `lst[index]`: EvaluationError on an empty list and on an index outside [0, len). */
  function GetItem(h: map<nat, Cell>, loc: nat, index: Value): (r: Result<Value>)
    requires Linked(h) && loc in h
    ensures r.Ok? ==> exists k :: k in h && h[k].Cons? && h[k].elt == r.value
  {
    var n :- Len(h, loc);
    if n == 0 then Err(EvaluationError)
    else match index
      case FloatV(_) => Err(Unmodelled)
      case IntV(i) => if i >= n || i < 0 then Err(EvaluationError) else Nth(h, loc, i)
      case BoolV(b) => if b then (if 1 >= n then Err(EvaluationError) else Nth(h, loc, 1)) else Nth(h, loc, 0)
      case _ => Err(HostError(TypeError))
  }

  /** Indexing a list returns its i-th element for 0 <= i < len and fails with
      EvaluationError for every other integer. */
  lemma GetItemSpec(h: map<nat, Cell>, locs: seq<nat>, vals: seq<Value>, i: int)
    requires Linked(h) && IsPath(h, locs, vals)
    ensures 0 <= i < |vals| ==> GetItem(h, locs[0], IntV(i)) == Ok(vals[i])
    ensures !(0 <= i < |vals|) ==> GetItem(h, locs[0], IntV(i)) == Err(EvaluationError)
  {
    ElementsOfPath(h, locs, vals);
    if 0 <= i < |vals| {
      NthOfPath(h, locs, vals, i);
    }
  }

  // ---------------------------------------------------------------------------
  // `get_tail`

  /** The last non-empty node (lines 264-270), for a non-empty list. */
  function GetTail(h: map<nat, Cell>, cur: nat, visited: set<nat>): (r: Result<nat>)
    requires Linked(h) && cur in h && h[cur].Cons?
    ensures r.Ok? ==> r.value in h && h[r.value].Cons?
    decreases h.Keys - visited
  {
    if cur in visited then Err(Diverges)
    else
      match h[cur].next
      case ListRef(n) =>
        if h[n].Empty? then Ok(cur)
        else
          GetTail(h, n, visited + {cur})
      case _ => Err(HostError(AttributeError))
  }

  lemma {:induction false} TailOfPath(h: map<nat, Cell>, locs: seq<nat>, vals: seq<Value>, visited: set<nat>)
    requires Linked(h) && IsPath(h, locs, vals) && |vals| > 0
    requires forall i :: 0 <= i < |locs| ==> locs[i] !in visited
    ensures locs[0] in h && h[locs[0]].Cons? && GetTail(h, locs[0], visited) == Ok(locs[|vals| - 1])
    decreases |vals|
  {
    assert h[locs[0]] == Cons(vals[0], ListRef(locs[1]));
    if |vals| == 1 {
      assert h[locs[1]] == Empty;
    }
    if |vals| > 1 {
      var locs', vals' := locs[1..], vals[1..];
      forall j | 0 <= j < |vals'|
        ensures h[locs'[j]] == Cons(vals'[j], ListRef(locs'[j + 1]))
      {
        assert locs'[j] == locs[j + 1] && locs'[j + 1] == locs[j + 2];
      }
      forall j | 0 <= j < |locs'|
        ensures locs'[j] !in visited + {locs[0]}
      {
        assert locs'[j] == locs[j + 1];
      }
      TailOfPath(h, locs', vals', visited + {locs[0]});
    }
  }

  // ---------------------------------------------------------------------------
  // Building lists

  /** The cells `list_init` lays out from `base`: the head at `base + n`, counting down to
      the sentinel at `base`, because the last argument is linked first. */
  function LaidLocs(base: nat, n: nat): (locs: seq<nat>)
    ensures |locs| == n + 1 && locs[0] == base + n
  {
    if n == 0 then [base] else [base + n] + LaidLocs(base, n - 1)
  }

  /** A fresh cell linked in front of a list holds a list one element longer. */
  lemma PathCons(h: map<nat, Cell>, locs: seq<nat>, vals: seq<Value>, l: nat, v: Value)
    requires IsPath(h, locs, vals) && l !in h
    ensures IsPath(h[l := Cons(v, ListRef(locs[0]))], [l] + locs, [v] + vals)
  {
    var h2 := h[l := Cons(v, ListRef(locs[0]))];
    var locs2, vals2 := [l] + locs, [v] + vals;
    forall i | 0 <= i < |vals2|
      ensures h2[locs2[i]] == Cons(vals2[i], ListRef(locs2[i + 1]))
    {
      if i > 0 {
        assert locs2[i] == locs[i - 1] && locs2[i + 1] == locs[i] && vals2[i] == vals[i - 1];
      }
    }
    assert locs2[|vals2|] == locs[|vals|];
    assert Distinct(locs2) by {
      forall i, j | 0 <= i < j < |locs2| ensures locs2[i] != locs2[j] {
        assert locs2[j] == locs[j - 1];
        if i > 0 { assert locs2[i] == locs[i - 1]; }
      }
    }
    forall i | 0 <= i < |locs2| ensures locs2[i] in h2 {
      if i > 0 { assert locs2[i] == locs[i - 1]; }
    }
  }

  /** `list_init(args)`: a fresh list whose elements are `args`, in fresh cells; no
      existing cell changes. */
  function ListInit(st: State, args: seq<Value>): (r: (State, nat))
    requires WF(st) && forall i :: 0 <= i < |args| ==> ValidIn(args[i], st)
    ensures WF(r.0) && Grows(st, r.0) && r.0.frames == st.frames
    ensures r.0.next == st.next + |args| + 1 && r.1 == st.next + |args|
    ensures forall k :: k in st.heap ==> r.0.heap[k] == st.heap[k]
    ensures IsPath(r.0.heap, LaidLocs(st.next, |args|), args)
  {
    if |args| == 0 then
      AllocCellWF(st, Empty);
      (st.(heap := st.heap[st.next := Empty], next := st.next + 1), st.next)
    else
      ListInitCons(st, args, ListInit(st, args[1..]).0)
  }

  /** The step of `list_init`: a fresh cell holding the first argument, linked in front of
      the list `st1` holds for the rest. */
  function ListInitCons(st: State, args: seq<Value>, st1: State): (r: (State, nat))
    requires |args| > 0 && WF(st) && forall i :: 0 <= i < |args| ==> ValidIn(args[i], st)
    requires WF(st1) && Grows(st, st1) && st1.frames == st.frames
    requires st1.next == st.next + |args| && forall k :: k in st.heap ==> st1.heap[k] == st.heap[k]
    requires IsPath(st1.heap, LaidLocs(st.next, |args| - 1), args[1..])
    ensures WF(r.0) && Grows(st, r.0) && r.0.frames == st.frames
    ensures r.0.next == st.next + |args| + 1 && r.1 == st.next + |args|
    ensures forall k :: k in st.heap ==> r.0.heap[k] == st.heap[k]
    ensures IsPath(r.0.heap, LaidLocs(st.next, |args|), args)
  {
    var c := Cons(args[0], ListRef(st1.next - 1));
    assert st1.next - 1 in st1.heap by { assert IsPath(st1.heap, LaidLocs(st.next, |args| - 1), args[1..]); }
    assert ValidIn(args[0], st1) by { ValidGrows(args[0], st, st1); }
    AllocCellWF(st1, c);
    ListInitConsPath(st.next, st1.heap, args, st1.next);
    (st1.(heap := st1.heap[st1.next := c], next := st1.next + 1), st1.next)
  }

  lemma ListInitConsPath(base: nat, h: map<nat, Cell>, args: seq<Value>, l: nat)
    requires |args| > 0 && l == base + |args| && l !in h
    requires IsPath(h, LaidLocs(base, |args| - 1), args[1..])
    ensures IsPath(h[l := Cons(args[0], ListRef(l - 1))], LaidLocs(base, |args|), args)
  {
    var locs := LaidLocs(base, |args| - 1);
    PathCons(h, locs, args[1..], l, args[0]);
    assert [args[0]] + args[1..] == args;
    assert LaidLocs(base, |args|) == [l] + locs;
  }

  /** The list `list_init` builds has exactly `args` as elements, so its length is |args|. */
  lemma ListInitElements(st: State, args: seq<Value>)
    requires WF(st) && forall i :: 0 <= i < |args| ==> ValidIn(args[i], st)
    ensures var (st', head) := ListInit(st, args);
      Linked(st'.heap) && head in st'.heap
      && Elements(st'.heap, head) == Ok(args) && Len(st'.heap, head) == Ok(|args|)
  {
    var (st', head) := ListInit(st, args);
    WFLinked(st');
    ElementsOfPath(st'.heap, LaidLocs(st.next, |args|), args);
  }

  // ---------------------------------------------------------------------------
  // `concatenate`

  /** `first.concat(other)` (lines 256-262): an empty first node takes over the head of
      `other`; otherwise the last node of `first` is linked to `other`, whatever it is. */
  function ConcatOne(st: State, first: nat, other: Value): (r: Outcome)
    requires WF(st) && first in st.heap && ValidIn(other, st)
    ensures WF(r.st) && r.st.frames == st.frames && r.st.next == st.next
    ensures r.st.heap.Keys == st.heap.Keys
  {
    match st.heap[first]
    case Empty =>
      if other.ListRef? then
        assert CellValidIn(st.heap[other.loc], st);
        SetCellWF(st, first, st.heap[other.loc]);
        Outcome(Ok(ListRef(first)), st.(heap := st.heap[first := st.heap[other.loc]]))
      else Outcome(Err(HostError(AttributeError)), st)
    case Cons(_, _) =>
      WFLinked(st);
      match GetTail(st.heap, first, {})
      case Err(e) => Outcome(Err(e), st)
      case Ok(t) =>
        var c := Cons(st.heap[t].elt, other);
        assert CellValidIn(st.heap[t], st);
        SetCellWF(st, t, c);
        Outcome(Ok(ListRef(first)), st.(heap := st.heap[t := c]))
  }

  /** The `for concat_list in args[1:]` loop. */
  function ConcatLoop(st: State, first: nat, rest: seq<Value>): (r: Outcome)
    requires WF(st) && first in st.heap && forall i :: 0 <= i < |rest| ==> ValidIn(rest[i], st)
    ensures WF(r.st) && r.st.frames == st.frames && r.st.next == st.next
    ensures r.st.heap.Keys == st.heap.Keys
    ensures r.result.Ok? ==> r.result.value == ListRef(first)
    decreases |rest|
  {
    if |rest| == 0 then Outcome(Ok(ListRef(first)), st)
    else
      var o := ConcatOne(st, first, rest[0]);
      if o.result.Err? then o
      else
        assert forall i :: 1 <= i < |rest| ==> ValidIn(rest[i], o.st) by {
          forall i | 1 <= i < |rest| ensures ValidIn(rest[i], o.st) {
            assert ValidIn(rest[i], st);
          }
        }
        ConcatLoop(o.st, first, rest[1..])
  }

  /** `concatenate(args)`: no arguments give a fresh empty list, one gives a fresh head node
      sharing the argument's tail, more splice every later argument onto the first, which is
      returned itself. */
  function Concatenate(st: State, args: seq<Value>): (r: Outcome)
    requires WF(st) && forall i :: 0 <= i < |args| ==> ValidIn(args[i], st)
    ensures WF(r.st) && Grows(st, r.st)
    ensures r.result.Ok? ==> ValidIn(r.result.value, r.st)
    ensures |args| == 0 ==> r.result == Ok(ListRef(st.next)) && r.st.heap[st.next] == Empty
  {
    if |args| == 0 then
      AllocCellWF(st, Empty);
      Outcome(Ok(ListRef(st.next)), st.(heap := st.heap[st.next := Empty], next := st.next + 1))
    else if !args[0].ListRef? then Outcome(Err(HostError(AttributeError)), st)
    else
      assert ValidIn(args[0], st);
      if |args| == 1 then
        var c := st.heap[args[0].loc];
        assert CellValidIn(c, st);
        AllocCellWF(st, c);
        Outcome(Ok(ListRef(st.next)), st.(heap := st.heap[st.next := c], next := st.next + 1))
      else
        ConcatLoop(st, args[0].loc, args[1..])
  }

  // ---------------------------------------------------------------------------
  // What `concatenate` computes

  predicate Disjoint(a: seq<nat>, b: seq<nat>) {
    forall i, j :: 0 <= i < |a| && 0 <= j < |b| ==> a[i] != b[j]
  }

  /** Each argument is a well-formed list with path `paths[i]`. */
  predicate ListsAt(h: map<nat, Cell>, args: seq<Value>, paths: seq<Path>) {
    && |args| == |paths|
    && forall i :: 0 <= i < |args| ==>
         IsPath(h, paths[i].locs, paths[i].vals) && args[i] == ListRef(paths[i].locs[0])
  }

  /** No two argument lists share a cell. */
  predicate PairwiseDisjoint(paths: seq<Path>) {
    forall i, j :: 0 <= i < j < |paths| ==> Disjoint(paths[i].locs, paths[j].locs)
  }

  function AllVals(paths: seq<Path>): seq<seq<Value>>
    ensures |AllVals(paths)| == |paths|
    ensures forall i :: 0 <= i < |paths| ==> AllVals(paths)[i] == paths[i].vals
  {
    if |paths| == 0 then [] else [paths[0].vals] + AllVals(paths[1..])
  }

  /** Splicing onto an empty list: its sentinel cell takes over the other list's head. */
  lemma SpliceIntoEmpty(h: map<nat, Cell>, p: Path, q: Path)
    requires IsPath(h, p.locs, p.vals) && IsPath(h, q.locs, q.vals)
    requires Disjoint(p.locs, q.locs) && |p.vals| == 0
    ensures var locs := [p.locs[0]] + q.locs[1..];
      && IsPath(h[p.locs[0] := h[q.locs[0]]], locs, q.vals)
      && (forall i :: 0 <= i < |locs| ==> locs[i] in p.locs || locs[i] in q.locs)
  {
    var h' := h[p.locs[0] := h[q.locs[0]]];
    var locs := [p.locs[0]] + q.locs[1..];
    forall i | 0 <= i < |q.vals|
      ensures h'[locs[i]] == Cons(q.vals[i], ListRef(locs[i + 1]))
    {
      if i > 0 {
        assert locs[i] == q.locs[i];
        assert q.locs[i] != p.locs[0];
      }
      assert locs[i + 1] == q.locs[i + 1];
    }
    if |q.vals| > 0 {
      assert locs[|q.vals|] == q.locs[|q.vals|];
      assert q.locs[|q.vals|] != p.locs[0];
    }
    assert Distinct(locs) by {
      forall i, j | 0 <= i < j < |locs|
        ensures locs[i] != locs[j]
      {
        assert locs[j] == q.locs[j];
        if i > 0 { assert locs[i] == q.locs[i]; }
      }
    }
    forall i | 0 <= i < |locs|
      ensures locs[i] in p.locs || locs[i] in q.locs
    {
      if i > 0 { assert locs[i] == q.locs[i]; }
    }
  }

  /** Splicing onto a non-empty list: its last node is relinked to the other list. */
  lemma SpliceAtTail(h: map<nat, Cell>, p: Path, q: Path)
    requires IsPath(h, p.locs, p.vals) && IsPath(h, q.locs, q.vals)
    requires Disjoint(p.locs, q.locs) && |p.vals| > 0
    ensures var n := |p.vals|;
      var locs := p.locs[..n] + q.locs;
      && IsPath(h[p.locs[n - 1] := Cons(p.vals[n - 1], ListRef(q.locs[0]))], locs, p.vals + q.vals)
      && (forall i :: 0 <= i < |locs| ==> locs[i] in p.locs || locs[i] in q.locs)
  {
    var n := |p.vals|;
    var t := p.locs[n - 1];
    var h' := h[t := Cons(p.vals[n - 1], ListRef(q.locs[0]))];
    var locs := p.locs[..n] + q.locs;
    var vals := p.vals + q.vals;
    forall i | 0 <= i < |vals|
      ensures h'[locs[i]] == Cons(vals[i], ListRef(locs[i + 1]))
    {
      if i < n - 1 {
        assert locs[i] == p.locs[i] && locs[i + 1] == p.locs[i + 1];
      } else if i == n - 1 {
        assert locs[i] == t && locs[i + 1] == q.locs[0];
      } else {
        assert locs[i] == q.locs[i - n] && locs[i + 1] == q.locs[i - n + 1];
        assert q.locs[i - n] != t;
      }
    }
    assert locs[|vals|] == q.locs[|q.vals|];
    assert q.locs[|q.vals|] != t;
    assert Distinct(locs) by {
      forall i, j | 0 <= i < j < |locs|
        ensures locs[i] != locs[j]
      {
        if j < n {
          assert locs[i] == p.locs[i] && locs[j] == p.locs[j];
        } else if i < n {
          assert locs[i] == p.locs[i] && locs[j] == q.locs[j - n];
        } else {
          assert locs[i] == q.locs[i - n] && locs[j] == q.locs[j - n];
        }
      }
    }
    forall i | 0 <= i < |locs|
      ensures locs[i] in p.locs || locs[i] in q.locs
    {
      if i < n { assert locs[i] == p.locs[i]; } else { assert locs[i] == q.locs[i - n]; }
    }
  }

  /** The locations of the first list after one splice. */
  function SplicedLocs(p: Path, q: Path): seq<nat>
    requires |p.locs| == |p.vals| + 1 && |q.locs| > 0
  {
    if |p.vals| == 0 then [p.locs[0]] + q.locs[1..] else p.locs[..|p.vals|] + q.locs
  }

  /** One splice: the first list's elements become its own followed by the other's; only
      cells of the first list change. */
  lemma ConcatOneSplices(st: State, p: Path, q: Path)
    requires WF(st) && IsPath(st.heap, p.locs, p.vals) && IsPath(st.heap, q.locs, q.vals)
    requires Disjoint(p.locs, q.locs)
    ensures var o := ConcatOne(st, p.locs[0], ListRef(q.locs[0]));
      var locs := SplicedLocs(p, q);
      && o.result.Ok?
      && locs[0] == p.locs[0]
      && IsPath(o.st.heap, locs, p.vals + q.vals)
      && (forall k :: k in st.heap && k !in p.locs ==> o.st.heap[k] == st.heap[k])
      && (forall i :: 0 <= i < |locs| ==> locs[i] in p.locs || locs[i] in q.locs)
  {
    WFLinked(st);
    var h := st.heap;
    if |p.vals| == 0 {
      assert p.vals + q.vals == q.vals;
      SpliceIntoEmpty(h, p, q);
    } else {
      var n := |p.vals|;
      TailOfPath(h, p.locs, p.vals, {});
      assert h[p.locs[n - 1]] == Cons(p.vals[n - 1], ListRef(p.locs[n]));
      SpliceAtTail(h, p, q);
    }
  }

  /** The lists after the one just spliced are untouched by the splice and stay disjoint
      from the grown first list. */
  lemma RestAfterSplice(h: map<nat, Cell>, h': map<nat, Cell>, p: Path, q: Path, p': Path,
                        rest: seq<Value>, paths: seq<Path>)
    requires ListsAt(h, rest, paths) && PairwiseDisjoint(paths) && |paths| > 0 && q == paths[0]
    requires forall i :: 0 <= i < |paths| ==> Disjoint(p.locs, paths[i].locs)
    requires forall k :: k in h && k !in p.locs ==> k in h' && h'[k] == h[k]
    requires forall i :: 0 <= i < |p'.locs| ==> p'.locs[i] in p.locs || p'.locs[i] in q.locs
    ensures ListsAt(h', rest[1..], paths[1..]) && PairwiseDisjoint(paths[1..])
    ensures forall i :: 0 <= i < |paths[1..]| ==> Disjoint(p'.locs, paths[1..][i].locs)
  {
    var rest', paths' := rest[1..], paths[1..];
    forall i | 0 <= i < |paths'|
      ensures IsPath(h', paths'[i].locs, paths'[i].vals) && rest'[i] == ListRef(paths'[i].locs[0])
      ensures Disjoint(p'.locs, paths'[i].locs)
    {
      var r := paths'[i];
      assert r == paths[i + 1] && rest'[i] == rest[i + 1];
      assert Disjoint(p.locs, r.locs) && Disjoint(q.locs, r.locs);
      forall j | 0 <= j < |r.locs|
        ensures r.locs[j] in h' && h'[r.locs[j]] == h[r.locs[j]]
      {
        assert r.locs[j] !in p.locs by {
          forall m | 0 <= m < |p.locs| ensures p.locs[m] != r.locs[j] { }
        }
      }
      PathFrame(h, h', r.locs, r.vals);
      forall a, b | 0 <= a < |p'.locs| && 0 <= b < |r.locs|
        ensures p'.locs[a] != r.locs[b]
      {
        if p'.locs[a] in p.locs {
          var m :| 0 <= m < |p.locs| && p.locs[m] == p'.locs[a];
        } else {
          var m :| 0 <= m < |q.locs| && q.locs[m] == p'.locs[a];
        }
      }
    }
    assert PairwiseDisjoint(paths') by {
      forall i, j | 0 <= i < j < |paths'| ensures Disjoint(paths'[i].locs, paths'[j].locs) {
        assert paths'[i] == paths[i + 1] && paths'[j] == paths[j + 1];
      }
    }
  }

  /** The loop splices each later list onto the first in turn. */
  lemma {:induction false} ConcatLoopSplices(st: State, p: Path, rest: seq<Value>, paths: seq<Path>)
    returns (locs: seq<nat>)
    requires WF(st) && IsPath(st.heap, p.locs, p.vals)
    requires ListsAt(st.heap, rest, paths) && PairwiseDisjoint(paths)
    requires forall i :: 0 <= i < |paths| ==> Disjoint(p.locs, paths[i].locs)
    ensures forall i :: 0 <= i < |rest| ==> ValidIn(rest[i], st)
    ensures var o := ConcatLoop(st, p.locs[0], rest);
      && o.result == Ok(ListRef(p.locs[0]))
      && |locs| > 0 && locs[0] == p.locs[0]
      && IsPath(o.st.heap, locs, p.vals + Flatten(AllVals(paths)))
    decreases |rest|
  {
    forall i | 0 <= i < |rest| ensures ValidIn(rest[i], st) {
      assert paths[i].locs[0] in st.heap;
    }
    if |rest| == 0 {
      assert p.vals + Flatten(AllVals(paths)) == p.vals;
      locs := p.locs;
    } else {
      var q := paths[0];
      assert rest[0] == ListRef(q.locs[0]);
      ConcatOneSplices(st, p, q);
      var o := ConcatOne(st, p.locs[0], rest[0]);
      var p' := Path(p.vals + q.vals, SplicedLocs(p, q));
      var rest', paths' := rest[1..], paths[1..];
      RestAfterSplice(st.heap, o.st.heap, p, q, p', rest, paths);
      assert ConcatLoop(st, p.locs[0], rest) == ConcatLoop(o.st, p.locs[0], rest');
      locs := ConcatLoopSplices(o.st, p', rest', paths');
      FlattenStep(p.vals, paths);
    }
  }

  /** The elements gathered after one more splice. */
  lemma FlattenStep(vals: seq<Value>, paths: seq<Path>)
    requires |paths| > 0
    ensures (vals + paths[0].vals) + Flatten(AllVals(paths[1..])) == vals + Flatten(AllVals(paths))
  {
    assert AllVals(paths) == [paths[0].vals] + AllVals(paths[1..]);
    FlattenCons(vals, paths[0].vals, AllVals(paths[1..]));
  }

  /** `concatenate` with two or more pairwise disjoint lists returns its first argument,
      whose elements are now those of all the arguments in order. */
  lemma ConcatenateSplices(st: State, args: seq<Value>, paths: seq<Path>)
    requires WF(st) && ListsAt(st.heap, args, paths) && PairwiseDisjoint(paths) && |args| >= 2
    ensures forall i :: 0 <= i < |args| ==> ValidIn(args[i], st)
    ensures var o := Concatenate(st, args);
      && o.result == Ok(args[0])
      && Linked(o.st.heap) && args[0].loc in o.st.heap
      && Elements(o.st.heap, args[0].loc) == Ok(Flatten(AllVals(paths)))
  {
    var p := paths[0];
    assert ValidIn(args[0], st) by { assert p.locs[0] in st.heap; }
    assert ListsAt(st.heap, args[1..], paths[1..]) by {
      forall i | 0 <= i < |args[1..]|
        ensures IsPath(st.heap, paths[1..][i].locs, paths[1..][i].vals) && args[1..][i] == ListRef(paths[1..][i].locs[0])
      {
        assert paths[1..][i] == paths[i + 1];
      }
    }
    assert PairwiseDisjoint(paths[1..]) by {
      forall i, j | 0 <= i < j < |paths[1..]| ensures Disjoint(paths[1..][i].locs, paths[1..][j].locs) {
        assert paths[1..][i] == paths[i + 1] && paths[1..][j] == paths[j + 1];
      }
    }
    assert forall i :: 0 <= i < |paths[1..]| ==> Disjoint(p.locs, paths[1..][i].locs) by {
      forall i | 0 <= i < |paths[1..]| ensures Disjoint(p.locs, paths[1..][i].locs) {
        assert paths[1..][i] == paths[i + 1];
      }
    }
    var locs := ConcatLoopSplices(st, p, args[1..], paths[1..]);
    var o := Concatenate(st, args);
    assert o == ConcatLoop(st, p.locs[0], args[1..]);
    WFLinked(o.st);
    ElementsOfPath(o.st.heap, locs, p.vals + Flatten(AllVals(paths[1..])));
    assert AllVals(paths) == [p.vals] + AllVals(paths[1..]);
  }

  /** `concatenate` of a single list returns a new list with the same elements, sharing
      all but its first node, and leaves the argument as it was. */
  lemma ConcatenateCopies(st: State, locs: seq<nat>, vals: seq<Value>)
    requires WF(st) && IsPath(st.heap, locs, vals)
    ensures ValidIn(ListRef(locs[0]), st)
    ensures var o := Concatenate(st, [ListRef(locs[0])]);
      && o.result == Ok(ListRef(st.next))
      && Linked(o.st.heap) && st.next in o.st.heap && locs[0] in o.st.heap
      && Elements(o.st.heap, st.next) == Ok(vals)
      && Elements(o.st.heap, locs[0]) == Ok(vals)
  {
    var o := Concatenate(st, [ListRef(locs[0])]);
    var h := o.st.heap;
    assert h == st.heap[st.next := st.heap[locs[0]]];
    assert st.next !in st.heap;
    PathFrame(st.heap, h, locs, vals);
    var locs' := [st.next] + locs[1..];
    assert IsPath(h, locs', vals) by {
      forall i | 0 <= i < |vals| ensures h[locs'[i]] == Cons(vals[i], ListRef(locs'[i + 1])) {
        assert locs'[i + 1] == locs[i + 1];
        if i > 0 { assert locs'[i] == locs[i]; }
      }
      if |vals| > 0 { assert locs'[|vals|] == locs[|vals|]; }
      assert Distinct(locs') by {
        forall i, j | 0 <= i < j < |locs'| ensures locs'[i] != locs'[j] {
          assert locs'[j] == locs[j];
          if i > 0 { assert locs'[i] == locs[i]; }
        }
      }
      forall i | 0 <= i < |locs'| ensures locs'[i] in h {
        if i > 0 { assert locs'[i] == locs[i]; }
      }
    }
    WFLinked(o.st);
    ElementsOfPath(h, locs', vals);
    ElementsOfPath(h, locs, vals);
  }

  // ---------------------------------------------------------------------------
  // `car`, `cdr`, `length`, `elt-at-index`

  /** `car(args)`: the first element; an empty list is an EvaluationError. */
  function Car(h: map<nat, Cell>, args: seq<Value>): Result<Value>
    requires forall i :: 0 <= i < |args| ==> args[i].ListRef? ==> args[i].loc in h
  {
    if |args| == 0 then Err(HostError(IndexError))
    else if !args[0].ListRef? then Err(HostError(AttributeError))
    else match h[args[0].loc]
      case Empty => Err(EvaluationError)
      case Cons(e, _) => Ok(e)
  }

  /** `cdr(args)`: the node after the first, whatever it is. */
  function Cdr(h: map<nat, Cell>, args: seq<Value>): Result<Value>
    requires forall i :: 0 <= i < |args| ==> args[i].ListRef? ==> args[i].loc in h
  {
    if |args| == 0 then Err(HostError(IndexError))
    else if !args[0].ListRef? then Err(HostError(AttributeError))
    else match h[args[0].loc]
      case Empty => Err(EvaluationError)
      case Cons(_, n) => Ok(n)
  }

  /** `list_len(args)`: only lists have a length. */
  function Length(h: map<nat, Cell>, args: seq<Value>): Result<Value>
    requires Linked(h) && forall i :: 0 <= i < |args| ==> args[i].ListRef? ==> args[i].loc in h
  {
    if |args| == 0 then Err(HostError(IndexError))
    else if !args[0].ListRef? then Err(HostError(TypeError))
    else
      var n :- Len(h, args[0].loc);
      Ok(IntV(n))
  }

  /** `elt_at_ind(args)`. */
  function EltAtIndex(h: map<nat, Cell>, args: seq<Value>): (r: Result<Value>)
    requires Linked(h) && forall i :: 0 <= i < |args| ==> args[i].ListRef? ==> args[i].loc in h
    ensures r.Ok? ==> exists k :: k in h && h[k].Cons? && h[k].elt == r.value
  {
    if |args| < 2 then Err(HostError(IndexError))
    else if !args[0].ListRef? then Err(HostError(AttributeError))
    else if h[args[0].loc].Empty? then Err(EvaluationError)
    else GetItem(h, args[0].loc, args[1])
  }

  /** On a well-formed list, `car` is its first element, `cdr` the list of the others,
      `length` its number of elements and `elt-at-index` its i-th element. */
  lemma ListAccessors(h: map<nat, Cell>, locs: seq<nat>, vals: seq<Value>, i: int)
    requires Linked(h) && IsPath(h, locs, vals)
    ensures var l := [ListRef(locs[0])];
      && (|vals| == 0 ==> Car(h, l) == Err(EvaluationError) && Cdr(h, l) == Err(EvaluationError))
      && (|vals| > 0 ==> Car(h, l) == Ok(vals[0]) && Cdr(h, l) == Ok(ListRef(locs[1]))
                         && locs[1] in h && Elements(h, locs[1]) == Ok(vals[1..]))
      && Length(h, l) == Ok(IntV(|vals|))
      && EltAtIndex(h, l + [IntV(i)]) == if 0 <= i < |vals| then Ok(vals[i]) else Err(EvaluationError)
  {
    ElementsOfPath(h, locs, vals);
    GetItemSpec(h, locs, vals, i);
    if |vals| > 0 {
      assert h[locs[0]] == Cons(vals[0], ListRef(locs[1]));
      var locs', vals' := locs[1..], vals[1..];
      assert IsPath(h, locs', vals') by {
        forall j | 0 <= j < |vals'| ensures h[locs'[j]] == Cons(vals'[j], ListRef(locs'[j + 1])) {
          assert locs'[j] == locs[j + 1] && locs'[j + 1] == locs[j + 2];
        }
      }
      ElementsOfPath(h, locs', vals');
    } else {
      assert h[locs[0]] == Empty;
    }
  }
}
