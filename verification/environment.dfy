/** `Environment` (b_lab/lab.py:201-225, a_lab/lab.py:117-142): a chain of symbol tables
    ending in the builtins dictionary. Frames live in the store; a frame's parent is an
    older frame, or Root for the builtins. */
module Environment {
  import opened Errors
  import opened Parser
  import opened Values

  /** The builtins dictionary of each version: a_lab/lab.py:105-111, b_lab/lab.py:173-194. */
  function Builtins(d: Dialect): map<string, Value> {
    var early := map["+" := Prim(Add), "-" := Prim(Subtract), "*" := Prim(Multiply), "/" := Prim(Divide)];
    match d
    case Early => early
    case Full => early + map[
        "=?" := Prim(Equal), ">" := Prim(Greater), ">=" := Prim(GreaterEq),
        "<" := Prim(Less), "<=" := Prim(LessEq), "not" := Prim(Not),
        "#t" := BoolV(true), "#f" := BoolV(false),
        "list" := Prim(MakeList), "car" := Prim(Car), "cdr" := Prim(Cdr),
        "length" := Prim(Length), "elt-at-index" := Prim(EltAt), "concat" := Prim(Concat)]
  }

  /** The last step of `__getitem__`: the builtins dictionary, else EvaluationError. */
  function RootLookup(d: Dialect, name: string): (r: Result<Value>)
    ensures r.Ok? <==> name in Builtins(d)
    ensures r.Ok? ==> r.value == Builtins(d)[name]
    ensures r.Err? ==> r.error == EvaluationError
  {
    if name in Builtins(d) then Ok(Builtins(d)[name]) else Err(EvaluationError)
  }

  /** Every frame's parent is Root or an older frame of the store. */
  predicate FramesOk(frames: map<nat, Frame>) {
    forall k :: k in frames ==> ParentOk(frames, k)
  }

  /** `env[key]`: the local table, else the parent frame, else the builtins. */
  function Lookup(d: Dialect, frames: map<nat, Frame>, id: nat, name: string): Result<Value>
    requires FramesOk(frames) && id in frames
    decreases id
  {
    if name in frames[id].table then Ok(frames[id].table[name])
    else match frames[id].parent
      case Root => RootLookup(d, name)
      case Enclosing(p) => Lookup(d, frames, p, name)
  }

  /** The frames a lookup from `id` visits, innermost first. */
  function Chain(frames: map<nat, Frame>, id: nat): (c: seq<nat>)
    requires FramesOk(frames) && id in frames
    ensures |c| > 0 && c[0] == id
    ensures forall i :: 0 <= i < |c| ==> c[i] in frames
    ensures forall i :: 0 <= i < |c| - 1 ==> frames[c[i]].parent == Enclosing(c[i + 1])
    ensures frames[c[|c| - 1]].parent == Root
    decreases id
  {
    match frames[id].parent
    case Root => [id]
    case Enclosing(p) =>
      var rest := Chain(frames, p);
      assert forall i :: 1 <= i < |rest| + 1 ==> ([id] + rest)[i] == rest[i - 1];
      [id] + rest
  }

  /** The innermost frame of the chain that binds `name` provides its value. */
  lemma {:induction false} LookupInnermost(d: Dialect, frames: map<nat, Frame>, id: nat, name: string, i: nat)
    requires FramesOk(frames) && id in frames
    requires i < |Chain(frames, id)| && name in frames[Chain(frames, id)[i]].table
    requires forall j :: 0 <= j < i ==> name !in frames[Chain(frames, id)[j]].table
    ensures Lookup(d, frames, id, name) == Ok(frames[Chain(frames, id)[i]].table[name])
    decreases id
  {
    var c := Chain(frames, id);
    if i > 0 {
      assert name !in frames[c[0]].table;
      var p := frames[id].parent.id;
      var c' := Chain(frames, p);
      assert c == [id] + c';
      forall j | 0 <= j < i - 1 ensures name !in frames[c'[j]].table {
        assert c'[j] == c[j + 1];
      }
      LookupInnermost(d, frames, p, name, i - 1);
    }
  }

  /** A name no frame of the chain binds comes from the builtins, or is an
      EvaluationError. */
  lemma {:induction false} LookupFallsThrough(d: Dialect, frames: map<nat, Frame>, id: nat, name: string)
    requires FramesOk(frames) && id in frames
    requires forall j :: 0 <= j < |Chain(frames, id)| ==> name !in frames[Chain(frames, id)[j]].table
    ensures Lookup(d, frames, id, name) == RootLookup(d, name)
    decreases id
  {
    var c := Chain(frames, id);
    assert name !in frames[c[0]].table;
    if frames[id].parent.Enclosing? {
      var p := frames[id].parent.id;
      var c' := Chain(frames, p);
      assert c == [id] + c';
      forall j | 0 <= j < |c'| ensures name !in frames[c'[j]].table {
        assert c'[j] == c[j + 1];
      }
      LookupFallsThrough(d, frames, p, name);
    }
  }

  /** `env[key] = val` (`__setitem__`): only the local table of frame `id` changes. A
      number as key is stored under a key no lookup uses, so it changes nothing here; a
      list as key is unhashable. */
  function Bind(st: State, id: nat, key: Expr, v: Value): (r: Result<State>)
    requires id in st.frames
    ensures r.Err? <==> key.Form?
    ensures r.Err? ==> r.error == HostError(TypeError)
    ensures r.Ok? ==> r.value.heap == st.heap && r.value.next == st.next
    ensures r.Ok? ==> r.value.frames.Keys == st.frames.Keys
    ensures r.Ok? ==> forall k :: k in st.frames && k != id ==> r.value.frames[k] == st.frames[k]
    ensures r.Ok? ==> r.value.frames[id].parent == st.frames[id].parent
  {
    match key
    case Form(_) => Err(HostError(TypeError))
    case Sym(s) => Ok(BindName(st, id, s, v))
    case _ => Ok(st)
  }

  function BindName(st: State, id: nat, name: string, v: Value): State
    requires id in st.frames
  {
    var f := st.frames[id];
    st.(frames := st.frames[id := f.(table := f.table[name := v])])
  }

  lemma BindNameWF(st: State, id: nat, name: string, v: Value)
    requires WF(st) && id in st.frames && ValidIn(v, st)
    ensures WF(BindName(st, id, name, v)) && Grows(st, BindName(st, id, name, v))
  {
    var st' := BindName(st, id, name, v);
    assert st'.frames.Keys == st.frames.Keys;
    forall w: Value | ValidIn(w, st) ensures ValidIn(w, st') { }
    forall k | k in st'.frames ensures ParentOk(st'.frames, k) {
      assert ParentOk(st.frames, k);
    }
  }

  lemma BindWF(st: State, id: nat, key: Expr, v: Value)
    requires WF(st) && id in st.frames && ValidIn(v, st)
    ensures Bind(st, id, key, v).Ok? ==> WF(Bind(st, id, key, v).value) && Grows(st, Bind(st, id, key, v).value)
  {
    if key.Sym? {
      BindNameWF(st, id, key.name, v);
    }
  }

  /** After `env[name] = v`, looking `name` up from `env` gives `v` and every other name
      looks up as before. */
  lemma BindLookup(d: Dialect, st: State, id: nat, name: string, v: Value, other: string)
    requires FramesOk(st.frames) && id in st.frames && other != name
    ensures FramesOk(BindName(st, id, name, v).frames)
    ensures Lookup(d, BindName(st, id, name, v).frames, id, name) == Ok(v)
    ensures Lookup(d, BindName(st, id, name, v).frames, id, other) == Lookup(d, st.frames, id, other)
  {
    var st' := BindName(st, id, name, v);
    forall k | k in st'.frames ensures ParentOk(st'.frames, k) {
      assert ParentOk(st.frames, k);
    }
    if other !in st.frames[id].table && st.frames[id].parent.Enclosing? {
      LookupUnchanged(d, st.frames, st'.frames, st.frames[id].parent.id, other);
    }
  }

  /** A lookup only reads the frames on its chain. */
  lemma {:induction false} LookupUnchanged(d: Dialect, frames: map<nat, Frame>, frames': map<nat, Frame>, id: nat, name: string)
    requires FramesOk(frames) && FramesOk(frames') && id in frames
    requires forall k :: k in frames && k <= id ==> k in frames' && frames'[k] == frames[k]
    ensures id in frames' && Lookup(d, frames', id, name) == Lookup(d, frames, id, name)
    decreases id
  {
    if name !in frames[id].table && frames[id].parent.Enclosing? {
      LookupUnchanged(d, frames, frames', frames[id].parent.id, name);
    }
  }

  /** `Environment(parent)`: a fresh, empty frame. */
  function NewFrame(st: State, parent: nat): (r: (State, nat))
    requires WF(st) && parent in st.frames
    ensures WF(r.0) && Grows(st, r.0) && r.1 == st.next && r.0.next == st.next + 1
    ensures r.0.frames == st.frames[st.next := Frame(map[], Enclosing(parent))] && r.0.heap == st.heap
  {
    var st' := st.(frames := st.frames[st.next := Frame(map[], Enclosing(parent))], next := st.next + 1);
    forall w: Value | ValidIn(w, st) ensures ValidIn(w, st') { }
    assert forall k :: k in st'.frames ==> ParentOk(st'.frames, k) by {
      forall k | k in st'.frames ensures ParentOk(st'.frames, k) {
        if k != st.next { assert ParentOk(st.frames, k); }
      }
    }
    (st', st.next)
  }

  /** A new frame binds nothing of its own: lookups fall through to its parent. */
  lemma NewFrameLookup(d: Dialect, st: State, parent: nat, name: string)
    requires WF(st) && parent in st.frames
    ensures var (st', f) := NewFrame(st, parent);
      FramesOk(st'.frames) && FramesOk(st.frames) && f in st'.frames
      && Lookup(d, st'.frames, f, name) == Lookup(d, st.frames, parent, name)
  {
    var (st', f) := NewFrame(st, parent);
    LookupUnchanged(d, st.frames, st'.frames, parent, name);
  }

  /** Whatever a lookup finds is a value of the store. */
  lemma {:induction false} LookupValid(d: Dialect, st: State, id: nat, name: string)
    requires WF(st) && id in st.frames
    ensures Lookup(d, st.frames, id, name).Ok? ==> ValidIn(Lookup(d, st.frames, id, name).value, st)
    decreases id
  {
    if name !in st.frames[id].table {
      match st.frames[id].parent
      case Root =>
      case Enclosing(p) => LookupValid(d, st, p, name);
    }
  }
}
