/** Runtime variables in layers: a fork freezes the current layer, and both
    branches go on in layers of their own. */
module Runtime {
  import opened Bytes
  import opened RuntimeState
  import Utf8

  /** Frozen layers are shared and never change, so they are a value. */
  datatype Layers = Bottom | Layer(values: map<Name, Value>, parent: Layers)

  /** What the layers show: the topmost assignment of every name. */
  function Flat(layers: Layers): map<Name, Value> {
    match layers
    case Bottom => map[]
    case Layer(values, parent) => Flat(parent) + values
  }

  function ValueOf(bytes: seq<Byte>): Value {
    if Utf8.IsUtf8(bytes) then Text(bytes) else Raw(bytes)
  }

  lemma OverlayAssign(below: map<Name, Value>, values: map<Name, Value>, name: Name, value: Value)
    ensures below + values[name := value] == (below + values)[name := value]
  {
  }

  lemma OverlayAssoc(a: map<Name, Value>, b: map<Name, Value>, c: map<Name, Value>)
    ensures a + (b + c) == (a + b) + c
  {
  }

  class RuntimeVariables {
    var parent: Layers
    var values: map<Name, Value>
    var processId: seq<Byte>
    var status: seq<Byte>
    var rcFile: Option<seq<Byte>>

    ghost function View(): State
      reads this
    {
      State(Flat(parent) + values, processId, status, rcFile)
    }

    constructor (parent: Layers, values: map<Name, Value>, processId: seq<Byte>, status: seq<Byte>, rcFile: Option<seq<Byte>>)
      ensures View() == State(Flat(parent) + values, processId, status, rcFile)
    {
      this.parent, this.values, this.processId, this.status, this.rcFile := parent, values, processId, status, rcFile;
    }

    /** `fork`: neither branch notices. */
    method Fork() returns (branch: RuntimeVariables)
      modifies this
      ensures fresh(branch) && View() == old(View()) && branch.View() == old(View())
    {
      var shared := Layer(values, parent);
      parent, values := shared, map[];
      assert Flat(shared) + map[] == Flat(shared);
      branch := new RuntimeVariables(shared, map[], processId, status, rcFile);
    }

    method Set(name: Name, text: seq<Byte>)
      modifies this
      ensures View() == Assigned(old(View()), name, Text(text))
    {
      OverlayAssign(Flat(parent), values, name, Text(text));
      values := values[name := Text(text)];
    }

    /** `set_bytes`. */
    method SetBytes(name: Name, bytes: seq<Byte>)
      modifies this
      ensures View() == Assigned(old(View()), name, ValueOf(bytes))
    {
      OverlayAssign(Flat(parent), values, name, ValueOf(bytes));
      values := values[name := ValueOf(bytes)];
    }

    method Remove(name: Name)
      modifies this
      ensures View() == Assigned(old(View()), name, Removed)
    {
      OverlayAssign(Flat(parent), values, name, Removed);
      values := values[name := Removed];
    }

    /** `find`: walk down the layers. */
    method Find(name: Name) returns (r: Option<Value>)
      ensures r == if name in View().values then Some(View().values[name]) else None
    {
      if name in values {
        return Some(values[name]);
      }
      var layer := parent;
      while layer.Layer?
        invariant name in Flat(parent) <==> name in Flat(layer)
        invariant name in Flat(layer) ==> Flat(parent)[name] == Flat(layer)[name]
        decreases layer
      {
        if name in layer.values {
          return Some(layer.values[name]);
        }
        layer := layer.parent;
      }
      r := None;
    }

    /** `get`, and with `raw` set `get_bytes`. */
    method Get(name: Name, raw: bool) returns (r: Option<seq<Byte>>)
      ensures r == Lookup(View(), name, raw)
    {
      if name == [36] {
        return Some(processId);
      }
      if name == [63] {
        return Some(status);
      }
      if name == [95] {
        return rcFile;
      }
      var plain := if name == [45] then LAST_FOLDER else name;
      var value := Find(plain);
      if value.None? {
        return Unassigned(plain);
      }
      match value.value {
        case Text(text) => r := Some(text);
        case Raw(bytes) => r := if raw then Some(bytes) else None;
        case Removed => r := None;
      }
    }

    /** `visible_values`: upper layers win. */
    method VisibleValues() returns (visible: map<Name, Value>)
      ensures visible == View().values
    {
      visible := values;
      var layer := parent;
      while layer.Layer?
        invariant Flat(layer) + visible == Flat(parent) + values
        decreases layer
      {
        OverlayAssoc(Flat(layer.parent), layer.values, visible);
        visible := layer.values + visible;
        layer := layer.parent;
      }
      assert map[] + visible == visible;
    }

    /** `shift_positionals`. */
    method ShiftPositionals(requested: nat)
      modifies this
      ensures View() == Shifted(old(View()), requested)
    {
      ghost var st := View();
      var text := Get(COUNT_NAME, false);
      var number := if text.None? then None else ParseNumber(text.value);
      var count := if number.None? then 0 else number.value;
      var amount := Min(requested, count);
      var window := CollectWindow(amount, count - amount);
      for index := 1 to MAX_POSITIONAL + 1
        invariant View() == st.(values := Renumbered(st.values, window, index - 1))
      {
        if index <= |window| {
          Set(Decimal(index), window[index - 1]);
        } else {
          Remove(Decimal(index));
        }
      }
      Set(COUNT_NAME, Decimal(count - amount));
    }

    method CollectWindow(amount: nat, remaining: nat) returns (window: seq<seq<Byte>>)
      ensures window == Window(View(), amount, remaining)
    {
      window := [];
      for i := 0 to remaining
        invariant |window| == i && forall j :: 0 <= j < i ==> window[j] == Argument(View(), j + 1 + amount)
      {
        var text := Get(Decimal(i + 1 + amount), false);
        window := window + [if text.None? then [] else text.value];
      }
    }
  }

  // ----- Histories -----

  datatype Op =
    | SetOp(branch: nat, name: Name, text: seq<Byte>)
    | SetBytesOp(branch: nat, name: Name, bytes: seq<Byte>)
    | RemoveOp(branch: nat, name: Name)
    | ShiftOp(branch: nat, requested: nat)
    | ForkOp(branch: nat)

  /** One operation on private flat maps; a fork copies the map of its branch. */
  function Step(states: seq<State>, op: Op): (r: seq<State>)
    requires op.branch < |states|
    ensures |r| == if op.ForkOp? then |states| + 1 else |states|
  {
    var st := states[op.branch];
    match op
    case SetOp(b, name, text) => states[b := Assigned(st, name, Text(text))]
    case SetBytesOp(b, name, bytes) => states[b := Assigned(st, name, ValueOf(bytes))]
    case RemoveOp(b, name) => states[b := Assigned(st, name, Removed)]
    case ShiftOp(b, requested) => states[b := Shifted(st, requested)]
    case ForkOp(b) => states + [st]
  }

  /** Every operation names a branch that exists when its turn comes. */
  predicate Runs(branches: nat, ops: seq<Op>, i: nat)
    requires i <= |ops|
    decreases |ops| - i
  {
    i == |ops| ||
    (ops[i].branch < branches && Runs(if ops[i].ForkOp? then branches + 1 else branches, ops, i + 1))
  }

  /** The private maps after the operations from `i` on. */
  function Run(states: seq<State>, ops: seq<Op>, i: nat): (r: seq<State>)
    requires i <= |ops| && Runs(|states|, ops, i)
    ensures |states| <= |r|
    decreases |ops| - i
  {
    if i == |ops| then states else Run(Step(states, ops[i]), ops, i + 1)
  }

  ghost predicate Shows(branches: seq<RuntimeVariables>, states: seq<State>)
    reads set i | 0 <= i < |branches| :: branches[i]
  {
    |branches| == |states| && forall i :: 0 <= i < |branches| ==> branches[i].View() == states[i]
  }

  ghost predicate Distinct(branches: seq<RuntimeVariables>) {
    forall i, j :: 0 <= i < j < |branches| ==> branches[i] != branches[j]
  }

  /** One operation on a layered branch. */
  method Apply(branches: seq<RuntimeVariables>, op: Op, ghost states: seq<State>) returns (r: seq<RuntimeVariables>)
    requires op.branch < |branches| && Distinct(branches) && Shows(branches, states)
    modifies branches[op.branch]
    ensures Distinct(r) && Shows(r, Step(states, op)) && |branches| <= |r| && r[..|branches|] == branches
    ensures forall i :: |branches| <= i < |r| ==> fresh(r[i])
  {
    r := branches;
    var branch := branches[op.branch];
    match op {
      case SetOp(_, name, text) => branch.Set(name, text);
      case SetBytesOp(_, name, bytes) => branch.SetBytes(name, bytes);
      case RemoveOp(_, name) => branch.Remove(name);
      case ShiftOp(_, requested) => branch.ShiftPositionals(requested);
      case ForkOp(_) =>
        var other := branch.Fork();
        r := r + [other];
    }
  }

  lemma RunOn(states: seq<State>, ops: seq<Op>, i: nat) returns (next: seq<State>)
    requires i < |ops| && Runs(|states|, ops, i)
    ensures ops[i].branch < |states| && next == Step(states, ops[i]) && Runs(|next|, ops, i + 1)
    ensures Run(next, ops, i + 1) == Run(states, ops, i)
  {
    next := Step(states, ops[i]);
  }

  /** Any history of assignments, shifts and forks, over any tree of branches,
      leaves every branch as a private flat map would be. */
  method RunHistory(start: RuntimeVariables, ops: seq<Op>) returns (branches: seq<RuntimeVariables>)
    requires Runs(1, ops, 0)
    modifies start
    ensures Shows(branches, Run([old(start.View())], ops, 0))
  {
    branches := [start];
    ghost var first := [start.View()];
    ghost var states := first;
    for i := 0 to |ops|
      invariant branches != [] && branches[0] == start && Distinct(branches)
      invariant forall j :: 1 <= j < |branches| ==> fresh(branches[j])
      invariant Shows(branches, states) && Runs(|states|, ops, i)
      invariant Run(states, ops, i) == Run(first, ops, 0)
    {
      ghost var next := RunOn(states, ops, i);
      branches := Apply(branches, ops[i], states);
      states := next;
    }
  }

  /** Operations on other branches do not reach a branch. */
  lemma {:induction false} BranchesAreSeparate(states: seq<State>, ops: seq<Op>, i: nat, b: nat)
    requires i <= |ops| && Runs(|states|, ops, i) && b < |states|
    requires forall k :: i <= k < |ops| ==> ops[k].branch != b || ops[k].ForkOp?
    ensures Run(states, ops, i)[b] == states[b]
    decreases |ops| - i
  {
    if i < |ops| {
      BranchesAreSeparate(Step(states, ops[i]), ops, i + 1, b);
    }
  }
}
