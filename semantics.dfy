/** The meaning of an evaluation: a `Trace` records it, nested evaluations
    included, and `Valid` checks it against the rules of the language one node
    at a time. */
module Semantics {
  import opened Outcome
  import opened Syntax
  import opened Primitives
  import opened Environment
  import opened Fixpoint

  // ---------------------------------------------------------------- closures

  /** What a call takes out of a closure node: the parameter identifiers, the
      body, and the captured row of names and of values. */
  datatype Frame = Frame(params: seq<Node>, body: Node, capNames: seq<Node>, capValues: seq<Node>)

  function Children(x: Node): (ys: set<Node>)
    reads x
  {
    set y | y in x.statements
  }

  /** The nodes a call reads below a closure: its first two children and
      their children. */
  function FrameNodes(c: Node): (ns: set<Node>)
    reads c, Children(c)
  {
    Children(c) +
    (if |c.statements| > 0 then Children(c.statements[0]) else {}) +
    (if |c.statements| > 1 then Children(c.statements[1]) else {})
  }

  /** The closure layout built by `evalLambdaNode` is
      `CLOSURE[LIST[LIST[params...], body], LIST[LIST[names...], LIST[values...]]]`;
      `evalFuncCall` reads it in this order: first the parameter list, whose
      length must be the argument count, then the captured names and values,
      then the body. A missing child is an `at` out of range. */
  function CallFrame(c: Node, argc: int): (r: Result<Frame>)
    reads c, FrameNodes(c)
    ensures r.Ok? ==> |r.value.params| == argc
  {
    if |c.statements| == 0 || |c.statements[0].statements| == 0 then Err(IndexOutOfRange)
    else
      var part := c.statements[0];
      var paramList := part.statements[0];
      if |paramList.statements| != argc then Err(ParamCount)
      else if |c.statements| < 2 || |c.statements[1].statements| < 2 then Err(IndexOutOfRange)
      else
        var context := c.statements[1];
        if |part.statements| < 2 then Err(IndexOutOfRange)
        else Ok(Frame(paramList.statements, part.statements[1],
                      context.statements[0].statements, context.statements[1].statements))
  }

  /** Everything a frame names lies in a closed set that holds the closure. */
  lemma FrameWithin(c: Node, argc: int, universe: set<Node>)
    requires Closed(universe) && c in universe && CallFrame(c, argc).Ok?
    ensures CallFrame(c, argc).value.body in universe
    ensures forall k :: 0 <= k < |CallFrame(c, argc).value.params| ==> CallFrame(c, argc).value.params[k] in universe
    ensures forall k :: 0 <= k < |CallFrame(c, argc).value.capNames| ==> CallFrame(c, argc).value.capNames[k] in universe
    ensures forall k :: 0 <= k < |CallFrame(c, argc).value.capValues| ==> CallFrame(c, argc).value.capValues[k] in universe
  {
    var part, context := c.statements[0], c.statements[1];
    assert part in universe && context in universe;
    assert part.statements[0] in universe;
    assert context.statements[0] in universe && context.statements[1] in universe;
  }

  /** `CallFrame` read from recorded contents instead of the live nodes. */
  ghost function CallFrameIn(h: Heap, c: Node, argc: int): (r: Result<Frame>)
    requires ClosedHeap(h) && c in h
    ensures r.Ok? ==> |r.value.params| == argc
  {
    var cs := h[c].statements;
    if |cs| == 0 || |h[cs[0]].statements| == 0 then Err(IndexOutOfRange)
    else
      var part := cs[0];
      var paramList := h[part].statements[0];
      if |h[paramList].statements| != argc then Err(ParamCount)
      else if |cs| < 2 || |h[cs[1]].statements| < 2 then Err(IndexOutOfRange)
      else
        var context := cs[1];
        if |h[part].statements| < 2 then Err(IndexOutOfRange)
        else Ok(Frame(h[paramList].statements, h[part].statements[1],
                      h[h[context].statements[0]].statements, h[h[context].statements[1]].statements))
  }

  /** Reading a frame from a snapshot of a closed set is reading it from the
      nodes themselves. */
  lemma CallFrameAgrees(s: set<Node>, c: Node, argc: int)
    requires Closed(s) && c in s
    ensures ClosedHeap(Snapshot(s)) && CallFrameIn(Snapshot(s), c, argc) == CallFrame(c, argc)
  {
    SnapshotClosed(s);
    var h := Snapshot(s);
    assert h[c] == ContentsOf(c);
    if |c.statements| > 0 {
      var part := c.statements[0];
      assert h[part] == ContentsOf(part);
      if |part.statements| > 0 {
        assert h[part.statements[0]] == ContentsOf(part.statements[0]);
      }
    }
    if |c.statements| > 1 {
      var context := c.statements[1];
      assert h[context] == ContentsOf(context);
      if |context.statements| > 1 {
        assert h[context.statements[0]] == ContentsOf(context.statements[0]);
        assert h[context.statements[1]] == ContentsOf(context.statements[1]);
      }
    }
  }

  /** A placeholder whose contents were overwritten with those of a closure is
      called exactly as that closure is. */
  lemma PatchedPlaceholderCalls(h: Heap, p: Node, c: Node, argc: int)
    requires ClosedHeap(h) && p in h && c in h && h[p] == h[c]
    ensures CallFrameIn(h, p, argc) == CallFrameIn(h, c, argc)
  {
  }

  // ---------------------------------------------------------------- traces

  /** The record of one evaluation: the node and the fuel it was given, the
      contents of the nodes and the matrices it started from, its result, the
      contents and matrices it left, the evaluations it ran itself, in order,
      and the placeholders a `letrec` made. */
  datatype Trace = Trace(node: Node, fuel: nat, pre: Heap, names: Matrix, values: Matrix,
                         result: Result<Node>, post: Heap, outNames: Matrix, outValues: Matrix,
                         subs: seq<Trace>, holes: seq<Node>)

  /** `t` is the evaluation of `x` with `fuel`, from the contents `h` and the
      matrices `(n, v)`. */
  predicate Runs(t: Trace, x: Node, fuel: nat, h: Heap, n: Matrix, v: Matrix)
  {
    t.node == x && t.fuel == fuel && t.pre == h && t.names == n && t.values == v
  }

  /** `t` gave `r` and left the contents `h` and the matrices `(n, v)`. */
  predicate Ends(t: Trace, r: Result<Node>, h: Heap, n: Matrix, v: Matrix)
  {
    t.result == r && t.post == h && t.outNames == n && t.outValues == v
  }

  /** `t` evaluated nothing and changed nothing. */
  predicate Quiet(t: Trace)
  {
    t.subs == [] && t.post == t.pre && t.outNames == t.names && t.outValues == t.values
  }

  /** `h'` holds every node of `h`, with the same contents. */
  predicate Extends(h: Heap, h': Heap)
  {
    h.Keys <= h'.Keys && forall x :: x in h ==> h'[x] == h[x]
  }

  predicate AllOk(ts: seq<Trace>)
  {
    forall k :: 0 <= k < |ts| ==> ts[k].result.Ok?
  }

  /** The values of evaluations that all succeeded. */
  function Values(ts: seq<Trace>): (vs: seq<Node>)
    requires AllOk(ts)
    ensures |vs| == |ts| && forall k :: 0 <= k < |ts| ==> vs[k] == ts[k].result.value
  {
    seq(|ts|, k requires 0 <= k < |ts| => ts[k].result.value)
  }

  /** The contents, names and values the last of a sequence of evaluations
      left, or the ones it started from when it is empty. */
  function HeapAfter(ts: seq<Trace>, h: Heap): (h': Heap)
  {
    if ts == [] then h else ts[|ts| - 1].post
  }

  function NamesAfter(ts: seq<Trace>, n: Matrix): (n': Matrix)
  {
    if ts == [] then n else ts[|ts| - 1].outNames
  }

  function ValuesAfter(ts: seq<Trace>, v: Matrix): (v': Matrix)
  {
    if ts == [] then v else ts[|ts| - 1].outValues
  }

  /** `ts` evaluated the nodes `xs` one after another, the first from `h` and
      `(n, v)`, each later one from where the one before it stopped. */
  predicate Chain(ts: seq<Trace>, xs: seq<Node>, fuel: nat, h: Heap, n: Matrix, v: Matrix)
  {
    |ts| == |xs| && (ts != [] ==> Runs(ts[0], xs[0], fuel, h, n, v)) &&
    forall k :: 0 < k < |ts| ==> Runs(ts[k], xs[k], fuel, ts[k - 1].post, ts[k - 1].outNames, ts[k - 1].outValues)
  }

  /** The recorded child vectors of some nodes. */
  function ChildVectorsIn(h: Heap, xs: seq<Node>): (vs: seq<seq<Node>>)
    requires forall k :: 0 <= k < |xs| ==> xs[k] in h
    ensures |vs| == |xs| && forall k :: 0 <= k < |xs| ==> vs[k] == h[xs[k]].statements
  {
    seq(|xs|, k requires 0 <= k < |xs| => h[xs[k]].statements)
  }

  /** The initializer of each binding. */
  function Initializers(bs: seq<seq<Node>>): (xs: seq<Node>)
    requires AllPairs(bs)
    ensures |xs| == |bs| && forall k :: 0 <= k < |bs| ==> xs[k] == bs[k][1]
  {
    seq(|bs|, k requires 0 <= k < |bs| => bs[k][1])
  }

  /** Placeholders added to recorded contents: tag "OMEGA", no children. */
  function WithHoles(h: Heap, holes: seq<Node>): (h': Heap)
  {
    h + map x | x in holes :: Contents("OMEGA", [])
  }

  /** The branch a boolean test selects: child 1 for true, child 2 for false. */
  function Taken(b: Node): (k: nat)
  {
    if b.boolValue then 1 else 2
  }

  /** What a node that evaluates no child gives, from its recorded children
      `st` and the matrices `(n, v)`. */
  function LeafValue(x: Node, st: seq<Node>, n: Matrix, v: Matrix): (r: Result<Node>)
    requires IsLeaf(x.kind)
  {
    if SelfEvaluating(x.kind) then Ok(x)
    else if x.kind == Quote then (if st == [] then Err(IndexOutOfRange) else Ok(st[0]))
    else if x.kind == Ident then AssocSpec(n, v, x.name)
    else Err(UnknownNodeType)
  }

  // ---------------------------------------------------------------- the rules

  /** Every evaluation a trace records, its own included, follows the rule of
      its node's class, reading the node's children from the contents it
      started from. */
  ghost predicate Valid(t: Trace)
    decreases t, 4
  {
    t.node in t.pre && Step(t)
  }

  /** Every evaluation a form's trace records directly is valid. Each rule
      that evaluates children states it, so that the rules unfold one at a
      time. */
  ghost predicate SubsValid(t: Trace)
    decreases t, 0
  {
    forall k :: 0 <= k < |t.subs| ==> Valid(t.subs[k])
  }

  ghost predicate AllValid(ts: seq<Trace>)
  {
    forall k :: 0 <= k < |ts| ==> Valid(ts[k])
  }

  lemma AllValidJoin(a: seq<Trace>, b: seq<Trace>)
    requires AllValid(a) && AllValid(b)
    ensures AllValid(a + b)
  {
    forall k | 0 <= k < |a + b| ensures Valid((a + b)[k]) {
      if k >= |a| {
        assert (a + b)[k] == b[k - |a|];
      }
    }
  }

  /** The class ladder of `Emulator::eval(e, n, v)`: no fuel stops the
      evaluation; the kinds that evaluate no child answer at once; a lambda
      builds a closure; every other form fails on a node without children, as
      `getStatement(0)` does, and otherwise follows its own rule. */
  ghost predicate Step(t: Trace)
    requires t.node in t.pre
    decreases t, 3
  {
    var e, st := t.node, t.pre[t.node].statements;
    if t.fuel == 0 then Quiet(t) && t.result == Err(OutOfFuel)
    else if IsLeaf(e.kind) then Quiet(t) && t.result == LeafValue(e, st, t.names, t.values)
    else if e.kind == Lambda then LambdaStep(t, st)
    else if st == [] then Quiet(t) && t.result == Err(IndexOutOfRange)
    else FormStep(t, st)
  }

  /** The rungs of the ladder that evaluate children, on a node with children
      `st`. */
  ghost predicate FormStep(t: Trace, st: seq<Node>)
    requires t.fuel > 0 && st != []
    decreases t, 2
  {
    var k := t.node.kind;
    if IsUnary(k) then UnaryStep(t, st)
    else if IsBinary(k) then BinaryStep(t, st)
    else if k == Cond then CondStep(t, st)
    else if k == Let then LetStep(t, st)
    else if k == Letrec then LetrecStep(t, st)
    else CallStep(t, st)
  }

  /** The nodes of a closure `[[params, body], [names, values]]` recorded in
      `h'`: the closure, the pair, the parameter list, the context and its two
      rows, in that order. */
  ghost function ClosureNodes(h': Heap, c: Node): (ns: seq<Node>)
    requires ClosedHeap(h') && c in h'
    requires |h'[c].statements| == 2 && h'[h'[c].statements[0]].statements != []
    requires |h'[h'[c].statements[1]].statements| == 2
    ensures |ns| == 6 && ns[0] == c && forall k :: 0 <= k < 6 ==> ns[k] in h'
  {
    var part, context := h'[c].statements[0], h'[c].statements[1];
    [c, part, h'[part].statements[0], context] + h'[context].statements
  }

  /** `c` is a closure built from scratch since `h`: it and the five lists it
      is made of are new, and no two of them are the same node. */
  ghost predicate NewClosure(h: Heap, h': Heap, c: Node)
    requires ClosedHeap(h') && c in h'
  {
    |h'[c].statements| == 2 && h'[h'[c].statements[0]].statements != [] &&
    |h'[h'[c].statements[1]].statements| == 2 &&
    var ns := ClosureNodes(h', c);
    (forall k :: 0 <= k < 6 ==> ns[k] !in h) &&
    forall i, j :: 0 <= i < j < 6 ==> ns[i] != ns[j]
  }

  /** `evalLambdaNode`: nothing is evaluated and no existing node changes. A
      lambda with children gives a new "CLOSURE" node, made only of new lists,
      whose frame holds every child but the last as the parameters, the last
      child as the body and the matrices flattened in row order as the
      captured context. */
  ghost predicate LambdaStep(t: Trace, st: seq<Node>)
  {
    t.subs == [] && t.outNames == t.names && t.outValues == t.values && Extends(t.pre, t.post) &&
    if st == [] then t.result == Err(IndexOutOfRange)
    else
      t.result.Ok? && t.result.value in t.post && ClosedHeap(t.post) &&
      NewClosure(t.pre, t.post, t.result.value) &&
      t.result.value.kind == FuncClosure && t.post[t.result.value].nodeType == "CLOSURE" &&
      CallFrameIn(t.post, t.result.value, |st| - 1) ==
        Ok(Frame(st[..|st| - 1], st[|st| - 1], Flatten(t.names), Flatten(t.values)))
  }

  /** `evalCarNode`, `evalCdrNode`, `evalAtomNode`, `evalLiteralNode`: child 0
      is evaluated, then the rule applied to its value. */
  ghost predicate UnaryStep(t: Trace, st: seq<Node>)
    requires t.fuel > 0 && st != [] && IsUnary(t.node.kind)
    decreases t, 1
  {
    SubsValid(t) &&
    |t.subs| == 1 && Runs(t.subs[0], st[0], t.fuel - 1, t.pre, t.names, t.values) &&
    t.outNames == t.subs[0].outNames && t.outValues == t.subs[0].outValues &&
    UnaryApplied(t.node.kind, t.subs[0], t.result, t.post)
  }

  /** The rule `op` applied to what the operand evaluation `s` gave: its error
      passed on, or the rule's outcome on the value and its contents then. */
  ghost predicate UnaryApplied(op: Kind, s: Trace, r: Result<Node>, h': Heap)
    requires IsUnary(op)
  {
    match s.result
    case Err(e) => r == Err(e) && h' == s.post
    case Ok(c) => c in s.post && Yields(UnaryOf(op, c, s.post[c]), r, s.post, h')
  }

  /** The binary handlers: child 0 is evaluated, then child 1 from where it
      stopped, then the rule applied to both values. */
  ghost predicate BinaryStep(t: Trace, st: seq<Node>)
    requires t.fuel > 0 && st != [] && IsBinary(t.node.kind)
    decreases t, 1
  {
    SubsValid(t) &&
    |t.subs| >= 1 && Runs(t.subs[0], st[0], t.fuel - 1, t.pre, t.names, t.values) &&
    SecondRan(t.node.kind, t.subs[0], st, t.fuel, t.subs[1..], t.result, t.post, t.outNames, t.outValues)
  }

  /** What follows the first operand evaluation `s`: its error is passed on
      and a missing child 1 is out of range, with nothing more evaluated;
      otherwise child 1 is evaluated (`rest`), its error passed on, and the
      rule applied to the two values and their contents then. */
  ghost predicate SecondRan(op: Kind, s: Trace, st: seq<Node>, fuel: nat, rest: seq<Trace>,
                            r: Result<Node>, h': Heap, n': Matrix, v': Matrix)
    requires IsBinary(op) && fuel > 0
  {
    if s.result.Err? || |st| < 2 then
      rest == [] && r == (if s.result.Err? then s.result else Err(IndexOutOfRange)) &&
      h' == s.post && n' == s.outNames && v' == s.outValues
    else
      |rest| == 1 && Runs(rest[0], st[1], fuel - 1, s.post, s.outNames, s.outValues) &&
      n' == rest[0].outNames && v' == rest[0].outValues &&
      match rest[0].result
      case Err(e) => r == Err(e) && h' == rest[0].post
      case Ok(b) => BinaryApplied(op, s.result.value, b, r, rest[0].post, h')
  }

  /** The operator applied to evaluated operands `a` and `b` in the heap `u`. */
  ghost predicate BinaryApplied(op: Kind, a: Node, b: Node, r: Result<Node>, u: Heap, h': Heap)
    requires IsBinary(op)
  {
    a in u && b in u && Yields(BinaryOf(op, a, u[a], b, u[b]), r, u, h')
  }

  /** `evalCondNode`: the test, child 0, is evaluated; then the branch it
      selects, and only that one. */
  ghost predicate CondStep(t: Trace, st: seq<Node>)
    requires t.fuel > 0 && st != []
    decreases t, 1
  {
    SubsValid(t) &&
    |t.subs| >= 1 && Runs(t.subs[0], st[0], t.fuel - 1, t.pre, t.names, t.values) &&
    Branched(t.subs[0], st, t.fuel, t.subs[1..], t.result, t.post, t.outNames, t.outValues)
  }

  /** What follows the test evaluation `s`: its error is passed on, a value
      that is not a boolean is `CondError`, a selected child that does not
      exist is out of range, and in these cases nothing more is evaluated;
      otherwise the selected child is evaluated from where the test stopped,
      and the form gives its result and stops where it stopped. */
  ghost predicate Branched(s: Trace, st: seq<Node>, fuel: nat, rest: seq<Trace>,
                           r: Result<Node>, h': Heap, n': Matrix, v': Matrix)
    requires fuel > 0
  {
    if s.result.Err? || s.result.value.kind != BoolLit || Taken(s.result.value) >= |st| then
      rest == [] && h' == s.post && n' == s.outNames && v' == s.outValues &&
      r == (if s.result.Err? then s.result
            else if s.result.value.kind != BoolLit then Err(CondError)
            else Err(IndexOutOfRange))
    else
      |rest| == 1 && Runs(rest[0], st[Taken(s.result.value)], fuel - 1, s.post, s.outNames, s.outValues) &&
      Ends(rest[0], r, h', n', v')
  }

  /** `evalFuncCall`: the arguments, children 1.., are evaluated first, in
      order, stopping at the first error, which is the result; then the callee,
      child 0, from where they stopped; then the call. */
  ghost predicate CallStep(t: Trace, st: seq<Node>)
    requires t.fuel > 0 && st != []
    decreases t, 1
  {
    SubsValid(t) &&
    var m := |st| - 1;
    if |t.subs| <= m then
      ArgsStopped(st, t.fuel - 1, t.pre, t.names, t.values, t.subs) &&
      Ends(t.subs[|t.subs| - 1], t.result, t.post, t.outNames, t.outValues)
    else
      var args := t.subs[..m];
      ArgsDone(st, t.fuel - 1, t.pre, t.names, t.values, args) &&
      Runs(t.subs[m], st[0], t.fuel - 1, HeapAfter(args, t.pre), NamesAfter(args, t.names), ValuesAfter(args, t.values)) &&
      t.outNames == t.subs[m].outNames && t.outValues == t.subs[m].outValues &&
      Called(t.subs[m], Values(args), t.fuel, t.subs[m + 1..], t.result, t.post)
  }

  /** The argument evaluations `ts` ran in order and the last one failed. */
  predicate ArgsStopped(st: seq<Node>, fuel: nat, h: Heap, n: Matrix, v: Matrix, ts: seq<Trace>)
  {
    st != [] && ts != [] && |ts| <= |st| - 1 && Chain(ts, st[1..|ts| + 1], fuel, h, n, v) &&
    AllOk(ts[..|ts| - 1]) && ts[|ts| - 1].result.Err?
  }

  /** Every argument was evaluated, in order, and all succeeded. */
  predicate ArgsDone(st: seq<Node>, fuel: nat, h: Heap, n: Matrix, v: Matrix, ts: seq<Trace>)
  {
    st != [] && |ts| == |st| - 1 && Chain(ts, st[1..], fuel, h, n, v) && AllOk(ts)
  }

  /** The argument loop gave `r`: the values of all arguments, or the error of
      the one it stopped at. */
  predicate ArgsRan(st: seq<Node>, fuel: nat, h: Heap, n: Matrix, v: Matrix, ts: seq<Trace>, r: Result<seq<Node>>)
  {
    match r
    case Ok(vals) => ArgsDone(st, fuel, h, n, v, ts) && vals == Values(ts)
    case Err(e) => ArgsStopped(st, fuel, h, n, v, ts) && ts[|ts| - 1].result == Err(e)
  }

  /** The callee evaluation `s` and then the call of its value with `args`:
      its error is passed on; a value that is not a closure is `NotAClosure`;
      the frame is read from the contents the callee evaluation left, and its
      error is passed on; otherwise the body is evaluated from there in the
      matrices `[captured names, parameters]` / `[captured values, args]`, and
      gives the result. */
  ghost predicate Called(s: Trace, args: seq<Node>, fuel: nat, rest: seq<Trace>, r: Result<Node>, h': Heap)
    requires fuel > 0
  {
    if s.result.Err? then rest == [] && r == s.result && h' == s.post
    else if s.result.value.kind != FuncClosure then rest == [] && r == Err(NotAClosure) && h' == s.post
    else
      s.result.value in s.post && ClosedHeap(s.post) &&
      match CallFrameIn(s.post, s.result.value, |args|)
      case Err(e) => rest == [] && r == Err(e) && h' == s.post
      case Ok(f) =>
        |rest| == 1 && Runs(rest[0], f.body, fuel - 1, s.post, [f.capNames, f.params], [f.capValues, args]) &&
        r == rest[0].result && h' == rest[0].post
  }

  /** `evalLetNode`: child 0 is the body, children 1.. the bindings, whose
      child vectors are read from the contents the form started from. */
  ghost predicate LetStep(t: Trace, st: seq<Node>)
    requires t.fuel > 0 && st != []
    decreases t, 1
  {
    SubsValid(t) &&
    (forall k :: 0 <= k < |st| ==> st[k] in t.pre) &&
    LetRan(ChildVectorsIn(t.pre, st[1..]), st[0], t.fuel, t.pre, t.names, t.values,
           t.subs, t.result, t.post, t.outNames, t.outValues)
  }

  /** The bindings `bs` and the body `body` of a `let`: every initializer is
      evaluated in order, each from where the one before stopped; the first
      error, or a binding without an initializer, is the result. After their
      success a row pairing the names with the values is inserted at the front
      of the matrices they left, and the body evaluated there gives the
      result. The row is never removed. */
  ghost predicate LetRan(bs: seq<seq<Node>>, body: Node, fuel: nat, h: Heap, n: Matrix, v: Matrix,
                         ts: seq<Trace>, r: Result<Node>, h': Heap, n': Matrix, v': Matrix)
    requires fuel > 0
  {
    if |ts| <= |bs| then
      r.Err? && InitsStopped(bs, fuel - 1, h, n, v, ts, r.error) &&
      h' == HeapAfter(ts, h) && n' == NamesAfter(ts, n) && v' == ValuesAfter(ts, v)
    else
      var inits := ts[..|bs|];
      |ts| == |bs| + 1 && InitsDone(bs, fuel - 1, h, n, v, inits) &&
      Runs(ts[|bs|], body, fuel - 1, HeapAfter(inits, h),
           [Heads(bs)] + NamesAfter(inits, n), [Values(inits)] + ValuesAfter(inits, v)) &&
      Ends(ts[|bs|], r, h', n', v')
  }

  /** The initializer loop stopped with `err`: at an initializer that failed,
      or at a binding without one, before evaluating anything for it. */
  predicate InitsStopped(bs: seq<seq<Node>>, fuel: nat, h: Heap, n: Matrix, v: Matrix, ts: seq<Trace>, err: Error)
  {
    |ts| <= |bs| && AllPairs(bs[..|ts|]) && Chain(ts, Initializers(bs[..|ts|]), fuel, h, n, v) &&
    if ts != [] && ts[|ts| - 1].result.Err? then AllOk(ts[..|ts| - 1]) && err == ts[|ts| - 1].result.error
    else AllOk(ts) && |ts| < |bs| && |bs[|ts|]| < 2 && err == IndexOutOfRange
  }

  /** Every initializer was evaluated, in order, and all succeeded. */
  predicate InitsDone(bs: seq<seq<Node>>, fuel: nat, h: Heap, n: Matrix, v: Matrix, ts: seq<Trace>)
  {
    |ts| == |bs| && AllPairs(bs) && Chain(ts, Initializers(bs), fuel, h, n, v) && AllOk(ts)
  }

  /** The initializer loop gave `r`: the values, or the error it stopped with. */
  predicate InitsRan(bs: seq<seq<Node>>, fuel: nat, h: Heap, n: Matrix, v: Matrix, ts: seq<Trace>,
                     r: Result<seq<Node>>)
  {
    match r
    case Ok(vals) => InitsDone(bs, fuel, h, n, v, ts) && vals == Values(ts)
    case Err(e) => InitsStopped(bs, fuel, h, n, v, ts, e)
  }

  /** `evalLetrecNode`: child 0 is the body, children 1.. the bindings. */
  ghost predicate LetrecStep(t: Trace, st: seq<Node>)
    requires t.fuel > 0 && st != []
    decreases t, 1
  {
    SubsValid(t) &&
    (forall k :: 0 <= k < |st| ==> st[k] in t.pre) &&
    LetrecRan(ChildVectorsIn(t.pre, st[1..]), st[0], t.fuel, t.pre, t.names, t.values, t.holes,
              t.subs, t.result, t.post, t.outNames, t.outValues)
  }

  /** `holes` are the placeholders the first loop of `evalLetrecNode` made: one
      new closure node per binding, up to the first binding with no children. */
  ghost predicate Placeholders(bs: seq<seq<Node>>, holes: seq<Node>, h: Heap)
  {
    |holes| <= |bs| && (forall k :: 0 <= k < |holes| ==> bs[k] != []) &&
    (|holes| < |bs| ==> bs[|holes|] == []) &&
    (forall k :: 0 <= k < |holes| ==> holes[k] !in h && holes[k].kind == FuncClosure) &&
    (forall k, j :: 0 <= k < j < |holes| ==> holes[k] != holes[j])
  }

  /** A binding with no children stops the form before anything is
      evaluated. Otherwise a row pairing the names with the placeholders is
      inserted at the front of the matrices and the rest runs from there. */
  ghost predicate LetrecRan(bs: seq<seq<Node>>, body: Node, fuel: nat, h: Heap, n: Matrix, v: Matrix,
                            holes: seq<Node>, ts: seq<Trace>, r: Result<Node>, h': Heap, n': Matrix, v': Matrix)
    requires fuel > 0
  {
    Placeholders(bs, holes, h) &&
    if |holes| < |bs| then
      ts == [] && r == Err(IndexOutOfRange) && h' == h && n' == n && v' == v
    else
      LetrecInitsRan(bs, body, fuel, WithHoles(h, holes), [Heads(bs)] + n, [holes] + v, ts, r, h', n', v')
  }

  /** The initializers of a `letrec`, as in `let`, from `(h0, n0, v0)`; after
      their success, `complete` and the body. */
  ghost predicate LetrecInitsRan(bs: seq<seq<Node>>, body: Node, fuel: nat, h0: Heap, n0: Matrix, v0: Matrix,
                                 ts: seq<Trace>, r: Result<Node>, h': Heap, n': Matrix, v': Matrix)
    requires fuel > 0
  {
    if |ts| < |bs| || !AllOk(ts[..|bs|]) then
      r.Err? && InitsStopped(bs, fuel - 1, h0, n0, v0, ts, r.error) &&
      h' == HeapAfter(ts, h0) && n' == NamesAfter(ts, n0) && v' == ValuesAfter(ts, v0)
    else
      var inits := ts[..|bs|];
      InitsDone(bs, fuel - 1, h0, n0, v0, inits) &&
      Completed(Values(inits), body, fuel, HeapAfter(inits, h0), NamesAfter(inits, n0), ValuesAfter(inits, v0),
                ts[|bs|..], r, h', n', v')
  }

  /** `complete(v, z)` on row 0 of the values matrix `vI`, from the contents
      `hI`: it overwrites the slots as `Patched` says, up to where it stops;
      its error is the result, and otherwise the body is evaluated from the
      patched contents and gives the result. */
  ghost predicate Completed(z: seq<Node>, body: Node, fuel: nat, hI: Heap, nI: Matrix, vI: Matrix,
                            rest: seq<Trace>, r: Result<Node>, h': Heap, n': Matrix, v': Matrix)
    requires fuel > 0
  {
    |vI| > 0 && (forall j :: 0 <= j < |vI[0]| ==> vI[0][j] in hI) && (forall j :: 0 <= j < |z| ==> z[j] in hI) &&
    var hC := Patched(hI, vI[0], z, StopIndex(vI[0], z));
    match CompleteOutcome(vI[0], z)
    case Err(e) => rest == [] && r == Err(e) && h' == hC && n' == nI && v' == vI
    case Ok(_) => |rest| == 1 && Runs(rest[0], body, fuel - 1, hC, nI, vI) && Ends(rest[0], r, h', n', v')
  }

  // ---------------------------------------------------------------- one step at a time

  /** A form node without children fails at once. */
  lemma {:induction false} EmptyFormValid(t: Trace)
    requires t.node in t.pre && t.pre[t.node].statements == [] && t.fuel > 0
    requires !IsLeaf(t.node.kind) && t.node.kind != Lambda
    requires Quiet(t) && t.result == Err(IndexOutOfRange)
    ensures Valid(t)
  {
    assert Step(t);
  }

  lemma {:induction false} LambdaValid(t: Trace)
    requires t.node in t.pre && t.fuel > 0 && t.node.kind == Lambda
    requires LambdaStep(t, t.pre[t.node].statements)
    ensures Valid(t)
  {
    assert Step(t);
  }

  /** A trace of a form with children is valid once its own rung holds. */
  lemma {:induction false} FormValid(t: Trace, st: seq<Node>)
    requires t.node in t.pre && t.pre[t.node].statements == st && st != [] && t.fuel > 0
    requires !IsLeaf(t.node.kind) && t.node.kind != Lambda && FormStep(t, st)
    ensures Valid(t)
  {
    assert Step(t);
  }

  lemma {:induction false} UnaryValid(e: Node, fuel: nat, h: Heap, n: Matrix, v: Matrix, st: seq<Node>, s: Trace,
                   r: Result<Node>, h': Heap, n': Matrix, v': Matrix)
    requires e in h && h[e].statements == st && st != [] && fuel > 0 && IsUnary(e.kind)
    requires Valid(s) && Runs(s, st[0], fuel - 1, h, n, v) && n' == s.outNames && v' == s.outValues
    requires UnaryApplied(e.kind, s, r, h')
    ensures Valid(Trace(e, fuel, h, n, v, r, h', n', v', [s], []))
  {
    var t := Trace(e, fuel, h, n, v, r, h', n', v', [s], []);
    assert SubsValid(t);
    assert UnaryStep(t, st);
    assert FormStep(t, st); FormValid(t, st);
  }

  lemma {:induction false} BinaryValid(e: Node, fuel: nat, h: Heap, n: Matrix, v: Matrix, st: seq<Node>, s: Trace, rest: seq<Trace>,
                    r: Result<Node>, h': Heap, n': Matrix, v': Matrix)
    requires e in h && h[e].statements == st && st != [] && fuel > 0 && IsBinary(e.kind)
    requires Valid(s) && AllValid(rest) && Runs(s, st[0], fuel - 1, h, n, v)
    requires SecondRan(e.kind, s, st, fuel, rest, r, h', n', v')
    ensures Valid(Trace(e, fuel, h, n, v, r, h', n', v', [s] + rest, []))
  {
    BinaryTraceValid(Trace(e, fuel, h, n, v, r, h', n', v', [s] + rest, []), st, s, rest);
  }

  lemma {:induction false} BinaryTraceValid(t: Trace, st: seq<Node>, s: Trace, rest: seq<Trace>)
    requires t.node in t.pre && t.pre[t.node].statements == st && st != [] && t.fuel > 0 && IsBinary(t.node.kind)
    requires t.subs == [s] + rest && Valid(s) && AllValid(rest) && Runs(s, st[0], t.fuel - 1, t.pre, t.names, t.values)
    requires SecondRan(t.node.kind, s, st, t.fuel, rest, t.result, t.post, t.outNames, t.outValues)
    ensures Valid(t)
  {
    SubsOf(t, s, rest);
    assert BinaryStep(t, st);
    BinaryStepRung(t, st);
    FormValid(t, st);
  }

  /** A binary operator's rule is the rung of the ladder its form follows. */
  lemma {:induction false} BinaryStepRung(t: Trace, st: seq<Node>)
    requires st != [] && t.fuel > 0 && IsBinary(t.node.kind) && BinaryStep(t, st)
    ensures FormStep(t, st)
  {
  }

  lemma {:induction false} SubsOf(t: Trace, s: Trace, rest: seq<Trace>)
    requires t.subs == [s] + rest && Valid(s) && AllValid(rest)
    ensures t.subs[0] == s && t.subs[1..] == rest && SubsValid(t)
  {
    assert t.subs[1..] == rest;
    forall k | 0 <= k < |t.subs|
      ensures Valid(t.subs[k])
    {
      if k > 0 {
        assert t.subs[k] == rest[k - 1];
      }
    }
  }

  lemma {:induction false} CondValid(e: Node, fuel: nat, h: Heap, n: Matrix, v: Matrix, st: seq<Node>, s: Trace, rest: seq<Trace>,
                  r: Result<Node>, h': Heap, n': Matrix, v': Matrix)
    requires e in h && h[e].statements == st && st != [] && fuel > 0 && e.kind == Cond
    requires Valid(s) && AllValid(rest) && Runs(s, st[0], fuel - 1, h, n, v)
    requires Branched(s, st, fuel, rest, r, h', n', v')
    ensures Valid(Trace(e, fuel, h, n, v, r, h', n', v', [s] + rest, []))
  {
    var t := Trace(e, fuel, h, n, v, r, h', n', v', [s] + rest, []);
    SubsOf(t, s, rest);
    assert CondStep(t, st);
    assert FormStep(t, st); FormValid(t, st);
  }

  lemma {:induction false} LetValid(e: Node, fuel: nat, h: Heap, n: Matrix, v: Matrix, st: seq<Node>, ts: seq<Trace>,
                 r: Result<Node>, h': Heap, n': Matrix, v': Matrix)
    requires e in h && h[e].statements == st && st != [] && fuel > 0 && e.kind == Let
    requires AllValid(ts) && forall k :: 0 <= k < |st| ==> st[k] in h
    requires LetRan(ChildVectorsIn(h, st[1..]), st[0], fuel, h, n, v, ts, r, h', n', v')
    ensures Valid(Trace(e, fuel, h, n, v, r, h', n', v', ts, []))
  {
    LetTraceValid(Trace(e, fuel, h, n, v, r, h', n', v', ts, []), st);
  }

  lemma {:induction false} LetTraceValid(t: Trace, st: seq<Node>)
    requires t.node in t.pre && t.pre[t.node].statements == st && st != [] && t.fuel > 0 && t.node.kind == Let
    requires AllValid(t.subs) && forall k :: 0 <= k < |st| ==> st[k] in t.pre
    requires LetRan(ChildVectorsIn(t.pre, st[1..]), st[0], t.fuel, t.pre, t.names, t.values,
                    t.subs, t.result, t.post, t.outNames, t.outValues)
    ensures Valid(t)
  {
    LetStepOf(t, st);
    LetStepRung(t, st);
    FormValid(t, st);
  }

  /** A `let` trace whose nested evaluations are valid and ran as the form
      prescribes follows the `let` rule. */
  lemma {:induction false} LetStepOf(t: Trace, st: seq<Node>)
    requires t.node in t.pre && t.pre[t.node].statements == st && st != [] && t.fuel > 0 && t.node.kind == Let
    requires AllValid(t.subs) && forall k :: 0 <= k < |st| ==> st[k] in t.pre
    requires LetRan(ChildVectorsIn(t.pre, st[1..]), st[0], t.fuel, t.pre, t.names, t.values,
                    t.subs, t.result, t.post, t.outNames, t.outValues)
    ensures LetStep(t, st)
  {
    assert SubsValid(t);
  }

  /** The `let` rule is the rung of the ladder a `let` form follows. */
  lemma {:induction false} LetStepRung(t: Trace, st: seq<Node>)
    requires st != [] && t.fuel > 0 && t.node.kind == Let && LetStep(t, st)
    ensures FormStep(t, st)
  {
  }

  lemma {:induction false} LetrecValid(e: Node, fuel: nat, h: Heap, n: Matrix, v: Matrix, st: seq<Node>, holes: seq<Node>,
                    ts: seq<Trace>, r: Result<Node>, h': Heap, n': Matrix, v': Matrix)
    requires e in h && h[e].statements == st && st != [] && fuel > 0 && e.kind == Letrec
    requires AllValid(ts) && forall k :: 0 <= k < |st| ==> st[k] in h
    requires LetrecRan(ChildVectorsIn(h, st[1..]), st[0], fuel, h, n, v, holes, ts, r, h', n', v')
    ensures Valid(Trace(e, fuel, h, n, v, r, h', n', v', ts, holes))
  {
    LetrecTraceValid(Trace(e, fuel, h, n, v, r, h', n', v', ts, holes), st);
  }

  lemma {:induction false} LetrecTraceValid(t: Trace, st: seq<Node>)
    requires t.node in t.pre && t.pre[t.node].statements == st && st != [] && t.fuel > 0 && t.node.kind == Letrec
    requires AllValid(t.subs) && forall k :: 0 <= k < |st| ==> st[k] in t.pre
    requires LetrecRan(ChildVectorsIn(t.pre, st[1..]), st[0], t.fuel, t.pre, t.names, t.values, t.holes,
                       t.subs, t.result, t.post, t.outNames, t.outValues)
    ensures Valid(t)
  {
    LetrecStepOf(t, st);
    LetrecStepRung(t, st);
    FormValid(t, st);
  }

  /** A `letrec` trace whose nested evaluations are valid and ran as the form
      prescribes follows the `letrec` rule. */
  lemma {:induction false} LetrecStepOf(t: Trace, st: seq<Node>)
    requires t.node in t.pre && t.pre[t.node].statements == st && st != [] && t.fuel > 0 && t.node.kind == Letrec
    requires AllValid(t.subs) && forall k :: 0 <= k < |st| ==> st[k] in t.pre
    requires LetrecRan(ChildVectorsIn(t.pre, st[1..]), st[0], t.fuel, t.pre, t.names, t.values, t.holes,
                       t.subs, t.result, t.post, t.outNames, t.outValues)
    ensures LetrecStep(t, st)
  {
    assert SubsValid(t);
  }

  /** The `letrec` rule is the rung of the ladder a `letrec` form follows. */
  lemma {:induction false} LetrecStepRung(t: Trace, st: seq<Node>)
    requires st != [] && t.fuel > 0 && t.node.kind == Letrec && LetrecStep(t, st)
    ensures FormStep(t, st)
  {
  }

  /** A call whose argument loop stopped at an error. */
  lemma {:induction false} CallStoppedValid(e: Node, fuel: nat, h: Heap, n: Matrix, v: Matrix, st: seq<Node>, args: seq<Trace>,
                         vals: Result<seq<Node>>)
    requires e in h && h[e].statements == st && st != [] && fuel > 0 && e.kind == List
    requires AllValid(args) && vals.Err? && ArgsRan(st, fuel - 1, h, n, v, args, vals)
    ensures Valid(Trace(e, fuel, h, n, v, Err(vals.error), HeapAfter(args, h), NamesAfter(args, n),
                        ValuesAfter(args, v), args, []))
  {
    var t := Trace(e, fuel, h, n, v, Err(vals.error), HeapAfter(args, h), NamesAfter(args, n),
                   ValuesAfter(args, v), args, []);
    assert SubsValid(t);
    assert CallStep(t, st);
    assert FormStep(t, st); FormValid(t, st);
  }

  /** A call whose arguments `args` all succeeded, followed by the callee
      and the call (`rest`). */
  lemma {:induction false} CallDoneValid(e: Node, fuel: nat, h: Heap, n: Matrix, v: Matrix, st: seq<Node>, args: seq<Trace>,
                      vals: Result<seq<Node>>, rest: seq<Trace>, r: Result<Node>, h': Heap, n': Matrix, v': Matrix)
    requires e in h && h[e].statements == st && st != [] && fuel > 0 && e.kind == List
    requires AllValid(args) && AllValid(rest) && |rest| >= 1
    requires vals.Ok? && ArgsRan(st, fuel - 1, h, n, v, args, vals)
    requires Runs(rest[0], st[0], fuel - 1, HeapAfter(args, h), NamesAfter(args, n), ValuesAfter(args, v))
    requires n' == rest[0].outNames && v' == rest[0].outValues
    requires Called(rest[0], vals.value, fuel, rest[1..], r, h')
    ensures Valid(Trace(e, fuel, h, n, v, r, h', n', v', args + rest, []))
  {
    var t := Trace(e, fuel, h, n, v, r, h', n', v', args + rest, []);
    AllValidJoin(args, rest);
    CallDoneStep(t, st, args, vals.value, rest);
  }

  lemma {:induction false} CallDoneStep(t: Trace, st: seq<Node>, args: seq<Trace>, vals: seq<Node>, rest: seq<Trace>)
    requires t.node in t.pre && t.pre[t.node].statements == st && t.node.kind == List
    requires t.fuel > 0 && st != []
    requires t.subs == args + rest && AllValid(t.subs) && |rest| >= 1
    requires ArgsRan(st, t.fuel - 1, t.pre, t.names, t.values, args, Ok(vals))
    requires Runs(rest[0], st[0], t.fuel - 1, HeapAfter(args, t.pre), NamesAfter(args, t.names), ValuesAfter(args, t.values))
    requires t.outNames == rest[0].outNames && t.outValues == rest[0].outValues
    requires Called(rest[0], vals, t.fuel, rest[1..], t.result, t.post)
    ensures CallStep(t, st) && Valid(t)
  {
    var m := |st| - 1;
    assert |args| == m && ArgsDone(st, t.fuel - 1, t.pre, t.names, t.values, args) && vals == Values(args);
    assert t.subs[..m] == args && t.subs[m] == rest[0] && t.subs[m + 1..] == rest[1..];
    assert SubsValid(t);
    assert CallStep(t, st);
    assert FormStep(t, st); FormValid(t, st);
  }

  // ---------------------------------------------------------------- evaluation state

  /** What every evaluation keeps: the node set only grows, by new nodes, and
      stays closed and covering the environment, whose matrices only gain rows
      at the front. */
  twostate predicate Steps(env: Env, N: set<Node>, new N': set<Node>)
    reads env, N'
  {
    N <= N' && fresh(N' - N) && Closed(N') && env.Within(N') &&
    Prepended(old(env.names), old(env.values), env.names, env.values)
  }

  predicate SelfEvaluating(k: Kind)
  {
    k == IntLit || k == BoolLit || k == NilLit
  }

  /** The child vectors of a sequence of nodes, read together. */
  function ChildVectors(xs: seq<Node>): (vs: seq<seq<Node>>)
    reads set x | x in xs
    ensures |vs| == |xs| && forall i :: 0 <= i < |xs| ==> vs[i] == xs[i].statements
  {
    if xs == [] then [] else [xs[0].statements] + ChildVectors(xs[1..])
  }

  /** The kinds `Eval` answers without evaluating a child. */
  predicate IsLeaf(k: Kind)
  {
    SelfEvaluating(k) || k == Quote || k == Ident || k == FuncClosure || k == Plain
  }


  /** The first `i - 1` arguments ran, in order, from `(h, n, v)`, and all
      succeeded, with the values `vals`. */
  ghost predicate ArgsSoFar(st: seq<Node>, i: nat, fuel: nat, h: Heap, n: Matrix, v: Matrix, ts: seq<Trace>,
                            vals: seq<Node>)
  {
    1 <= i <= |st| && AllValid(ts) && Chain(ts, st[1..i], fuel, h, n, v) && AllOk(ts) && vals == Values(ts)
  }

  /** The first child of each of a sequence of non-empty child vectors: the
      bound identifiers of `let` and `letrec`. */
  function Heads(bs: seq<seq<Node>>): (hs: seq<Node>)
    requires forall k :: 0 <= k < |bs| ==> bs[k] != []
    ensures |hs| == |bs| && forall k :: 0 <= k < |bs| ==> hs[k] == bs[k][0]
  {
    seq(|bs|, k requires 0 <= k < |bs| => bs[k][0])
  }

  /** Every binding has a name and an initializer. */
  predicate AllPairs(bs: seq<seq<Node>>)
  {
    forall k :: 0 <= k < |bs| ==> |bs[k]| >= 2
  }

  /** The first `i` initializers ran, in order, from `(h, n, v)`, and all
      succeeded, with the values `vals`. */
  ghost predicate InitsSoFar(bs: seq<seq<Node>>, i: nat, fuel: nat, h: Heap, n: Matrix, v: Matrix, ts: seq<Trace>,
                             vals: seq<Node>)
  {
    i <= |bs| && AllValid(ts) && AllPairs(bs[..i]) && Chain(ts, Initializers(bs[..i]), fuel, h, n, v) &&
    AllOk(ts) && vals == Values(ts)
  }
}
