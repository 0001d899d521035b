/** The evaluator of src/Emulator.cpp. `Eval` dispatches on the dynamic class of
    the node, every handler evaluates the children it needs with `Eval`, and all
    of them share the caller's environment object, which `let` and `letrec`
    extend by prepending a row. Evaluation can diverge (a closure may call
    itself), so every evaluation carries fuel that each nested `Eval` spends one
    unit of. An exception thrown by the source is an `Err` here.

    Every evaluation is given a set of nodes `N` closed under children that
    holds the expression and every node of the environment, may change any node
    of it (letrec overwrites nodes in place) and hands back the grown set `N'`,
    whose new members are the nodes allocated on the way. It also hands back a
    `Trace`: the record of the whole evaluation, nested evaluations included,
    which `Valid` checks against the rules of the language one node at a time. */
module Emulator {
  import opened Outcome
  import opened Syntax
  import opened Primitives
  import opened Environment
  import opened Fixpoint
  import opened Semantics

  /** `evalLiteralInt`, `evalLiteralBool`, `evalLiteralNil` (the node itself),
      `evalQuoteNode` (child 0, unevaluated), `evalIdentifier` (its `assoc`
      value), and the end of the class ladder: a closure node and a bare node
      have no case and are an "Unknown node type". */
  method EvalLeaf(e: Node, env: Env) returns (r: Result<Node>)
    requires IsLeaf(e.kind)
    ensures SelfEvaluating(e.kind) ==> r == Ok(e)
    ensures e.kind == Quote ==> r == e.GetStatement(0)
    ensures e.kind == Ident ==> r == AssocSpec(env.names, env.values, e.name)
    ensures e.kind == FuncClosure || e.kind == Plain ==> r == Err(UnknownNodeType)
    ensures r == LeafValue(e, e.statements, env.names, env.values)
  {
    var k := e.kind;
    if SelfEvaluating(k) {
      r := Ok(e);
    } else if k == Ident {
      r := Assoc(e, env);
    } else if k == Quote {
      r := e.GetStatement(0);
    } else {
      r := Err(UnknownNodeType);
    }
  }

  // ---------------------------------------------------------------- dispatch

  /** `Emulator::eval(e, n, v)`: the class ladder. */
  method Eval(e: Node, env: Env, fuel: nat, ghost N: set<Node>) returns (r: Result<Node>, ghost N': set<Node>, ghost t: Trace)
    requires Closed(N) && e in N && env.Within(N)
    modifies env, N
    ensures Steps(env, N, N') && (r.Ok? ==> r.value in N')
    ensures Valid(t) && Runs(t, e, fuel, old(Snapshot(N)), old(env.names), old(env.values))
    ensures Ends(t, r, Snapshot(N'), env.names, env.values)
    decreases fuel, 7
  {
    ghost var h, n, v := Snapshot(N), env.names, env.values;
    assert h[e] == ContentsOf(e);
    N' := N;
    if fuel == 0 {
      PrependedRefl(n, v);
      r := Err(OutOfFuel);
      t := Trace(e, fuel, h, n, v, r, h, n, v, [], []);
      return;
    }
    var k := e.kind;
    if IsLeaf(k) {
      r := EvalLeaf(e, env);
      AssocWithin(n, v, e.name, N);
      PrependedRefl(n, v);
      t := Trace(e, fuel, h, n, v, r, h, n, v, [], []);
    } else if k == Lambda {
      r, N', t := EvalLambdaNode(e, env, fuel, N);
    } else {
      r, N', t := EvalForm(e, env, fuel, N);
    }
  }

  /** The lambda rung of the ladder, with what it adds to the node set. */
  method EvalLambdaNode(e: Node, env: Env, fuel: nat, ghost N: set<Node>)
    returns (r: Result<Node>, ghost N': set<Node>, ghost t: Trace)
    requires fuel > 0 && e.kind == Lambda
    requires Closed(N) && e in N && env.Within(N)
    ensures Steps(env, N, N') && (r.Ok? ==> r.value in N')
    ensures Valid(t) && Runs(t, e, fuel, old(Snapshot(N)), old(env.names), old(env.values))
    ensures Ends(t, r, Snapshot(N'), env.names, env.values)
    decreases fuel, 0
  {
    ghost var h, n, v := Snapshot(N), env.names, env.values;
    assert h[e] == ContentsOf(e);
    ghost var made;
    r, made := EvalLambda(e, env);
    LambdaWithin(e, env, made, N);
    N' := N + made;
    PrependedRefl(n, v);
    SnapshotClosed(N');
    if r.Ok? {
      CallFrameAgrees(N', r.value, |e.statements| - 1);
      ClosureSnapshot(N, made, r.value);
    }
    forall x | x in h ensures Snapshot(N')[x] == h[x] {
    }
    assert Steps(env, N, N') && (r.Ok? ==> r.value in N');
    t := Trace(e, fuel, h, n, v, r, Snapshot(N'), n, v, [], []);
    assert LambdaStep(t, h[e].statements);
    LambdaValid(t);
  }

  /** The rungs of the class ladder that evaluate children. */
  method EvalForm(e: Node, env: Env, fuel: nat, ghost N: set<Node>) returns (r: Result<Node>, ghost N': set<Node>, ghost t: Trace)
    requires fuel > 0 && !IsLeaf(e.kind) && e.kind != Lambda
    requires Closed(N) && e in N && env.Within(N)
    modifies env, N
    ensures Steps(env, N, N') && (r.Ok? ==> r.value in N')
    ensures Valid(t) && Runs(t, e, fuel, old(Snapshot(N)), old(env.names), old(env.values))
    ensures Ends(t, r, Snapshot(N'), env.names, env.values)
    decreases fuel, 6
  {
    var k := e.kind;
    if IsUnary(k) {
      r, N', t := EvalUnary(e, env, fuel, N);
    } else if IsBinary(k) {
      r, N', t := EvalBinary(e, env, fuel, N);
    } else if k == Cond {
      r, N', t := EvalCond(e, env, fuel, N);
    } else if k == Let {
      r, N', t := EvalLet(e, env, fuel, N);
    } else if k == Letrec {
      r, N', t := EvalLetrec(e, env, fuel, N);
    } else {
      r, N', t := EvalCall(e, env, fuel, N);
    }
  }

  // ---------------------------------------------------------------- primitive forms

  /** The rule of a unary node carried out on its operand: the error, or the
      node the rule asks for, allocated when it is a new one. */
  method ApplyUnary(op: Kind, c: Node, ghost N: set<Node>) returns (r: Result<Node>, ghost N': set<Node>)
    requires IsUnary(op) && Closed(N) && c in N
    ensures N <= N' && fresh(N' - N) && Closed(N') && (r.Ok? ==> r.value in N')
    ensures Yields(UnaryOf(op, c, old(Snapshot(N))[c]), r, old(Snapshot(N)), Snapshot(N'))
  {
    N' := N;
    ghost var h := Snapshot(N);
    assert h[c] == ContentsOf(c);
    var m := UnaryOf(op, c, ContentsOf(c));
    if m.Err? {
      return Err(m.error), N;
    }
    UnaryWithin(op, c, ContentsOf(c), N);
    var x;
    x, N' := Materialize(m.value, N);
    r := Ok(x);
  }

  /** The rule of a binary node carried out on its operands. */
  method ApplyBinary(op: Kind, left: Node, right: Node, ghost N: set<Node>) returns (r: Result<Node>, ghost N': set<Node>)
    requires IsBinary(op) && Closed(N) && left in N && right in N
    ensures N <= N' && fresh(N' - N) && Closed(N') && (r.Ok? ==> r.value in N')
    ensures Yields(BinaryOf(op, left, old(Snapshot(N))[left], right, old(Snapshot(N))[right]), r,
                   old(Snapshot(N)), Snapshot(N'))
  {
    N' := N;
    ghost var h := Snapshot(N);
    assert h[left] == ContentsOf(left) && h[right] == ContentsOf(right);
    var m := BinaryOf(op, left, ContentsOf(left), right, ContentsOf(right));
    if m.Err? {
      return Err(m.error), N;
    }
    BinaryWithin(op, left, ContentsOf(left), right, ContentsOf(right), N);
    var x;
    x, N' := Materialize(m.value, N);
    r := Ok(x);
  }

  /** `evalCarNode`, `evalCdrNode`, `evalAtomNode`, `evalLiteralNode`. */
  method EvalUnary(e: Node, env: Env, fuel: nat, ghost N: set<Node>)
    returns (r: Result<Node>, ghost N': set<Node>, ghost t: Trace)
    requires fuel > 0 && IsUnary(e.kind)
    requires Closed(N) && e in N && env.Within(N)
    modifies env, N
    ensures Steps(env, N, N') && (r.Ok? ==> r.value in N')
    ensures Valid(t) && Runs(t, e, fuel, old(Snapshot(N)), old(env.names), old(env.values))
    ensures Ends(t, r, Snapshot(N'), env.names, env.values)
    decreases fuel, 1
  {
    ghost var h, n, v := Snapshot(N), env.names, env.values;
    var st := e.statements;
    assert h[e] == ContentsOf(e);
    if st == [] {
      PrependedRefl(n, v);
      r, N' := Err(IndexOutOfRange), N;
      t := Trace(e, fuel, h, n, v, r, h, n, v, [], []);
      EmptyFormValid(t);
      return;
    }
    ghost var s;
    r, N', s := Eval(st[0], env, fuel - 1, N);
    if r.Ok? {
      ghost var N1 := N';
      r, N' := ApplyUnary(e.kind, r.value, N1);
      env.WithinGrows(N1, N');
    }
    assert Steps(env, N, N') && (r.Ok? ==> r.value in N');
    assert UnaryApplied(e.kind, s, r, Snapshot(N'));
    UnaryValid(e, fuel, h, n, v, st, s, r, Snapshot(N'), env.names, env.values);
    t := Trace(e, fuel, h, n, v, r, Snapshot(N'), env.names, env.values, [s], []);
  }

  /** `evalAddNode` ... `evalRemNode`, `evalLeNode`, `evalConsNode`,
      `evalEqualNode`. */
  method EvalBinary(e: Node, env: Env, fuel: nat, ghost N: set<Node>)
    returns (r: Result<Node>, ghost N': set<Node>, ghost t: Trace)
    requires fuel > 0 && IsBinary(e.kind)
    requires Closed(N) && e in N && env.Within(N)
    modifies env, N
    ensures Steps(env, N, N') && (r.Ok? ==> r.value in N')
    ensures Valid(t) && Runs(t, e, fuel, old(Snapshot(N)), old(env.names), old(env.values))
    ensures Ends(t, r, Snapshot(N'), env.names, env.values)
    decreases fuel, 2
  {
    ghost var h, n, v := Snapshot(N), env.names, env.values;
    var st := e.statements;
    assert h[e] == ContentsOf(e);
    if st == [] {
      PrependedRefl(n, v);
      r, N' := Err(IndexOutOfRange), N;
      t := Trace(e, fuel, h, n, v, r, h, n, v, [], []);
      EmptyFormValid(t);
      return;
    }
    r, N', t := EvalOperands(e, env, fuel, N);
  }

  /** A binary handler on a node with children: child 0, then the rest. */
  method EvalOperands(e: Node, env: Env, fuel: nat, ghost N: set<Node>)
    returns (r: Result<Node>, ghost N': set<Node>, ghost t: Trace)
    requires fuel > 0 && IsBinary(e.kind) && e.statements != []
    requires Closed(N) && e in N && env.Within(N)
    modifies env, N
    ensures Steps(env, N, N') && (r.Ok? ==> r.value in N')
    ensures Valid(t) && Runs(t, e, fuel, old(Snapshot(N)), old(env.names), old(env.values))
    ensures Ends(t, r, Snapshot(N'), env.names, env.values)
    decreases fuel, 1
  {
    ghost var h, n, v := Snapshot(N), env.names, env.values;
    var st := e.statements;
    assert h[e] == ContentsOf(e);
    var a;
    ghost var s, rest;
    a, N', s := Eval(st[0], env, fuel - 1, N);
    ghost var N1, n1, v1 := N', env.names, env.values;
    r, N', rest := SecondOperand(e.kind, a, s, st, env, fuel, N1);
    PrependedTrans(n, v, n1, v1, env.names, env.values);
    assert Steps(env, N, N') && (r.Ok? ==> r.value in N');
    BinaryValid(e, fuel, h, n, v, st, s, rest, r, Snapshot(N'), env.names, env.values);
    t := Trace(e, fuel, h, n, v, r, Snapshot(N'), env.names, env.values, [s] + rest, []);
  }

  /** The second half of a binary handler, once child 0 has been evaluated
      (`s`) to `a`. */
  method SecondOperand(op: Kind, a: Result<Node>, ghost s: Trace, st: seq<Node>, env: Env, fuel: nat, ghost N: set<Node>)
    returns (r: Result<Node>, ghost N': set<Node>, ghost rest: seq<Trace>)
    requires fuel > 0 && IsBinary(op) && st != []
    requires Closed(N) && env.Within(N) && (forall k :: 0 <= k < |st| ==> st[k] in N) && (a.Ok? ==> a.value in N)
    requires s.result == a && s.post == Snapshot(N) && s.outNames == env.names && s.outValues == env.values
    modifies env, N
    ensures Steps(env, N, N') && (r.Ok? ==> r.value in N')
    ensures AllValid(rest) && SecondRan(op, s, st, fuel, rest, r, Snapshot(N'), env.names, env.values)
    decreases fuel, 0
  {
    N', rest := N, [];
    if a.Err? || |st| < 2 {
      PrependedRefl(env.names, env.values);
      r := if a.Err? then a else Err(IndexOutOfRange);
      return;
    }
    var b;
    ghost var u;
    b, N', u := Eval(st[1], env, fuel - 1, N);
    rest := [u];
    if b.Err? {
      r := b;
      return;
    }
    ghost var N2 := N';
    r, N' := ApplyBinary(op, a.value, b.value, N2);
    env.WithinGrows(N2, N');
  }

  /** `evalCondNode`. */
  method EvalCond(e: Node, env: Env, fuel: nat, ghost N: set<Node>)
    returns (r: Result<Node>, ghost N': set<Node>, ghost t: Trace)
    requires fuel > 0 && e.kind == Cond
    requires Closed(N) && e in N && env.Within(N)
    modifies env, N
    ensures Steps(env, N, N') && (r.Ok? ==> r.value in N')
    ensures Valid(t) && Runs(t, e, fuel, old(Snapshot(N)), old(env.names), old(env.values))
    ensures Ends(t, r, Snapshot(N'), env.names, env.values)
    decreases fuel, 1
  {
    ghost var h, n, v := Snapshot(N), env.names, env.values;
    var st := e.statements;
    assert h[e] == ContentsOf(e);
    if st == [] {
      PrependedRefl(n, v);
      r, N' := Err(IndexOutOfRange), N;
      t := Trace(e, fuel, h, n, v, r, h, n, v, [], []);
      EmptyFormValid(t);
      return;
    }
    var test;
    ghost var s, rest;
    test, N', s := Eval(st[0], env, fuel - 1, N);
    ghost var N1, n1, v1 := N', env.names, env.values;
    r, N', rest := EvalBranch(test, s, st, env, fuel, N1);
    PrependedTrans(n, v, n1, v1, env.names, env.values);
    assert Steps(env, N, N') && (r.Ok? ==> r.value in N');
    CondValid(e, fuel, h, n, v, st, s, rest, r, Snapshot(N'), env.names, env.values);
    t := Trace(e, fuel, h, n, v, r, Snapshot(N'), env.names, env.values, [s] + rest, []);
  }

  /** What `evalCondNode` does once the test has been evaluated (`s`) to
      `test`: the selected branch, and nothing else, is evaluated. */
  method EvalBranch(test: Result<Node>, ghost s: Trace, st: seq<Node>, env: Env, fuel: nat, ghost N: set<Node>)
    returns (r: Result<Node>, ghost N': set<Node>, ghost rest: seq<Trace>)
    requires fuel > 0
    requires Closed(N) && env.Within(N) && forall k :: 0 <= k < |st| ==> st[k] in N
    requires s.result == test && s.post == Snapshot(N) && s.outNames == env.names && s.outValues == env.values
    modifies env, N
    ensures Steps(env, N, N') && (r.Ok? ==> r.value in N')
    ensures AllValid(rest) && Branched(s, st, fuel, rest, r, Snapshot(N'), env.names, env.values)
    decreases fuel, 0
  {
    N', rest := N, [];
    if test.Err? || test.value.kind != BoolLit || Taken(test.value) >= |st| {
      PrependedRefl(env.names, env.values);
      r := if test.Err? then test else if test.value.kind != BoolLit then Err(CondError) else Err(IndexOutOfRange);
      return;
    }
    var taken := if test.value.boolValue then 1 else 2;
    ghost var b;
    r, N', b := Eval(st[taken], env, fuel - 1, N);
    rest := [b];
  }

  // ---------------------------------------------------------------- lambda

  /** Every child of a node of `made` is in `made` or among `sources`. */
  ghost predicate BuiltFrom(made: set<Node>, sources: seq<Node>)
    reads made
  {
    forall x, i :: x in made && 0 <= i < |x.statements| ==> x.statements[i] in made || x.statements[i] in sources
  }

  /** `evalLambdaNode`: nothing is evaluated. The closure holds the parameters
      (every child but the last), the body (the last child) and one flattened row
      each of the names and values matrices, in row order; those rows hold the
      very node objects of the environment. `made` is the set of new nodes. */
  method EvalLambda(e: Node, env: Env) returns (r: Result<Node>, ghost made: set<Node>)
    requires e.kind == Lambda
    ensures fresh(made) && (r.Ok? ==> r.value in made)
    ensures BuiltFrom(made, e.statements + Flatten(env.names) + Flatten(env.values))
    ensures r.Ok? <==> e.statements != []
    ensures r.Err? ==> r.error == IndexOutOfRange
    ensures r.Ok? ==> r.value.kind == FuncClosure && r.value.nodeType == "CLOSURE"
    ensures r.Ok? ==> BuiltClosure(made, r.value)
    ensures r.Ok? ==>
              var k := |e.statements|;
              CallFrame(r.value, k - 1) ==
                Ok(Frame(e.statements[..k - 1], e.statements[k - 1], Flatten(env.names), Flatten(env.values)))
  {
    var st := e.statements;
    var params := ParamList(st);
    if |st| == 0 {
      return Err(IndexOutOfRange), {params};
    }
    var body := st[|st| - 1];
    var context, cmade := BuildContext(env);
    var closure, part := BuildClosure(params, body, context);
    r := Ok(closure);
    made := cmade + {params, part, closure};
    assert BuiltClosure(made, closure);
    assert CallFrame(closure, |st| - 1) == Ok(Frame(params.statements, body, Flatten(env.names), Flatten(env.values)));
    ClosureBuiltFrom(st, params, part, closure, cmade, Flatten(env.names) + Flatten(env.values));
  }

  /** `c` is `[[params, body], [names, values]]`, and the closure and the five
      lists it is made of are nodes of `made`, no two of them the same. */
  ghost predicate BuiltClosure(made: set<Node>, c: Node)
    reads made
  {
    c in made && |c.statements| == 2 && c.statements[0] in made && c.statements[1] in made &&
    var part, context := c.statements[0], c.statements[1];
    part.statements != [] && part.statements[0] in made &&
    |context.statements| == 2 && context.statements[0] in made && context.statements[1] in made &&
    var ns := [c, part, part.statements[0], context] + context.statements;
    forall i, j :: 0 <= i < j < 6 ==> ns[i] != ns[j]
  }

  /** A closure built from new nodes is new in the snapshot taken after it. */
  lemma ClosureSnapshot(universe: set<Node>, made: set<Node>, c: Node)
    requires Closed(universe + made) && made !! universe && BuiltClosure(made, c)
    ensures ClosedHeap(Snapshot(universe + made)) && c in Snapshot(universe + made)
    ensures NewClosure(Snapshot(universe), Snapshot(universe + made), c)
  {
    SnapshotClosed(universe + made);
    var h' := Snapshot(universe + made);
    var part, context := c.statements[0], c.statements[1];
    assert h'[c] == ContentsOf(c) && h'[part] == ContentsOf(part) && h'[context] == ContentsOf(context);
    assert ClosureNodes(h', c) == [c, part, part.statements[0], context] + context.statements;
  }

  /** The nodes of a closure come from the lambda's children and the
      flattened environment. */
  lemma ClosureBuiltFrom(st: seq<Node>, params: Node, part: Node, closure: Node, cmade: set<Node>, flat: seq<Node>)
    requires st != [] && params.statements == st[..|st| - 1] && part.statements == [params, st[|st| - 1]]
    requires |closure.statements| == 2 && closure.statements[0] == part && closure.statements[1] in cmade
    requires BuiltFrom(cmade, flat)
    ensures BuiltFrom(cmade + {params, part, closure}, st + flat)
  {
    var made, sources := cmade + {params, part, closure}, st + flat;
    forall x, j | x in made && 0 <= j < |x.statements|
      ensures x.statements[j] in made || x.statements[j] in sources
    {
      if x == params {
        assert x.statements[j] == sources[j];
      } else if x == part && j == 1 {
        assert x.statements[j] == sources[|st| - 1];
      } else if x in cmade {
        assert x.statements[j] in cmade || x.statements[j] in flat;
        if x.statements[j] in flat {
          var i :| 0 <= i < |flat| && flat[i] == x.statements[j];
          assert sources[|st| + i] == flat[i];
        }
      }
    }
  }

  /** The closure node `[[params, body], context]`. */
  method BuildClosure(params: Node, body: Node, context: Node) returns (closure: Node, ghost part: Node)
    ensures fresh(closure) && fresh(part) && closure != part
    ensures closure.kind == FuncClosure && closure.nodeType == "CLOSURE"
    ensures closure.statements == [part, context] && part.statements == [params, body]
  {
    var p := ListOf(List, "LIST", [params, body]);
    closure := ListOf(FuncClosure, "CLOSURE", [p, context]);
    part := p;
  }

  /** A fresh node of the given class whose children are `ss`. */
  method ListOf(kind: Kind, t: string, ss: seq<Node>) returns (n: Node)
    requires kind == List || kind == FuncClosure
    ensures fresh(n) && n.kind == kind && n.nodeType == t && n.statements == ss
  {
    n := new Node(kind, t);
    n.AddStatements(ss);
  }

  /** The parameter list of `evalLambdaNode`: every child but the last. */
  method ParamList(st: seq<Node>) returns (params: Node)
    ensures fresh(params) && params.kind == List && params.nodeType == "LIST"
    ensures params.statements == if st == [] then [] else st[..|st| - 1]
  {
    var size := |st|;
    params := new Node(List, "LIST");
    var i := 0;
    while i < size - 1
      invariant 0 <= i <= if size == 0 then 0 else size - 1
      invariant params.nodeType == "LIST"
      invariant params.statements == st[..i]
    {
      params.AddStatement(st[i]);
      assert st[..i + 1] == st[..i] + [st[i]];
      i := i + 1;
    }
  }

  /** The captured context of a closure: the flattened names and values. */
  method BuildContext(env: Env) returns (context: Node, ghost made: set<Node>)
    ensures fresh(made) && context in made
    ensures context.kind == List && |context.statements| == 2
    ensures context.statements[0] in made && context.statements[1] in made
    ensures context != context.statements[0] && context != context.statements[1]
    ensures context.statements[0] != context.statements[1]
    ensures context.statements[0].kind == List && context.statements[1].kind == List
    ensures context.statements[0].statements == Flatten(env.names)
    ensures context.statements[1].statements == Flatten(env.values)
    ensures BuiltFrom(made, Flatten(env.names) + Flatten(env.values))
  {
    var nl := MatrixToList(env.names);
    var vl := MatrixToList(env.values);
    context := ListOf(List, "LIST", [nl, vl]);
    made := {nl, vl, context};
    forall x, j | x in made && 0 <= j < |x.statements|
      ensures x.statements[j] in made || x.statements[j] in Flatten(env.names) + Flatten(env.values)
    {
      if x == nl {
        assert x.statements[j] == (Flatten(env.names) + Flatten(env.values))[j];
      } else if x == vl {
        assert x.statements[j] == (Flatten(env.names) + Flatten(env.values))[|Flatten(env.names)| + j];
      }
    }
  }

  /** Adding the nodes a lambda built keeps the node set closed. */
  lemma LambdaWithin(e: Node, env: Env, made: set<Node>, universe: set<Node>)
    requires Closed(universe) && e in universe && env.Within(universe)
    requires BuiltFrom(made, e.statements + Flatten(env.names) + Flatten(env.values))
    ensures Closed(universe + made)
  {
    FlattenWithin(env.names, universe);
    FlattenWithin(env.values, universe);
    var sources := e.statements + Flatten(env.names) + Flatten(env.values);
    forall k | 0 <= k < |sources| ensures sources[k] in universe {
      if k < |e.statements| {
        assert sources[k] == e.statements[k];
      } else if k < |e.statements| + |Flatten(env.names)| {
        assert sources[k] == Flatten(env.names)[k - |e.statements|];
      } else {
        assert sources[k] == Flatten(env.values)[k - |e.statements| - |Flatten(env.names)|];
      }
    }
  }

  // ---------------------------------------------------------------- calls

  /** `evalFuncCall`. */
  method EvalCall(e: Node, env: Env, fuel: nat, ghost N: set<Node>)
    returns (r: Result<Node>, ghost N': set<Node>, ghost t: Trace)
    requires fuel > 0 && e.kind == List
    requires Closed(N) && e in N && env.Within(N)
    modifies env, N
    ensures Steps(env, N, N') && (r.Ok? ==> r.value in N')
    ensures Valid(t) && Runs(t, e, fuel, old(Snapshot(N)), old(env.names), old(env.values))
    ensures Ends(t, r, Snapshot(N'), env.names, env.values)
    decreases fuel, 2
  {
    ghost var h, n, v := Snapshot(N), env.names, env.values;
    var st := e.statements;
    assert h[e] == ContentsOf(e);
    if st == [] {
      PrependedRefl(n, v);
      r, N' := Err(IndexOutOfRange), N;
      t := Trace(e, fuel, h, n, v, r, h, n, v, [], []);
      EmptyFormValid(t);
      return;
    }
    var vals;
    ghost var args;
    vals, N', args := EvalArgs(st, env, fuel, N);
    if vals.Err? {
      r := Err(vals.error);
      assert Steps(env, N, N');
      CallStoppedValid(e, fuel, h, n, v, st, args, vals);
      t := Trace(e, fuel, h, n, v, r, Snapshot(N'), env.names, env.values, args, []);
      return;
    }
    ghost var N1, n1, v1 := N', env.names, env.values;
    ghost var rest;
    r, N', rest := CallClosure(st[0], vals.value, env, fuel, N1);
    PrependedTrans(n, v, n1, v1, env.names, env.values);
    assert Steps(env, N, N') && (r.Ok? ==> r.value in N');
    CallDoneValid(e, fuel, h, n, v, st, args, vals, rest, r, Snapshot(N'), env.names, env.values);
    t := Trace(e, fuel, h, n, v, r, Snapshot(N'), env.names, env.values, args + rest, []);
  }

  /** The argument loop of `evalFuncCall`: children 1.. in order, each from
      where the one before stopped, stopping at the first error. */
  method EvalArgs(st: seq<Node>, env: Env, fuel: nat, ghost N: set<Node>)
    returns (r: Result<seq<Node>>, ghost N': set<Node>, ghost ts: seq<Trace>)
    requires fuel > 0 && st != []
    requires Closed(N) && env.Within(N) && forall k :: 0 <= k < |st| ==> st[k] in N
    modifies env, N
    ensures Steps(env, N, N') && AllValid(ts)
    ensures ArgsRan(st, fuel - 1, old(Snapshot(N)), old(env.names), old(env.values), ts, r)
    ensures Snapshot(N') == HeapAfter(ts, old(Snapshot(N)))
    ensures env.names == NamesAfter(ts, old(env.names)) && env.values == ValuesAfter(ts, old(env.values))
    ensures r.Ok? ==> forall k :: 0 <= k < |r.value| ==> r.value[k] in N'
    decreases fuel, 1
  {
    ghost var h, n, v := Snapshot(N), env.names, env.values;
    N', ts := N, [];
    PrependedRefl(n, v);
    var vals: seq<Node> := [];
    var i := 1;
    while i < |st|
      invariant ArgsSoFar(st, i, fuel - 1, h, n, v, ts, vals)
      invariant Steps(env, N, N')
      invariant Snapshot(N') == HeapAfter(ts, h) && env.names == NamesAfter(ts, n) && env.values == ValuesAfter(ts, v)
      invariant forall k :: 0 <= k < |vals| ==> vals[k] in N'
    {
      ghost var N1, n1, v1 := N', env.names, env.values;
      var a;
      a, N', ts := EvalArg(st, i, env, fuel, N1, h, n, v, ts, vals);
      PrependedTrans(n, v, n1, v1, env.names, env.values);
      assert Steps(env, N, N');
      if a.Err? {
        return Err(a.error), N', ts;
      }
      InGrown(vals, a.value, N1, N');
      vals := vals + [a.value];
      i := i + 1;
    }
    ArgsAll(st, fuel - 1, h, n, v, ts, vals);
    r := Ok(vals);
  }

  /** Once every argument is past, the loop gave the values of all of them. */
  lemma ArgsAll(st: seq<Node>, fuel: nat, h: Heap, n: Matrix, v: Matrix, ts: seq<Trace>, vals: seq<Node>)
    requires ArgsSoFar(st, |st|, fuel, h, n, v, ts, vals)
    ensures ArgsRan(st, fuel, h, n, v, ts, Ok(vals))
  {
    assert st[1..|st|] == st[1..];
  }

  /** One turn of the argument loop. */
  method EvalArg(st: seq<Node>, i: nat, env: Env, fuel: nat, ghost N: set<Node>,
                 ghost h: Heap, ghost n: Matrix, ghost v: Matrix, ghost ts: seq<Trace>, ghost vals: seq<Node>)
    returns (a: Result<Node>, ghost N': set<Node>, ghost ts': seq<Trace>)
    requires fuel > 0 && i < |st|
    requires Closed(N) && env.Within(N) && st[i] in N
    requires ArgsSoFar(st, i, fuel - 1, h, n, v, ts, vals)
    requires Snapshot(N) == HeapAfter(ts, h) && env.names == NamesAfter(ts, n) && env.values == ValuesAfter(ts, v)
    modifies env, N
    ensures Steps(env, N, N') && (a.Ok? ==> a.value in N')
    ensures Snapshot(N') == HeapAfter(ts', h) && env.names == NamesAfter(ts', n) && env.values == ValuesAfter(ts', v)
    ensures a.Ok? ==> ArgsSoFar(st, i + 1, fuel - 1, h, n, v, ts', vals + [a.value])
    ensures a.Err? ==> AllValid(ts') && ArgsRan(st, fuel - 1, h, n, v, ts', Err(a.error))
    decreases fuel, 0
  {
    ghost var s;
    a, N', s := Eval(st[i], env, fuel - 1, N);
    assert Steps(env, N, N') && (a.Ok? ==> a.value in N');
    ts' := ts + [s];
    ArgStep(st, i, fuel - 1, h, n, v, ts, vals, s, a, ts');
  }

  /** A chain of evaluations extended by one more, run from where it stopped. */
  lemma ChainSnoc(ts: seq<Trace>, xs: seq<Node>, fuel: nat, h: Heap, n: Matrix, v: Matrix, s: Trace, x: Node)
    requires Chain(ts, xs, fuel, h, n, v)
    requires Runs(s, x, fuel, HeapAfter(ts, h), NamesAfter(ts, n), ValuesAfter(ts, v))
    ensures Chain(ts + [s], xs + [x], fuel, h, n, v)
  {
    var ts', xs' := ts + [s], xs + [x];
    forall k | 0 < k < |ts'|
      ensures Runs(ts'[k], xs'[k], fuel, ts'[k - 1].post, ts'[k - 1].outNames, ts'[k - 1].outValues)
    {
      if k < |ts| {
        assert ts'[k] == ts[k] && ts'[k - 1] == ts[k - 1] && xs'[k] == xs[k];
      }
    }
  }

  /** The bookkeeping of one turn of the argument loop: `ts'` adds the turn's
      evaluation `s`, which gave `a`. */
  lemma ArgStep(st: seq<Node>, i: nat, fuel: nat, h: Heap, n: Matrix, v: Matrix, ts: seq<Trace>,
                vals: seq<Node>, s: Trace, a: Result<Node>, ts': seq<Trace>)
    requires i < |st| && ArgsSoFar(st, i, fuel, h, n, v, ts, vals) && Valid(s)
    requires Runs(s, st[i], fuel, HeapAfter(ts, h), NamesAfter(ts, n), ValuesAfter(ts, v))
    requires a == s.result && ts' == ts + [s]
    ensures HeapAfter(ts', h) == s.post && NamesAfter(ts', n) == s.outNames
    ensures ValuesAfter(ts', v) == s.outValues
    ensures a.Ok? ==> ArgsSoFar(st, i + 1, fuel, h, n, v, ts', vals + [a.value])
    ensures a.Err? ==> AllValid(ts') && ArgsRan(st, fuel, h, n, v, ts', Err(a.error))
  {
    ChainSnoc(ts, st[1..i], fuel, h, n, v, s, st[i]);
    assert st[1..i] + [st[i]] == st[1..i + 1];
    assert ts'[..|ts'| - 1] == ts;
    assert AllValid(ts');
    if a.Ok? {
      assert Values(ts') == Values(ts) + [a.value];
    }
  }

  /** The second half of `evalFuncCall`: the callee expression `f` is
      evaluated in the caller's environment, then the closure it gives is
      applied to `args`. */
  method CallClosure(f: Node, args: seq<Node>, env: Env, fuel: nat, ghost N: set<Node>)
    returns (r: Result<Node>, ghost N': set<Node>, ghost rest: seq<Trace>)
    requires fuel > 0
    requires Closed(N) && f in N && env.Within(N) && forall k :: 0 <= k < |args| ==> args[k] in N
    modifies env, N
    ensures Steps(env, N, N') && (r.Ok? ==> r.value in N')
    ensures |rest| >= 1 && AllValid(rest)
    ensures Runs(rest[0], f, fuel - 1, old(Snapshot(N)), old(env.names), old(env.values))
    ensures rest[0].outNames == env.names && rest[0].outValues == env.values
    ensures Called(rest[0], args, fuel, rest[1..], r, Snapshot(N'))
    decreases fuel, 1
  {
    var c;
    ghost var s;
    c, N', s := Eval(f, env, fuel - 1, N);
    rest := [s];
    if c.Err? {
      r := c;
      return;
    }
    ghost var N1 := N';
    ghost var more;
    r, N', more := Invoke(c.value, args, s, fuel, N1);
    rest := [s] + more;
    assert rest[1..] == more;
  }

  /** Applying the value `c` of the callee evaluation `s` to evaluated
      arguments: the frame is read as `CallFrame` says and the body evaluated
      in the matrices `[captured names, parameters]` / `[captured values,
      arguments]`, a new environment; the caller's is not touched. */
  method Invoke(c: Node, args: seq<Node>, ghost s: Trace, fuel: nat, ghost N: set<Node>)
    returns (r: Result<Node>, ghost N': set<Node>, ghost more: seq<Trace>)
    requires fuel > 0
    requires Closed(N) && c in N && forall k :: 0 <= k < |args| ==> args[k] in N
    requires s.result == Ok(c) && s.post == Snapshot(N)
    modifies N
    ensures N <= N' && fresh(N' - N) && Closed(N') && (r.Ok? ==> r.value in N')
    ensures AllValid(more) && Called(s, args, fuel, more, r, Snapshot(N'))
    decreases fuel, 0
  {
    N', more := N, [];
    if c.kind != FuncClosure {
      return Err(NotAClosure), N, [];
    }
    CallFrameAgrees(N, c, |args|);
    var f := CallFrame(c, |args|);
    if f.Err? {
      return Err(f.error), N, [];
    }
    FrameWithin(c, |args|, N);
    var callEnv := new Env([f.value.capNames, f.value.params], [f.value.capValues, args]);
    ghost var b;
    r, N', b := Eval(f.value.body, callEnv, fuel - 1, N);
    more := [b];
  }

  lemma BindingsWithin(st: seq<Node>, bs: seq<seq<Node>>, universe: set<Node>)
    requires Closed(universe) && forall k :: 0 <= k < |st| ==> st[k] in universe
    requires |bs| == |st| && forall k :: 0 <= k < |st| ==> bs[k] == st[k].statements
    ensures forall k, j :: 0 <= k < |bs| && 0 <= j < |bs[k]| ==> bs[k][j] in universe
  {
    forall k, j | 0 <= k < |bs| && 0 <= j < |bs[k]|
      ensures bs[k][j] in universe
    {
      assert st[k] in universe && bs[k][j] == st[k].statements[j];
    }
  }

  // ---------------------------------------------------------------- let

  /** The child vectors of nodes of a set, read from its snapshot, are their
      child vectors. */
  lemma ChildVectorsAgree(s: set<Node>, xs: seq<Node>)
    requires forall k :: 0 <= k < |xs| ==> xs[k] in s
    ensures ChildVectorsIn(Snapshot(s), xs) == ChildVectors(xs)
  {
    forall k | 0 <= k < |xs| ensures ChildVectorsIn(Snapshot(s), xs)[k] == ChildVectors(xs)[k] {
      assert Snapshot(s)[xs[k]] == ContentsOf(xs[k]);
    }
  }

  /** `evalLetNode`. */
  method EvalLet(e: Node, env: Env, fuel: nat, ghost N: set<Node>)
    returns (r: Result<Node>, ghost N': set<Node>, ghost t: Trace)
    requires fuel > 0 && e.kind == Let
    requires Closed(N) && e in N && env.Within(N)
    modifies env, N
    ensures Steps(env, N, N') && (r.Ok? ==> r.value in N')
    ensures Valid(t) && Runs(t, e, fuel, old(Snapshot(N)), old(env.names), old(env.values))
    ensures Ends(t, r, Snapshot(N'), env.names, env.values)
    decreases fuel, 3
  {
    ghost var h, n, v := Snapshot(N), env.names, env.values;
    var st := e.statements;
    assert h[e] == ContentsOf(e);
    if st == [] {
      PrependedRefl(n, v);
      r, N' := Err(IndexOutOfRange), N;
      t := Trace(e, fuel, h, n, v, r, h, n, v, [], []);
      EmptyFormValid(t);
      return;
    }
    var bs := ChildVectors(st[1..]);
    BindingsWithin(st[1..], bs, N);
    ChildVectorsAgree(N, st[1..]);
    ghost var ts;
    r, N', ts := LetBinds(st[0], bs, env, fuel, N);
    assert Steps(env, N, N') && (r.Ok? ==> r.value in N');
    LetValid(e, fuel, h, n, v, st, ts, r, Snapshot(N'), env.names, env.values);
    t := Trace(e, fuel, h, n, v, r, Snapshot(N'), env.names, env.values, ts, []);
  }

  /** The initializers of `bs` run, then the body `expr` in the extended
      environment. */
  method LetBinds(expr: Node, bs: seq<seq<Node>>, env: Env, fuel: nat, ghost N: set<Node>)
    returns (r: Result<Node>, ghost N': set<Node>, ghost ts: seq<Trace>)
    requires fuel > 0
    requires Closed(N) && expr in N && env.Within(N)
    requires forall k, j :: 0 <= k < |bs| && 0 <= j < |bs[k]| ==> bs[k][j] in N
    modifies env, N
    ensures Steps(env, N, N') && (r.Ok? ==> r.value in N')
    ensures AllValid(ts)
    ensures LetRan(bs, expr, fuel, old(Snapshot(N)), old(env.names), old(env.values), ts, r,
                   Snapshot(N'), env.names, env.values)
    decreases fuel, 2
  {
    ghost var h, n, v := Snapshot(N), env.names, env.values;
    var vals;
    ghost var inits;
    vals, N', inits := EvalInits(bs, env, fuel, N);
    ts := inits;
    if vals.Err? {
      r := Err(vals.error);
      return;
    }
    ghost var N1, n1, v1 := N', env.names, env.values;
    ghost var b;
    r, N', b := BindAndEval(expr, Heads(bs), vals.value, env, fuel, N1);
    PrependedCons(n1, v1, Heads(bs), vals.value);
    PrependedTrans(n1, v1, [Heads(bs)] + n1, [vals.value] + v1, env.names, env.values);
    PrependedTrans(n, v, n1, v1, env.names, env.values);
    ts := inits + [b];
    assert ts[..|bs|] == inits;
  }

  /** "nv refresh": a row pairing `names` with `vals` is inserted at the front
      of both matrices, then `expr` is evaluated in them. */
  method BindAndEval(expr: Node, names: seq<Node>, vals: seq<Node>, env: Env, fuel: nat, ghost N: set<Node>)
    returns (r: Result<Node>, ghost N': set<Node>, ghost b: Trace)
    requires fuel > 0 && |names| == |vals|
    requires Closed(N) && expr in N && env.Within(N)
    requires forall k :: 0 <= k < |names| ==> names[k] in N && vals[k] in N
    modifies env, N
    ensures N <= N' && fresh(N' - N) && Closed(N') && env.Within(N') && (r.Ok? ==> r.value in N')
    ensures Valid(b) && Runs(b, expr, fuel - 1, old(Snapshot(N)), [names] + old(env.names), [vals] + old(env.values))
    ensures Ends(b, r, Snapshot(N'), env.names, env.values)
    ensures Prepended([names] + old(env.names), [vals] + old(env.values), env.names, env.values)
    decreases fuel, 0
  {
    env.Prepend(names, vals);
    r, N', b := Eval(expr, env, fuel - 1, N);
  }

  /** The initializer loop of `let` and `letrec`: `statement->getStatement(1)`
      of each binding, in order, each from where the one before stopped; a
      binding without one fails before anything is evaluated for it. */
  method EvalInits(bs: seq<seq<Node>>, env: Env, fuel: nat, ghost N: set<Node>)
    returns (r: Result<seq<Node>>, ghost N': set<Node>, ghost ts: seq<Trace>)
    requires fuel > 0
    requires Closed(N) && env.Within(N)
    requires forall k, j :: 0 <= k < |bs| && 0 <= j < |bs[k]| ==> bs[k][j] in N
    modifies env, N
    ensures Steps(env, N, N') && AllValid(ts)
    ensures InitsRan(bs, fuel - 1, old(Snapshot(N)), old(env.names), old(env.values), ts, r)
    ensures Snapshot(N') == HeapAfter(ts, old(Snapshot(N)))
    ensures env.names == NamesAfter(ts, old(env.names)) && env.values == ValuesAfter(ts, old(env.values))
    ensures r.Ok? ==> forall k :: 0 <= k < |r.value| ==> r.value[k] in N'
    decreases fuel, 1
  {
    ghost var h, n, v := Snapshot(N), env.names, env.values;
    N', ts := N, [];
    PrependedRefl(n, v);
    var vals: seq<Node> := [];
    var i := 0;
    r := Ok([]);
    while i < |bs|
      invariant i <= |bs| && InitsSoFar(bs, i, fuel - 1, h, n, v, ts, vals) && r.Ok?
      invariant Steps(env, N, N')
      invariant Snapshot(N') == HeapAfter(ts, h) && env.names == NamesAfter(ts, n) && env.values == ValuesAfter(ts, v)
      invariant forall k :: 0 <= k < |vals| ==> vals[k] in N'
    {
      if |bs[i]| < 2 {
        InitsShort(bs, i, fuel - 1, h, n, v, ts, vals);
        r := Err(IndexOutOfRange);
        break;
      }
      ghost var N1, n1, v1 := N', env.names, env.values;
      var a;
      a, N', ts := EvalInit(bs, i, env, fuel, N1, h, n, v, ts, vals);
      PrependedTrans(n, v, n1, v1, env.names, env.values);
      assert Steps(env, N, N');
      if a.Err? {
        r := Err(a.error);
        break;
      }
      InGrown(vals, a.value, N1, N');
      vals := vals + [a.value];
      i := i + 1;
    }
    if r.Ok? {
      InitsAll(bs, fuel - 1, h, n, v, ts, vals);
      r := Ok(vals);
    }
    assert InitsRan(bs, fuel - 1, h, n, v, ts, r);
  }

  /** Nodes of a set, and one more node, lie in a larger set. */
  lemma InGrown(xs: seq<Node>, x: Node, s: set<Node>, s': set<Node>)
    requires (forall k :: 0 <= k < |xs| ==> xs[k] in s) && s <= s' && x in s'
    ensures forall k :: 0 <= k < |xs + [x]| ==> (xs + [x])[k] in s'
  {
  }

  /** A binding without an initializer stops the loop with the evaluations
      so far. */
  lemma InitsShort(bs: seq<seq<Node>>, i: nat, fuel: nat, h: Heap, n: Matrix, v: Matrix, ts: seq<Trace>,
                   vals: seq<Node>)
    requires InitsSoFar(bs, i, fuel, h, n, v, ts, vals) && i < |bs| && |bs[i]| < 2
    ensures InitsRan(bs, fuel, h, n, v, ts, Err(IndexOutOfRange))
  {
  }

  /** Once every binding is past, the loop gave the values of all the
      initializers. */
  lemma InitsAll(bs: seq<seq<Node>>, fuel: nat, h: Heap, n: Matrix, v: Matrix, ts: seq<Trace>, vals: seq<Node>)
    requires InitsSoFar(bs, |bs|, fuel, h, n, v, ts, vals)
    ensures InitsRan(bs, fuel, h, n, v, ts, Ok(vals))
  {
    assert bs[..|bs|] == bs;
  }

  /** One turn of the initializer loop, for a binding that has an initializer. */
  method EvalInit(bs: seq<seq<Node>>, i: nat, env: Env, fuel: nat, ghost N: set<Node>,
                  ghost h: Heap, ghost n: Matrix, ghost v: Matrix, ghost ts: seq<Trace>, ghost vals: seq<Node>)
    returns (a: Result<Node>, ghost N': set<Node>, ghost ts': seq<Trace>)
    requires fuel > 0 && i < |bs| && |bs[i]| >= 2
    requires Closed(N) && env.Within(N) && bs[i][1] in N
    requires InitsSoFar(bs, i, fuel - 1, h, n, v, ts, vals)
    requires Snapshot(N) == HeapAfter(ts, h) && env.names == NamesAfter(ts, n) && env.values == ValuesAfter(ts, v)
    modifies env, N
    ensures Steps(env, N, N') && (a.Ok? ==> a.value in N')
    ensures Snapshot(N') == HeapAfter(ts', h) && env.names == NamesAfter(ts', n) && env.values == ValuesAfter(ts', v)
    ensures a.Ok? ==> InitsSoFar(bs, i + 1, fuel - 1, h, n, v, ts', vals + [a.value])
    ensures a.Err? ==> AllValid(ts') && InitsRan(bs, fuel - 1, h, n, v, ts', Err(a.error))
    decreases fuel, 0
  {
    ghost var s;
    var x := bs[i][1];
    a, N', s := Eval(x, env, fuel - 1, N);
    assert Steps(env, N, N') && (a.Ok? ==> a.value in N');
    ts' := ts + [s];
    InitStep(bs, i, fuel - 1, h, n, v, ts, vals, s, a, ts');
  }

  /** The bookkeeping of one turn of the initializer loop: `ts'` adds the
      turn's evaluation `s`, which gave `a`. */
  lemma InitStep(bs: seq<seq<Node>>, i: nat, fuel: nat, h: Heap, n: Matrix, v: Matrix, ts: seq<Trace>,
                 vals: seq<Node>, s: Trace, a: Result<Node>, ts': seq<Trace>)
    requires i < |bs| && |bs[i]| >= 2 && InitsSoFar(bs, i, fuel, h, n, v, ts, vals) && Valid(s)
    requires Runs(s, bs[i][1], fuel, HeapAfter(ts, h), NamesAfter(ts, n), ValuesAfter(ts, v))
    requires a == s.result && ts' == ts + [s]
    ensures HeapAfter(ts', h) == s.post && NamesAfter(ts', n) == s.outNames
    ensures ValuesAfter(ts', v) == s.outValues
    ensures a.Ok? ==> InitsSoFar(bs, i + 1, fuel, h, n, v, ts', vals + [a.value])
    ensures a.Err? ==> AllValid(ts') && InitsRan(bs, fuel, h, n, v, ts', Err(a.error))
  {
    assert bs[..i + 1] == bs[..i] + [bs[i]];
    assert Initializers(bs[..i + 1]) == Initializers(bs[..i]) + [bs[i][1]];
    ChainSnoc(ts, Initializers(bs[..i]), fuel, h, n, v, s, bs[i][1]);
    assert ts'[..|ts'| - 1] == ts;
    assert AllValid(ts');
    if a.Ok? {
      assert Values(ts') == Values(ts) + [a.value];
    }
  }

  /** The first loop of `evalLetrecNode`: the name of each binding and a new
      placeholder closure tagged "OMEGA" for it, stopping at the first binding
      with no children. */
  method MakePlaceholders(bs: seq<seq<Node>>) returns (ok: bool, names: seq<Node>, holes: seq<Node>)
    ensures ok <==> forall k :: 0 <= k < |bs| ==> bs[k] != []
    ensures ok ==> |holes| == |bs| && names == Heads(bs)
    ensures |holes| <= |bs| && (ok <==> |holes| == |bs|)
    ensures forall k :: 0 <= k < |holes| ==> bs[k] != []
    ensures |holes| < |bs| ==> bs[|holes|] == []
    ensures forall k :: 0 <= k < |holes| ==> fresh(holes[k])
    ensures forall k :: 0 <= k < |holes| ==>
              holes[k].kind == FuncClosure && holes[k].nodeType == "OMEGA" && holes[k].statements == []
    ensures forall k, j :: 0 <= k < j < |holes| ==> holes[k] != holes[j]
  {
    names, holes := [], [];
    var i := 0;
    while i < |bs|
      invariant 0 <= i <= |bs|
      invariant |names| == i && |holes| == i
      invariant forall k :: 0 <= k < i ==> bs[k] != [] && names[k] == bs[k][0]
      invariant forall k :: 0 <= k < i ==> fresh(holes[k])
      invariant forall k :: 0 <= k < i ==>
                  holes[k].kind == FuncClosure && holes[k].nodeType == "OMEGA" && holes[k].statements == []
      invariant forall k, j :: 0 <= k < j < i ==> holes[k] != holes[j]
    {
      if bs[i] == [] {
        return false, names, holes;
      }
      names := names + [bs[i][0]];
      var h := new Node(FuncClosure, "OMEGA");
      holes := holes + [h];
      i := i + 1;
    }
    ok := true;
  }

  // ---------------------------------------------------------------- letrec

  /** `evalLetrecNode`. */
  method EvalLetrec(e: Node, env: Env, fuel: nat, ghost N: set<Node>)
    returns (r: Result<Node>, ghost N': set<Node>, ghost t: Trace)
    requires fuel > 0 && e.kind == Letrec
    requires Closed(N) && e in N && env.Within(N)
    modifies env, N
    ensures Steps(env, N, N') && (r.Ok? ==> r.value in N')
    ensures Valid(t) && Runs(t, e, fuel, old(Snapshot(N)), old(env.names), old(env.values))
    ensures Ends(t, r, Snapshot(N'), env.names, env.values)
    decreases fuel, 5
  {
    ghost var h, n, v := Snapshot(N), env.names, env.values;
    var st := e.statements;
    assert h[e] == ContentsOf(e);
    if st == [] {
      PrependedRefl(n, v);
      r, N' := Err(IndexOutOfRange), N;
      t := Trace(e, fuel, h, n, v, r, h, n, v, [], []);
      EmptyFormValid(t);
      return;
    }
    var bs := ChildVectors(st[1..]);
    BindingsWithin(st[1..], bs, N);
    ChildVectorsAgree(N, st[1..]);
    ghost var holes, ts;
    r, N', holes, ts := LetrecBinds(st[0], bs, env, fuel, N);
    assert Steps(env, N, N') && (r.Ok? ==> r.value in N');
    LetrecValid(e, fuel, h, n, v, st, holes, ts, r, Snapshot(N'), env.names, env.values);
    t := Trace(e, fuel, h, n, v, r, Snapshot(N'), env.names, env.values, ts, holes);
  }

  /** The placeholders are made and, when every binding has a name, the rest
      of `evalLetrecNode` runs. */
  method LetrecBinds(expr: Node, bs: seq<seq<Node>>, env: Env, fuel: nat, ghost N: set<Node>)
    returns (r: Result<Node>, ghost N': set<Node>, ghost holes: seq<Node>, ghost ts: seq<Trace>)
    requires fuel > 0
    requires Closed(N) && expr in N && env.Within(N)
    requires forall k, j :: 0 <= k < |bs| && 0 <= j < |bs[k]| ==> bs[k][j] in N
    modifies env, N
    ensures Steps(env, N, N') && (r.Ok? ==> r.value in N')
    ensures AllValid(ts)
    ensures LetrecRan(bs, expr, fuel, old(Snapshot(N)), old(env.names), old(env.values), holes, ts, r,
                      Snapshot(N'), env.names, env.values)
    decreases fuel, 4
  {
    ghost var h, n, v := Snapshot(N), env.names, env.values;
    var ok, names, hs := MakePlaceholders(bs);
    holes := hs;
    assert Snapshot(N) == h && env.names == n && env.values == v;
    assert forall k :: 0 <= k < |hs| ==> hs[k] !in N;
    assert Placeholders(bs, hs, h);
    if !ok {
      PrependedRefl(env.names, env.values);
      LetrecUnnamed(bs, expr, fuel, h, n, v, hs);
      r, N', ts := Err(IndexOutOfRange), N, [];
    } else {
      ghost var N1 := N + set x | x in hs;
      PlaceholdersAdded(N, hs);
      assert Snapshot(N1) == WithHoles(h, hs) && names == Heads(bs);
      r, N', ts := LetrecRest(expr, bs, names, hs, env, fuel, N1);
      assert Steps(env, N, N') && (r.Ok? ==> r.value in N');
      LetrecNamed(bs, expr, fuel, h, n, v, hs, ts, r, Snapshot(N'), env.names, env.values);
    }
  }

  /** A binding with no children stops a `letrec` before anything changes. */
  lemma LetrecUnnamed(bs: seq<seq<Node>>, body: Node, fuel: nat, h: Heap, n: Matrix, v: Matrix, holes: seq<Node>)
    requires fuel > 0 && Placeholders(bs, holes, h) && |holes| < |bs|
    ensures LetrecRan(bs, body, fuel, h, n, v, holes, [], Err(IndexOutOfRange), h, n, v)
  {
  }

  /** Once every binding is named, a `letrec` runs as its initializers and
      body do from the placeholder row. */
  lemma LetrecNamed(bs: seq<seq<Node>>, body: Node, fuel: nat, h: Heap, n: Matrix, v: Matrix, holes: seq<Node>,
                    ts: seq<Trace>, r: Result<Node>, h': Heap, n': Matrix, v': Matrix)
    requires fuel > 0 && Placeholders(bs, holes, h) && |holes| == |bs|
    requires LetrecInitsRan(bs, body, fuel, WithHoles(h, holes), [Heads(bs)] + n, [holes] + v, ts, r, h', n', v')
    ensures LetrecRan(bs, body, fuel, h, n, v, holes, ts, r, h', n', v')
  {
  }

  /** Adding the placeholders to a closed set keeps it closed and adds them to
      its snapshot with their initial contents. */
  lemma PlaceholdersAdded(s: set<Node>, hs: seq<Node>)
    requires Closed(s)
    requires forall k :: 0 <= k < |hs| ==> hs[k].nodeType == "OMEGA" && hs[k].statements == []
    ensures Closed(s + set x | x in hs)
    ensures Snapshot(s + set x | x in hs) == WithHoles(Snapshot(s), hs)
  {
    var s' := s + set x | x in hs;
    forall x | x in s' && x !in s ensures ContentsOf(x) == Contents("OMEGA", []) {
      var k :| 0 <= k < |hs| && hs[k] == x;
    }
  }

  /** `evalLetrecNode` once the placeholders `hs` exist: the row pairing the
      names with them is prepended, the initializers run, and then `complete`
      and the body. */
  method LetrecRest(expr: Node, bs: seq<seq<Node>>, names: seq<Node>, hs: seq<Node>, env: Env, fuel: nat,
                    ghost N: set<Node>)
    returns (r: Result<Node>, ghost N': set<Node>, ghost ts: seq<Trace>)
    requires fuel > 0 && |names| == |hs|
    requires Closed(N) && expr in N && env.Within(N)
    requires forall k :: 0 <= k < |names| ==> names[k] in N && hs[k] in N
    requires forall k, j :: 0 <= k < |bs| && 0 <= j < |bs[k]| ==> bs[k][j] in N
    modifies env, N
    ensures Steps(env, N, N') && (r.Ok? ==> r.value in N')
    ensures AllValid(ts)
    ensures LetrecInitsRan(bs, expr, fuel, old(Snapshot(N)), [names] + old(env.names), [hs] + old(env.values),
                           ts, r, Snapshot(N'), env.names, env.values)
    decreases fuel, 3
  {
    ghost var h, n, v := Snapshot(N), env.names, env.values;
    var vals;
    ghost var inits;
    vals, N', inits := BindAndInit(names, hs, bs, env, fuel, N);
    ts := inits;
    ghost var n1, v1 := env.names, env.values;
    if vals.Err? {
      r := Err(vals.error);
      assert Steps(env, N, N');
      LetrecInitsStopped(bs, expr, fuel, h, [names] + n, [hs] + v, ts, vals.error);
      return;
    }
    ghost var N1 := N';
    ghost var rest;
    r, N', rest := CompleteAndEval(expr, vals.value, env, fuel, N1);
    PrependedTrans(n, v, n1, v1, env.names, env.values);
    assert Steps(env, N, N') && (r.Ok? ==> r.value in N');
    ts := inits + rest;
    AllValidJoin(inits, rest);
    LetrecInitsDone(bs, expr, fuel, h, [names] + n, [hs] + v, inits, vals.value, rest, r,
                    Snapshot(N'), env.names, env.values);
  }

  /** An initializer loop that stopped stops the `letrec`, leaving what the
      loop left. */
  lemma LetrecInitsStopped(bs: seq<seq<Node>>, body: Node, fuel: nat, h: Heap, n: Matrix, v: Matrix,
                           ts: seq<Trace>, err: Error)
    requires fuel > 0 && InitsRan(bs, fuel - 1, h, n, v, ts, Err(err))
    ensures LetrecInitsRan(bs, body, fuel, h, n, v, ts, Err(err), HeapAfter(ts, h), NamesAfter(ts, n),
                           ValuesAfter(ts, v))
  {
    if |ts| == |bs| {
      assert ts[..|bs|] == ts;
    }
  }

  /** After all the initializers succeeded, the `letrec` continues with
      `complete` and the body, from where the loop stopped. */
  lemma LetrecInitsDone(bs: seq<seq<Node>>, body: Node, fuel: nat, h: Heap, n: Matrix, v: Matrix,
                        inits: seq<Trace>, vals: seq<Node>, rest: seq<Trace>, r: Result<Node>,
                        h': Heap, n': Matrix, v': Matrix)
    requires fuel > 0 && InitsRan(bs, fuel - 1, h, n, v, inits, Ok(vals))
    requires Completed(vals, body, fuel, HeapAfter(inits, h), NamesAfter(inits, n), ValuesAfter(inits, v),
                       rest, r, h', n', v')
    ensures LetrecInitsRan(bs, body, fuel, h, n, v, inits + rest, r, h', n', v')
  {
    var ts := inits + rest;
    assert ts[..|bs|] == inits && ts[|bs|..] == rest;
  }

  /** The placeholder row is prepended and the initializers are evaluated in
      the extended environment. */
  method BindAndInit(names: seq<Node>, hs: seq<Node>, bs: seq<seq<Node>>, env: Env, fuel: nat, ghost N: set<Node>)
    returns (r: Result<seq<Node>>, ghost N': set<Node>, ghost ts: seq<Trace>)
    requires fuel > 0 && |names| == |hs|
    requires Closed(N) && env.Within(N)
    requires forall k :: 0 <= k < |names| ==> names[k] in N && hs[k] in N
    requires forall k, j :: 0 <= k < |bs| && 0 <= j < |bs[k]| ==> bs[k][j] in N
    modifies env, N
    ensures Steps(env, N, N') && AllValid(ts) && |env.values| > 0
    ensures InitsRan(bs, fuel - 1, old(Snapshot(N)), [names] + old(env.names), [hs] + old(env.values), ts, r)
    ensures Snapshot(N') == HeapAfter(ts, old(Snapshot(N)))
    ensures env.names == NamesAfter(ts, [names] + old(env.names)) && env.values == ValuesAfter(ts, [hs] + old(env.values))
    ensures r.Ok? ==> forall k :: 0 <= k < |r.value| ==> r.value[k] in N'
    decreases fuel, 2
  {
    ghost var n0, v0 := env.names, env.values;
    env.Prepend(names, hs);
    ghost var pn, pv := env.names, env.values;
    r, N', ts := EvalInits(bs, env, fuel, N);
    PrependedCons(n0, v0, names, hs);
    PrependedTrans(n0, v0, pn, pv, env.names, env.values);
    PrependedNonEmpty(pn, pv, env.names, env.values);
  }

  /** `complete(v, z)` on row 0 of the values matrix, then the body. */
  method CompleteAndEval(expr: Node, z: seq<Node>, env: Env, fuel: nat, ghost N: set<Node>)
    returns (r: Result<Node>, ghost N': set<Node>, ghost rest: seq<Trace>)
    requires fuel > 0 && |env.values| > 0
    requires Closed(N) && expr in N && env.Within(N) && forall k :: 0 <= k < |z| ==> z[k] in N
    modifies env, N
    ensures Steps(env, N, N') && (r.Ok? ==> r.value in N')
    ensures AllValid(rest)
    ensures Completed(z, expr, fuel, old(Snapshot(N)), old(env.names), old(env.values), rest, r,
                      Snapshot(N'), env.names, env.values)
    decreases fuel, 0
  {
    N', rest := N, [];
    var row := env.values[0];
    var c := Complete(row, z, N);
    if c.Err? {
      PrependedRefl(env.names, env.values);
      return Err(c.error), N, [];
    }
    ghost var b;
    r, N', b := Eval(expr, env, fuel - 1, N);
    rest := [b];
  }

  /** `Emulator::eval(AST)`: evaluate the root in empty matrices and wrap the
      value in a new tree. A missing root matches no class. `t` is the record
      of the root's evaluation. */
  method EvalProgram(ast: Ast, fuel: nat, ghost N: set<Node>) returns (r: Result<Ast>, ghost t: Option<Trace>)
    requires Closed(N) && (ast.root != null ==> ast.root in N)
    modifies N
    ensures ast.root == null <==> t.None?
    ensures ast.root == null ==> r == Err(UnknownNodeType)
    ensures t.Some? ==> Valid(t.value) && Runs(t.value, ast.root, fuel, old(Snapshot(N)), [], [])
    ensures t.Some? && t.value.result.Err? ==> r == Err(t.value.result.error)
    ensures t.Some? && t.value.result.Ok? ==> r.Ok? && fresh(r.value) && r.value.root == t.value.result.value
  {
    var root := ast.GetRoot();
    if root == null {
      return Err(UnknownNodeType), None;
    }
    var env := new Env([], []);
    var v;
    ghost var N', s;
    v, N', s := Eval(root, env, fuel, N);
    t := Some(s);
    if v.Err? {
      return Err(v.error), t;
    }
    var tree := new Ast(v.value);
    r := Ok(tree);
  }
}
