/** Two small programs built node by node, as a parser would hand them to
    `Emulator::eval`, and what evaluating them gives. */
module Programs {
  import opened Outcome
  import opened Syntax
  import opened Semantics
  import opened Meaning
  import opened Emulator

  /** `(add 2 3)` evaluates to a new int node holding 5. */
  method AddTwoThree(fuel: nat) returns (r: Result<Ast>)
    requires fuel >= 2
    ensures r.Ok? && r.value.root != null && r.value.root.kind == IntLit && r.value.root.intValue == 5
  {
    var two := new Node.IntLiteral("LiteralInt", 2);
    var three := new Node.IntLiteral("LiteralInt", 3);
    var e := Pair(Add, "ADD", two, three);
    var ast := new Ast(e);
    ghost var N := {two, three, e};
    assert Closed(N);
    ghost var h := Snapshot(N);
    assert h[e] == ContentsOf(e);
    ghost var t;
    r, t := EvalProgram(ast, fuel, N);
    AddLiterals(t.value);
  }

  /** The recorded tree of `(let ((x a)) (add x c))`. */
  ghost predicate LetAddShape(h: Heap, e: Node, a: int, c: int)
  {
    e.kind == Let && e in h &&
    var st := h[e].statements;
    |st| == 2 && st[0] in h && st[1] in h &&
    var b := h[st[1]].statements;
    var body := h[st[0]].statements;
    |b| == 2 && b[0].kind == Ident && b[1].kind == IntLit && b[1].intValue as int == a &&
    st[0].kind == Add && |body| == 2 && body[0].kind == Ident && body[0].name == b[0].name &&
    body[1].kind == IntLit && body[1].intValue as int == c
  }

  /** A new node of class `kind` with the children `a` and `b`, as a parser
      builds one with `addStatement`. */
  method Pair(kind: Kind, tag: string, a: Node, b: Node) returns (p: Node)
    requires kind != IntLit && kind != BoolLit && kind != Ident
    ensures fresh(p) && p.kind == kind && p.statements == [a, b]
  {
    p := new Node(kind, tag);
    p.AddStatement(a);
    p.AddStatement(b);
  }

  /** Builds `(let ((x 10)) (add x 1))` from new nodes. */
  method BuildLetTenAddOne() returns (e: Node, ghost N: set<Node>)
    ensures fresh(N)
    ensures Closed(N)
    ensures e in N
    ensures LetAddShape(Snapshot(N), e, 10, 1)
  {
    var x := new Node.Identifier("Identifier", "x");
    var ten := new Node.IntLiteral("LiteralInt", 10);
    var bind := Pair(Plain, "BINDING", x, ten);
    N := {x, ten, bind};
    assert fresh(N);
    var y := new Node.Identifier("Identifier", "x");
    var one := new Node.IntLiteral("LiteralInt", 1);
    var body := Pair(Add, "ADD", y, one);
    N := N + {y, one, body};
    assert fresh(N);
    e := Pair(Let, "LET", body, bind);
    N := N + {e};
    assert Closed(N);
    ghost var h := Snapshot(N);
    assert h[e] == ContentsOf(e) && h[bind] == ContentsOf(bind) && h[body] == ContentsOf(body);
    LetAddShapeOf(h, e, bind, body, ten.intValue as int, one.intValue as int);
  }

  lemma LetAddShapeOf(h: Heap, e: Node, bind: Node, body: Node, a: int, c: int)
    requires e.kind == Let && body.kind == Add && e in h && bind in h && body in h
    requires h[e].statements == [body, bind] && |h[bind].statements| == 2 && |h[body].statements| == 2
    requires var x, y := h[bind].statements[0], h[body].statements[0];
             x.kind == Ident && y.kind == Ident && x.name == y.name
    requires var lit, lit' := h[bind].statements[1], h[body].statements[1];
             lit.kind == IntLit && lit'.kind == IntLit && lit.intValue as int == a && lit'.intValue as int == c
    ensures LetAddShape(h, e, a, c)
  {
  }

  /** `(let ((x 10)) (add x 1))` evaluates to a new int node holding 11. */
  method LetTenAddOne(fuel: nat) returns (r: Result<Ast>)
    requires fuel >= 3
    ensures r.Ok? && r.value.root != null && r.value.root.kind == IntLit && r.value.root.intValue == 11
  {
    var e;
    ghost var N;
    e, N := BuildLetTenAddOne();
    var ast := new Ast(e);
    ghost var t;
    r, t := EvalProgram(ast, fuel, N);
    assert LetAddShape(t.value.pre, e, 10, 1);
    LetAddExample(t.value);
  }
}
