/** The pure-in-effect handlers of src/Emulator.cpp: once the operands have been
    evaluated, car, cdr, atom, the literal test, integer arithmetic, `le`, `cons`
    and `equal` only inspect the operand nodes and either hand back an existing
    node, ask for a new node to be built, or fail. `Made` says which. */
module Primitives {
  import opened Outcome
  import opened Syntax

  /** What a primitive returns: an existing node, or a new node of the given shape. */
  datatype Made =
    | Existing(node: Node)
    | FreshInt(i: i32)              // new LiteralInt("LiteralInt", i)
    | FreshBool(b: bool)            // new LiteralBool("LiteralBool", b)
    | FreshNil                      // new LiteralNil("NIL")
    | FreshList(elems: seq<Node>)   // new ListNode("LIST") holding elems

  /** `dynamic_pointer_cast<ListNode>(x) == nullptr`: closures, nil and
      identifiers are atoms too. */
  predicate IsAtom(x: Node) { x.kind != List }

  // ---------------------------------------------------------------- lists

  /** `evalCarNode` after its operand is evaluated to `c`, whose contents are
      then `cc`. */
  function CarOf(c: Node, cc: Contents): (r: Result<Made>)
    ensures r.Ok? <==> c.kind == NilLit || (c.kind == List && cc.statements != [])
    ensures r.Err? ==> r.error == CarError
    ensures c.kind == NilLit ==> r == Ok(Existing(c))
    ensures c.kind == List && cc.statements != [] ==> r == Ok(Existing(cc.statements[0]))
  {
    if c.kind == NilLit then Ok(Existing(c))
    else if |cc.statements| >= 1 && c.kind == List then Ok(Existing(cc.statements[0]))
    else Err(CarError)
  }

  /** `evalCdrNode` after its operand is evaluated to `c`, whose contents are
      then `cc`. */
  function CdrOf(c: Node, cc: Contents): (r: Result<Made>)
    ensures r.Ok? <==> c.kind == NilLit || (c.kind == List && cc.statements != [])
    ensures r.Err? ==> r.error == CdrError
    ensures c.kind == NilLit ==> r == Ok(Existing(c))
    ensures c.kind == List && |cc.statements| == 1 ==> r == Ok(FreshNil)
    ensures c.kind == List && |cc.statements| >= 2 ==> r == Ok(FreshList(cc.statements[1..]))
  {
    if c.kind == NilLit then Ok(Existing(c))
    else if c.kind == List && |cc.statements| >= 2 then Ok(FreshList(cc.statements[1..]))
    else if c.kind == List && |cc.statements| == 1 then Ok(FreshNil)
    else Err(CdrError)
  }

  /** `evalConsNode` after both operands are evaluated; `rc` are the contents
      of the second. */
  function ConsOf(left: Node, right: Node, rc: Contents): (r: Result<Made>)
    ensures r.Ok? <==> right.kind == List || right.kind == NilLit
    ensures r.Err? ==> r.error == ConsError
    ensures right.kind == List ==> r == Ok(FreshList([left] + rc.statements))
    ensures right.kind == NilLit ==> r == Ok(FreshList([left]))
  {
    if right.kind == List then Ok(FreshList([left] + rc.statements))
    else if right.kind == NilLit then Ok(FreshList([left]))
    else Err(ConsError)
  }

  /** `evalAtomNode`. */
  function AtomOf(c: Node): (r: Made)
    ensures r == FreshBool(IsAtom(c))
  {
    FreshBool(c.kind != List)
  }

  /** `evalLiteralNode`: true exactly for an int, bool or nil value. */
  function LiteralTestOf(c: Node): (r: Made)
    ensures r.FreshBool?
    ensures r.b <==> c.kind == IntLit || c.kind == BoolLit || c.kind == NilLit
  {
    FreshBool(c.kind == IntLit || c.kind == BoolLit || c.kind == NilLit)
  }

  // ---------------------------------------------------------------- integers

  function Abs(x: int): (r: nat)
  {
    if x < 0 then -x else x
  }

  /** C++ `a / b` on `int` (ISO/IEC 14882:2011 section 5.6 [expr.mul] paragraph 4):
      the algebraic quotient with any fractional part discarded. */
  function TDiv(a: int, b: int): (q: int)
    requires b != 0
  {
    var q := Abs(a) / Abs(b);
    if (a < 0) == (b < 0) then q else -q
  }

  /** C++ `a % b` on `int`: the remainder carries the sign of the dividend. */
  function TRem(a: int, b: int): (m: int)
    requires b != 0
  {
    var m := Abs(a) % Abs(b);
    if a < 0 then -m else m
  }

  lemma MulNeg(x: int, y: int)
    ensures (-x) * y == -(x * y) && x * (-y) == -(x * y)
  {
  }

  lemma Euclid(A: nat, B: nat)
    requires B > 0
    ensures A == (A / B) * B + A % B && 0 <= A % B < B
  {
  }

  /** The signs put back on a quotient and remainder of magnitudes. */
  lemma SignedIdentity(a: int, b: int, q: int, m: int)
    requires b != 0 && Abs(a) == q * Abs(b) + m
    ensures (if (a < 0) == (b < 0) then q else -q) * b + (if a < 0 then -m else m) == a
  {
    var B: int := Abs(b);
    var P := q * B;
    if b > 0 {
      assert b == B;
      assert (-q) * b == -P by { MulNeg(q, B); }
    } else {
      assert b == -B;
      assert q * b == -P by { MulNeg(q, B); }
      assert (-q) * b == P by { MulNeg(q, B); MulNeg(-q, B); }
    }
  }

  /** `(a/b)*b + a%b == a`, with the remainder smaller than the divisor and of
      the dividend's sign. */
  lemma DivRemIdentity(a: int, b: int)
    requires b != 0
    ensures TDiv(a, b) * b + TRem(a, b) == a
    ensures Abs(TRem(a, b)) < Abs(b)
    ensures TRem(a, b) == 0 || ((TRem(a, b) < 0) == (a < 0))
  {
    TruncatedIdentity(a, b);
    RemainderBounds(a, b);
  }

  lemma TruncatedIdentity(a: int, b: int)
    requires b != 0
    ensures TDiv(a, b) * b + TRem(a, b) == a
  {
    var A, B := Abs(a), Abs(b);
    var q: int, m: int := A / B, A % B;
    Euclid(A, B);
    SignedIdentity(a, b, q, m);
    var t, r := TDiv(a, b), TRem(a, b);
    assert t == if (a < 0) == (b < 0) then q else -q;
    assert r == if a < 0 then -m else m;
  }

  lemma RemainderBounds(a: int, b: int)
    requires b != 0
    ensures Abs(TRem(a, b)) < Abs(b)
    ensures TRem(a, b) == 0 || ((TRem(a, b) < 0) == (a < 0))
  {
    Euclid(Abs(a), Abs(b));
  }

  /** The quotient is truncated toward zero: its magnitude is the largest `k`
      with `k * |b| <= |a|`. */
  lemma TDivTruncates(a: int, b: int)
    requires b != 0
    ensures Abs(TDiv(a, b)) * Abs(b) <= Abs(a) < (Abs(TDiv(a, b)) + 1) * Abs(b)
  {
    var A, B := Abs(a), Abs(b);
    var q: int := A / B;
    Euclid(A, B);
    assert Abs(TDiv(a, b)) == q;
    assert (q + 1) * B == q * B + B;
  }

  /** The operator of an arithmetic node on mathematical integers; `None` where
      C++ leaves the `int` result undefined (overflow, zero divisor). */
  function ArithValue(op: Kind, a: int, b: int): (r: Option<int>)
    requires op == Add || op == Sub || op == Mul || op == Dive || op == Rem
    requires InI32(a) && InI32(b)
    ensures r.Some? ==> InI32(r.value)
    ensures op == Add ==> r == if InI32(a + b) then Some(a + b) else None
    ensures op == Sub ==> r == if InI32(a - b) then Some(a - b) else None
    ensures op == Mul ==> r == if InI32(a * b) then Some(a * b) else None
    ensures (op == Dive || op == Rem) && b == 0 ==> r == None
    ensures (op == Dive || op == Rem) && b != 0 && !InI32(TDiv(a, b)) ==> r == None
    ensures op == Dive && b != 0 && InI32(TDiv(a, b)) ==> r == Some(TDiv(a, b))
    ensures op == Rem && b != 0 && InI32(TDiv(a, b)) ==> r == Some(TRem(a, b))
  {
    if op == Add then (if InI32(a + b) then Some(a + b) else None)
    else if op == Sub then (if InI32(a - b) then Some(a - b) else None)
    else if op == Mul then (if InI32(a * b) then Some(a * b) else None)
    else if b == 0 || !InI32(TDiv(a, b)) then None
    else if op == Dive then Some(TDiv(a, b))
    else (DivRemIdentity(a, b); Some(TRem(a, b)))
  }

  function OperandError(op: Kind): (err: Error)
  {
    match op
    case Add => AddError
    case Sub => SubError
    case Mul => MulError
    case Dive => DiveError
    case Rem => RemError
    case _ => LeError
  }

  /** `evalAddNode` ... `evalRemNode` and `evalLeNode` after both operands are
      evaluated: both must be `LiteralInt`. */
  function ArithOf(op: Kind, left: Node, right: Node): (r: Result<Made>)
    requires op == Add || op == Sub || op == Mul || op == Dive || op == Rem || op == Le
    ensures (left.kind != IntLit || right.kind != IntLit) ==> r == Err(OperandError(op))
    ensures left.kind == IntLit && right.kind == IntLit && op == Le ==>
              r == Ok(FreshBool(left.intValue <= right.intValue))
    ensures left.kind == IntLit && right.kind == IntLit && op != Le ==>
              match ArithValue(op, left.intValue as int, right.intValue as int)
              case Some(v) => r == Ok(FreshInt(v as i32))
              case None => r == Err(UndefinedBehaviour)
  {
    if left.kind == IntLit && right.kind == IntLit then
      if op == Le then Ok(FreshBool(left.intValue <= right.intValue))
      else
        match ArithValue(op, left.intValue as int, right.intValue as int)
        case Some(v) => Ok(FreshInt(v as i32))
        case None => Err(UndefinedBehaviour)
    else Err(OperandError(op))
  }

  // ---------------------------------------------------------------- equality

  /** `evalEqualNode` after both operands are evaluated; `lc` and `rc` are
      their contents, whose tags are the last resort. */
  function EqualOf(left: Node, lc: Contents, right: Node, rc: Contents): (r: Result<Made>)
    ensures r.Err? <==> !IsAtom(left) && !IsAtom(right)
    ensures r.Err? ==> r.error == EqualError
    ensures r.Ok? ==> r.value.FreshBool?
    ensures left.kind == IntLit && right.kind == IntLit ==> r == Ok(FreshBool(left.intValue == right.intValue))
    ensures left.kind == BoolLit && right.kind == BoolLit ==> r == Ok(FreshBool(left.boolValue == right.boolValue))
    ensures left.kind == Ident && right.kind == Ident ==> r == Ok(FreshBool(left.name == right.name))
  {
    if left.kind != List || right.kind != List then
      if left.kind == IntLit && right.kind == IntLit then Ok(FreshBool(left.intValue == right.intValue))
      else if left.kind == BoolLit && right.kind == BoolLit then Ok(FreshBool(left.boolValue == right.boolValue))
      else if left.kind == Ident && right.kind == Ident then Ok(FreshBool(left.name == right.name))
      else Ok(FreshBool(lc.nodeType == rc.nodeType))
    else Err(EqualError)
  }

  /** The operator of a unary node applied to its evaluated operand. */
  function UnaryOf(op: Kind, c: Node, cc: Contents): (r: Result<Made>)
    requires IsUnary(op)
  {
    match op
    case Car => CarOf(c, cc)
    case Cdr => CdrOf(c, cc)
    case Atom => Ok(AtomOf(c))
    case _ => Ok(LiteralTestOf(c))
  }

  predicate IsUnary(op: Kind)
  {
    op == Car || op == Cdr || op == Atom || op == Literal
  }

  predicate IsBinary(op: Kind)
  {
    op == Add || op == Sub || op == Mul || op == Dive || op == Rem || op == Le || op == Cons || op == Equal
  }

  /** The operator of a binary node applied to its evaluated operands. */
  function BinaryOf(op: Kind, left: Node, lc: Contents, right: Node, rc: Contents): (r: Result<Made>)
    requires IsBinary(op)
  {
    match op
    case Cons => ConsOf(left, right, rc)
    case Equal => EqualOf(left, lc, right, rc)
    case _ => ArithOf(op, left, right)
  }

  // ---------------------------------------------------------------- building nodes

  /** The nodes a `Made` refers to all lie in the universe. */
  ghost predicate MadeWithin(m: Made, universe: set<Node>)
  {
    match m
    case Existing(x) => x in universe
    case FreshList(es) => forall k :: 0 <= k < |es| ==> es[k] in universe
    case _ => true
  }

  /** The nodes a unary rule refers to come from its operand's children. */
  lemma UnaryWithin(op: Kind, c: Node, cc: Contents, universe: set<Node>)
    requires IsUnary(op) && c in universe && forall k :: 0 <= k < |cc.statements| ==> cc.statements[k] in universe
    requires UnaryOf(op, c, cc).Ok?
    ensures MadeWithin(UnaryOf(op, c, cc).value, universe)
  {
    if op == Cdr && c.kind == List && |cc.statements| >= 2 {
      var es := cc.statements[1..];
      forall k | 0 <= k < |es| ensures es[k] in universe {
        assert es[k] == cc.statements[k + 1];
      }
    }
  }

  /** The nodes a binary rule refers to are its operands and their children. */
  lemma BinaryWithin(op: Kind, left: Node, lc: Contents, right: Node, rc: Contents, universe: set<Node>)
    requires IsBinary(op) && left in universe && right in universe
    requires forall k :: 0 <= k < |rc.statements| ==> rc.statements[k] in universe
    requires BinaryOf(op, left, lc, right, rc).Ok?
    ensures MadeWithin(BinaryOf(op, left, lc, right, rc).value, universe)
  {
    if op == Cons && right.kind == List {
      var es := [left] + rc.statements;
      forall k | 0 <= k < |es| ensures es[k] in universe {
        if k > 0 {
          assert es[k] == rc.statements[k - 1];
        }
      }
    }
  }

  /** `x` has the class and payload a new node of shape `m` is built with. */
  predicate Classed(m: Made, x: Node)
  {
    match m
    case Existing(n) => x == n
    case FreshInt(i) => x.kind == IntLit && x.intValue == i
    case FreshBool(b) => x.kind == BoolLit && x.boolValue == b
    case FreshNil => x.kind == NilLit
    case FreshList(_) => x.kind == List
  }

  /** The tag and children a new node of shape `m` starts with. */
  function NewContents(m: Made): (c: Contents)
    requires !m.Existing?
  {
    match m
    case FreshInt(_) => Contents("LiteralInt", [])
    case FreshBool(_) => Contents("LiteralBool", [])
    case FreshNil => Contents("NIL", [])
    case FreshList(es) => Contents("LIST", es)
  }

  /** The node `r` and the heap `h'` are what the rule outcome `m` asks for,
      from the heap `h`: the same error and no change, the existing node and no
      change, or one node that `h` does not hold, of the requested class and
      payload, added with its initial contents. */
  ghost predicate Yields(m: Result<Made>, r: Result<Node>, h: Heap, h': Heap)
  {
    match m
    case Err(err) => r == Err(err) && h' == h
    case Ok(made) =>
      r.Ok? && Classed(made, r.value) &&
      if made.Existing? then h' == h
      else r.value !in h && h' == h[r.value := NewContents(made)]
  }

  /** The `make_shared` calls of the handlers; a new list is filled one
      `addStatement` at a time, as `evalCdrNode` does. */
  method Materialize(m: Made, ghost universe: set<Node>) returns (x: Node, ghost grown: set<Node>)
    requires Closed(universe) && MadeWithin(m, universe)
    ensures Classed(m, x) && universe <= grown && fresh(grown - universe) && Closed(grown) && x in grown
    ensures m.Existing? ==> grown == universe && Snapshot(grown) == old(Snapshot(universe))
    ensures !m.Existing? ==>
              fresh(x) && Snapshot(grown) == old(Snapshot(universe))[x := NewContents(m)]
  {
    if m.Existing? {
      x, grown := m.node, universe;
      return;
    }
    ghost var before := Snapshot(universe);
    if m.FreshInt? {
      x := new Node.IntLiteral("LiteralInt", m.i);
    } else if m.FreshBool? {
      x := new Node.BoolLiteral("LiteralBool", m.b);
    } else if m.FreshNil? {
      x := new Node(NilLit, "NIL");
    } else {
      var es := m.elems;
      x := new Node(List, "LIST");
      var k := 0;
      while k < |es|
        invariant 0 <= k <= |es|
        invariant x.nodeType == "LIST" && x.statements == es[..k]
      {
        x.AddStatement(es[k]);
        assert es[..k + 1] == es[..k] + [es[k]];
        k := k + 1;
      }
      assert es[..k] == es;
    }
    grown := universe + {x};
    assert Snapshot(universe) == before;
    SnapshotAdd(universe, x);
  }

  // ---------------------------------------------------------------- lemmas

  /** car of a list built by cons gives back the consed element; cdr gives back
      the elements of the second operand, or nil when there were none. */
  lemma CarCdrOfCons(x: Node, y: Node, yc: Contents, c: Node, cc: Contents)
    requires ConsOf(x, y, yc).Ok?
    requires c.kind == List && cc.statements == ConsOf(x, y, yc).value.elems
    ensures CarOf(c, cc) == Ok(Existing(x))
    ensures y.kind == NilLit || yc.statements == [] ==> CdrOf(c, cc) == Ok(FreshNil)
    ensures y.kind == List && yc.statements != [] ==> CdrOf(c, cc) == Ok(FreshList(yc.statements))
  {
  }

  /** Consing the car of a list of two or more elements onto its cdr rebuilds
      the list's elements. */
  lemma ConsOfCarCdr(c: Node, cc: Contents, rest: Node, rc: Contents)
    requires c.kind == List && |cc.statements| >= 2
    requires rest.kind == List && CdrOf(c, cc) == Ok(FreshList(rc.statements))
    ensures CarOf(c, cc).Ok? && CarOf(c, cc).value.Existing?
    ensures ConsOf(CarOf(c, cc).value.node, rest, rc) == Ok(FreshList(cc.statements))
  {
    assert [cc.statements[0]] + cc.statements[1..] == cc.statements;
  }

  /** `equal` fails exactly when `atom` is false for both operands. */
  lemma EqualFailsIffNoAtom(left: Node, lc: Contents, right: Node, rc: Contents)
    ensures EqualOf(left, lc, right, rc).Err? <==> AtomOf(left) == FreshBool(false) && AtomOf(right) == FreshBool(false)
  {
  }

  /** `equal` is reflexive on atoms and symmetric. */
  lemma EqualReflexiveSymmetric(x: Node, xc: Contents, y: Node, yc: Contents)
    ensures IsAtom(x) ==> EqualOf(x, xc, x, xc) == Ok(FreshBool(true))
    ensures EqualOf(x, xc, y, yc) == EqualOf(y, yc, x, xc)
  {
  }

  /** Two atoms of different kinds, at least one of which is not an int, bool or
      identifier pair, compare by their `node_type` strings only. */
  lemma EqualFallsBackToTags(x: Node, xc: Contents, y: Node, yc: Contents)
    requires IsAtom(x) || IsAtom(y)
    requires !(x.kind == y.kind && (x.kind == IntLit || x.kind == BoolLit || x.kind == Ident))
    ensures EqualOf(x, xc, y, yc) == Ok(FreshBool(xc.nodeType == yc.nodeType))
  {
  }

  /** Division and remainder of `int` operands agree with C++ whenever C++
      defines them. */
  lemma DiveRemOfInts(left: Node, right: Node)
    requires left.kind == IntLit && right.kind == IntLit && right.intValue != 0
    requires InI32(TDiv(left.intValue as int, right.intValue as int))
    ensures ArithOf(Dive, left, right).Ok? && ArithOf(Rem, left, right).Ok?
    ensures ArithOf(Dive, left, right).value.FreshInt? && ArithOf(Rem, left, right).value.FreshInt?
    ensures ArithOf(Dive, left, right).value.i as int * right.intValue as int
            + ArithOf(Rem, left, right).value.i as int == left.intValue as int
  {
    var a, b := left.intValue as int, right.intValue as int;
    DivRemIdentity(a, b);
    assert InI32(TRem(a, b));
  }
}
