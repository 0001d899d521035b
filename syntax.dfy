/** The node structure of src/AST.h. Every node is an `ASTNode` object with a
    `node_type` tag string and a mutable vector of child pointers (`statements`);
    the C++ subclasses only add a payload (`LiteralInt`, `LiteralBool`,
    `Identifier`) or serve as a dynamic type for dispatch. Here the dynamic class
    is the constant field `kind`. Payloads are constant as well: the only in-place
    overwrite of a node in the program (`*v[0][i] = *z[i]` in letrec) goes through
    the non-virtual `ASTNode` copy assignment, which copies `node_type` and
    `statements` and nothing else. */
module Syntax {
  import opened Outcome

  /** The C++ `int` of `LiteralInt`. */
  newtype i32 = x: int | -0x8000_0000 <= x < 0x8000_0000

  predicate InI32(x: int) { -0x8000_0000 <= x < 0x8000_0000 }

  /** The dynamic class of a node: one constructor per class of src/AST.h,
      plus `Literal` for the `LiteralNode` test form the evaluator dispatches on,
      and `Plain` for a bare `ASTNode`. */
  datatype Kind =
    | IntLit | BoolLit | NilLit | Ident | List
    | Quote | Car | Cdr | Atom | Literal
    | Add | Sub | Mul | Dive | Rem | Le | Cons | Equal
    | Cond | Lambda | FuncClosure | Let | Letrec
    | Plain

  class Node {
    const kind: Kind
    const intValue: i32
    const boolValue: bool
    const name: string
    var nodeType: string
    var statements: seq<Node>

    /** `ASTNode(t)` and every payload-free subclass constructor. */
    constructor (kind: Kind, t: string)
      requires kind != IntLit && kind != BoolLit && kind != Ident
      ensures this.kind == kind && nodeType == t && statements == []
      ensures intValue == 0 && !boolValue && name == ""
    {
      this.kind := kind;
      intValue, boolValue, name := 0, false, "";
      nodeType := t;
      statements := [];
    }

    /** `LiteralInt(t, v)`: `getValue` gives back `v`. */
    constructor IntLiteral(t: string, v: i32)
      ensures kind == IntLit && intValue == v && nodeType == t && statements == []
      ensures !boolValue && name == ""
    {
      kind := IntLit;
      intValue, boolValue, name := v, false, "";
      nodeType := t;
      statements := [];
    }

    /** `LiteralBool(t, v)`: `getValue` gives back `v`. */
    constructor BoolLiteral(t: string, v: bool)
      ensures kind == BoolLit && boolValue == v && nodeType == t && statements == []
      ensures intValue == 0 && name == ""
    {
      kind := BoolLit;
      intValue, boolValue, name := 0, v, "";
      nodeType := t;
      statements := [];
    }

    /** `Identifier(t, v)`: `getValue` gives back the name `v`. */
    constructor Identifier(t: string, v: string)
      ensures kind == Ident && name == v && nodeType == t && statements == []
      ensures intValue == 0 && !boolValue
    {
      kind := Ident;
      intValue, boolValue, name := 0, false, v;
      nodeType := t;
      statements := [];
    }

    /** `getStatementCount`: the number of children. */
    function GetStatementCount(): (c: nat)
      reads this
      ensures c == |statements|
      ensures c == 0 <==> statements == []
    {
      |statements|
    }

    /** `getStatement(index)` is `statements.at(index)`: an index outside the
        vector throws; a negative `int` argument converts to a huge `size_t`. */
    function GetStatement(i: int): (r: Result<Node>)
      reads this
      ensures r.Ok? <==> 0 <= i < |statements|
      ensures r.Ok? ==> r.value == statements[i]
      ensures r.Err? ==> r.error == IndexOutOfRange
    {
      if 0 <= i < |statements| then Ok(statements[i]) else Err(IndexOutOfRange)
    }

    /** `addStatement`: `push_back` of one child. */
    method AddStatement(s: Node)
      modifies this
      ensures statements == old(statements) + [s]
      ensures nodeType == old(nodeType)
    {
      statements := statements + [s];
    }

    /** `addStatements`: insert the given children, in order, at the end. */
    method AddStatements(ss: seq<Node>)
      modifies this
      ensures statements == old(statements) + ss
      ensures nodeType == old(nodeType)
    {
      statements := statements + ss;
    }

    /** `setStatements`: replace the child vector wholesale. */
    method SetStatements(ss: seq<Node>)
      modifies this
      ensures statements == ss
      ensures nodeType == old(nodeType)
    {
      statements := ss;
    }
  }

  /** A set of nodes closed under taking children: the objects an evaluation may
      reach from its expression and its environment. */
  ghost predicate Closed(universe: set<Node>)
    reads universe
  {
    forall x, i :: x in universe && 0 <= i < |x.statements| ==> x.statements[i] in universe
  }

  /** The part of a node that can change in place: its tag and its child
      vector, which is what the `ASTNode` copy assignment transfers. */
  datatype Contents = Contents(nodeType: string, statements: seq<Node>)

  function ContentsOf(x: Node): (c: Contents)
    reads x
  {
    Contents(x.nodeType, x.statements)
  }

  /** The contents of some nodes at one moment. */
  type Heap = map<Node, Contents>

  /** The contents of every node of a set, as they are now. */
  ghost function Snapshot(s: set<Node>): (h: Heap)
    reads s
    ensures h.Keys == s
  {
    map x | x in s :: ContentsOf(x)
  }

  /** Every child a heap records is itself in the heap. */
  ghost predicate ClosedHeap(h: Heap)
  {
    forall x, i :: x in h && 0 <= i < |h[x].statements| ==> h[x].statements[i] in h
  }

  lemma SnapshotClosed(s: set<Node>)
    requires Closed(s)
    ensures ClosedHeap(Snapshot(s))
  {
    var h := Snapshot(s);
    forall x, i | x in h && 0 <= i < |h[x].statements|
      ensures h[x].statements[i] in h
    {
      assert h[x] == ContentsOf(x);
    }
  }

  /** Adding a node to a set adds its contents to the snapshot. */
  lemma SnapshotAdd(s: set<Node>, x: Node)
    ensures Snapshot(s + {x}) == Snapshot(s)[x := ContentsOf(x)]
  {
  }

  /** The `AST` root holder. */
  class Ast {
    const root: Node?

    /** `AST()`: an empty tree. */
    constructor Empty()
      ensures root == null
    {
      root := null;
    }

    /** `AST(rootNode)`. */
    constructor (rootNode: Node?)
      ensures root == rootNode
    {
      root := rootNode;
    }

    /** `isEmpty`: holds exactly when there is no root. */
    predicate IsEmpty()
      ensures IsEmpty() <==> root == null
    {
      root == null
    }

    function GetRoot(): (r: Node?)
      ensures r == root
    {
      root
    }
  }
}
