/** The environment of src/Emulator.cpp: the two parallel matrices `n` (names)
    and `v` (values), a `vector<vector<node>>` each (the `Matrix` typedef of
    src/Emulator.h). Rows are scanned from row 0, and row 0 is the most recently
    inserted one. */
module Environment {
  import opened Outcome
  import opened Syntax

  type Matrix = seq<seq<Node>>

  /** The pair of matrices a handler receives by reference (`Matrix& n, Matrix& v`). */
  class Env {
    var names: Matrix
    var values: Matrix

    constructor (names: Matrix, values: Matrix)
      ensures this.names == names && this.values == values
    {
      this.names := names;
      this.values := values;
    }

    /** `n.insert(n.begin(), rn)` and `v.insert(v.begin(), rv)`: a new row 0. */
    method Prepend(rn: seq<Node>, rv: seq<Node>)
      modifies this
      ensures names == [rn] + old(names) && values == [rv] + old(values)
    {
      names := [rn] + names;
      values := [rv] + values;
    }

    /** Every node the matrices hold lies in the given universe. */
    ghost predicate Within(universe: set<Node>)
      reads this
    {
      (forall i, j :: 0 <= i < |names| && 0 <= j < |names[i]| ==> names[i][j] in universe) &&
      (forall i, j :: 0 <= i < |values| && 0 <= j < |values[i]| ==> values[i][j] in universe)
    }

    /** A larger universe still holds every node of the matrices. */
    lemma WithinGrows(universe: set<Node>, universe': set<Node>)
      requires Within(universe) && universe <= universe'
      ensures Within(universe')
    {
    }
  }

  /** Equal row counts and pairwise equal row sizes: the shape `assoc` accepts. */
  predicate WellFormed(n: Matrix, v: Matrix)
  {
    |n| == |v| && forall i :: 0 <= i < |n| ==> |n[i]| == |v[i]|
  }

  /** `(n1, v1)` is `(n0, v0)` with rows inserted at the front only, and the
      inserted name and value rows pairwise of equal size. */
  predicate Prepended(n0: Matrix, v0: Matrix, n1: Matrix, v1: Matrix)
  {
    |n1| >= |n0| && |v1| >= |v0| && |n1| - |n0| == |v1| - |v0| &&
    (forall i :: 0 <= i < |n0| ==> n1[|n1| - |n0| + i] == n0[i]) &&
    (forall i :: 0 <= i < |v0| ==> v1[|v1| - |v0| + i] == v0[i]) &&
    forall i :: 0 <= i < |n1| - |n0| ==> |n1[i]| == |v1[i]|
  }

  lemma PrependedRefl(n: Matrix, v: Matrix)
    ensures Prepended(n, v, n, v)
  {
  }

  lemma PrependedTrans(n0: Matrix, v0: Matrix, n1: Matrix, v1: Matrix, n2: Matrix, v2: Matrix)
    requires Prepended(n0, v0, n1, v1) && Prepended(n1, v1, n2, v2)
    ensures Prepended(n0, v0, n2, v2)
  {
    var k1, k2 := |n1| - |n0|, |n2| - |n1|;
    forall i | 0 <= i < |n0| ensures n2[k2 + k1 + i] == n0[i] {
      assert n2[k2 + (k1 + i)] == n1[k1 + i];
    }
    forall i | 0 <= i < |v0| ensures v2[k2 + k1 + i] == v0[i] {
      assert v2[k2 + (k1 + i)] == v1[k1 + i];
    }
    forall i | 0 <= i < k2 + k1
      ensures |n2[i]| == |v2[i]|
    {
      if i >= k2 {
        assert n2[k2 + (i - k2)] == n1[i - k2];
        assert v2[k2 + (i - k2)] == v1[i - k2];
      }
    }
  }

  /** Inserting one pair of equal-sized rows at the front. */
  lemma PrependedCons(n: Matrix, v: Matrix, rn: seq<Node>, rv: seq<Node>)
    requires |rn| == |rv|
    ensures Prepended(n, v, [rn] + n, [rv] + v)
  {
    forall i | 0 <= i < |n| ensures ([rn] + n)[1 + i] == n[i] { }
    forall i | 0 <= i < |v| ensures ([rv] + v)[1 + i] == v[i] { }
  }

  /** Inserting no rows leaves the matrices as they were. */
  lemma PrependedNothing(n0: Matrix, v0: Matrix, n1: Matrix, v1: Matrix)
    requires Prepended(n0, v0, n1, v1) && (|n1| == |n0| || |v1| == |v0|)
    ensures n1 == n0 && v1 == v0
  {
    assert forall i :: 0 <= i < |n0| ==> n1[0 + i] == n0[i];
    assert forall i :: 0 <= i < |v0| ==> v1[0 + i] == v0[i];
  }

  /** Inserting rows in front of a non-empty pair of matrices leaves them
      non-empty, and row 0 unchanged when nothing was inserted. */
  lemma PrependedNonEmpty(n0: Matrix, v0: Matrix, n1: Matrix, v1: Matrix)
    requires Prepended(n0, v0, n1, v1) && |v0| > 0
    ensures |v1| > 0 && (|v1| == |v0| ==> v1[0] == v0[0])
  {
    if |v1| == |v0| {
      assert v1[0 + 0] == v0[0];
    }
  }

  /** Only inserting rows keeps a well-formed environment well formed. */
  lemma PrependedKeepsWellFormed(n0: Matrix, v0: Matrix, n1: Matrix, v1: Matrix)
    requires WellFormed(n0, v0) && Prepended(n0, v0, n1, v1)
    ensures WellFormed(n1, v1)
  {
    var k := |n1| - |n0|;
    forall i | k <= i < |n1|
      ensures |n1[i]| == |v1[i]|
    {
      assert n1[k + (i - k)] == n0[i - k] && v1[k + (i - k)] == v0[i - k];
    }
  }

  // ---------------------------------------------------------------- assoc

  /** `dynamic_pointer_cast<Identifier>(x)` succeeds and its value is `id`. */
  predicate Names(x: Node, id: string) { x.kind == Ident && x.name == id }

  /** The first column of a name row holding the identifier `id`. */
  function FindInRow(row: seq<Node>, id: string): (r: Option<nat>)
    ensures r.Some? ==> r.value < |row| && Names(row[r.value], id)
    ensures r.Some? ==> forall k :: 0 <= k < r.value ==> !Names(row[k], id)
    ensures r.None? ==> forall k :: 0 <= k < |row| ==> !Names(row[k], id)
    decreases |row|
  {
    if row == [] then None
    else if Names(row[|row| - 1], id) then
      match FindInRow(row[..|row| - 1], id)
      case Some(j) => Some(j)
      case None => Some(|row| - 1)
    else FindInRow(row[..|row| - 1], id)
  }

  /** `assoc` on the rows from row 0 on, once the row counts are known equal. */
  function AssocRows(n: Matrix, v: Matrix, id: string): (r: Result<Node>)
    requires |n| == |v|
    decreases |n|
  {
    if n == [] then Err(Unbound(id))
    else if |n[0]| != |v[0]| then Err(AssocRowMismatch)
    else match FindInRow(n[0], id)
      case Some(j) => Ok(v[0][j])
      case None => AssocRows(n[1..], v[1..], id)
  }

  /** The reference meaning of `assoc(id, n, v)`. */
  function AssocSpec(n: Matrix, v: Matrix, id: string): (r: Result<Node>)
  {
    if |n| != |v| then Err(AssocSizeMismatch) else AssocRows(n, v, id)
  }

  /** A value `assoc` finds is one of the value matrix's entries. */
  lemma {:induction false} AssocWithin(n: Matrix, v: Matrix, id: string, universe: set<Node>)
    requires forall i, j :: 0 <= i < |v| && 0 <= j < |v[i]| ==> v[i][j] in universe
    ensures AssocSpec(n, v, id).Ok? ==> AssocSpec(n, v, id).value in universe
    decreases |n|
  {
    if |n| == |v| && n != [] && |n[0]| == |v[0]| && FindInRow(n[0], id).None? {
      AssocWithin(n[1..], v[1..], id, universe);
    }
  }

  /** `Emulator::assoc`: scans rows 0.. and in each row columns 0.., checking
      each visited row pair for equal size. */
  method Assoc(id: Node, env: Env) returns (r: Result<Node>)
    ensures r == AssocSpec(env.names, env.values, id.name)
  {
    var n, v := env.names, env.values;
    if |n| != |v| {
      return Err(AssocSizeMismatch);
    }
    var i := 0;
    while i < |n|
      invariant 0 <= i <= |n|
      invariant AssocSpec(n, v, id.name) == AssocRows(n[i..], v[i..], id.name)
    {
      assert n[i..][1..] == n[i + 1..] && v[i..][1..] == v[i + 1..];
      if |n[i]| != |v[i]| {
        return Err(AssocRowMismatch);
      }
      var j := 0;
      while j < |n[i]|
        invariant 0 <= j <= |n[i]|
        invariant forall k :: 0 <= k < j ==> !Names(n[i][k], id.name)
      {
        if n[i][j].kind == Ident && n[i][j].name == id.name {
          return Ok(v[i][j]);
        }
        j := j + 1;
      }
      i := i + 1;
    }
    return Err(Unbound(id.name));
  }

  /** Where a name is found: `assoc` returns the value paired with the first
      identifier of that name in row-major order, provided every row it visits
      is well formed; it reports the name unbound exactly when no well-formed
      scan finds it. */
  lemma {:induction false} AssocFirstMatch(n: Matrix, v: Matrix, id: string, i: nat, j: nat)
    requires WellFormed(n, v)
    requires i < |n| && j < |n[i]| && Names(n[i][j], id)
    requires forall k :: 0 <= k < i ==> FindInRow(n[k], id).None?
    requires forall k :: 0 <= k < j ==> !Names(n[i][k], id)
    ensures AssocSpec(n, v, id) == Ok(v[i][j])
    decreases i
  {
    if i == 0 {
      FirstMatch(n[0], id, j);
    } else {
      assert FindInRow(n[0], id).None?;
      AssocFirstMatch(n[1..], v[1..], id, i - 1, j);
    }
  }

  lemma {:induction false} AssocUnbound(n: Matrix, v: Matrix, id: string)
    requires WellFormed(n, v)
    requires forall i, j :: 0 <= i < |n| && 0 <= j < |n[i]| ==> !Names(n[i][j], id)
    ensures AssocSpec(n, v, id) == Err(Unbound(id))
    decreases |n|
  {
    if n != [] {
      NoMatch(n[0], id);
      AssocUnbound(n[1..], v[1..], id);
    }
  }

  /** The row inserted last shadows every later row. */
  lemma AssocShadows(rn: seq<Node>, rv: seq<Node>, n: Matrix, v: Matrix, id: string)
    requires |rn| == |rv| && |n| == |v|
    ensures AssocSpec([rn] + n, [rv] + v, id) ==
            match FindInRow(rn, id)
            case Some(j) => Ok(rv[j])
            case None => AssocSpec(n, v, id)
  {
    forall i | 0 <= i < |n| ensures ([rn] + n)[1 + i] == n[i] { }
    forall i | 0 <= i < |v| ensures ([rv] + v)[1 + i] == v[i] { }
  }

  // ---------------------------------------------------------------- flattening

  /** The rows of a matrix concatenated in row order. */
  function Flatten<T>(m: seq<seq<T>>): (flat: seq<T>)
    decreases |m|
  {
    if m == [] then [] else m[0] + Flatten(m[1..])
  }

  lemma {:induction false} FlattenSnoc<T>(m: seq<seq<T>>, i: nat)
    requires i < |m|
    ensures Flatten(m[..i + 1]) == Flatten(m[..i]) + m[i]
    decreases i
  {
    if i == 0 {
      assert m[..1][1..] == [];
    } else {
      assert m[..i + 1][1..] == m[1..][..i];
      assert m[..i][1..] == m[1..][..i - 1];
      FlattenSnoc(m[1..], i - 1);
    }
  }

  lemma {:induction false} FlattenSameShape(n: Matrix, v: Matrix)
    requires WellFormed(n, v)
    ensures |Flatten(n)| == |Flatten(v)|
    decreases |n|
  {
    if n != [] {
      FlattenSameShape(n[1..], v[1..]);
    }
  }

  /** `FindInRow` is determined by its first match. */
  lemma FirstMatch(row: seq<Node>, id: string, j: nat)
    requires j < |row| && Names(row[j], id)
    requires forall k :: 0 <= k < j ==> !Names(row[k], id)
    ensures FindInRow(row, id) == Some(j)
  {
  }

  lemma NoMatch(row: seq<Node>, id: string)
    requires forall k :: 0 <= k < |row| ==> !Names(row[k], id)
    ensures FindInRow(row, id) == None
  {
  }

  lemma FindInRowAppend(a: seq<Node>, b: seq<Node>, id: string)
    ensures FindInRow(a + b, id) ==
            match FindInRow(a, id)
            case Some(j) => Some(j)
            case None => match FindInRow(b, id)
              case Some(k) => Some(|a| + k)
              case None => None
  {
    var fa, fb := FindInRow(a, id), FindInRow(b, id);
    if fa.Some? {
      assert (a + b)[fa.value] == a[fa.value];
      forall k | 0 <= k < fa.value ensures !Names((a + b)[k], id) {
        assert (a + b)[k] == a[k];
      }
      FirstMatch(a + b, id, fa.value);
    } else if fb.Some? {
      assert (a + b)[|a| + fb.value] == b[fb.value];
      forall k | 0 <= k < |a| + fb.value ensures !Names((a + b)[k], id) {
        if k < |a| { assert (a + b)[k] == a[k]; } else { assert (a + b)[k] == b[k - |a|]; }
      }
      FirstMatch(a + b, id, |a| + fb.value);
    } else {
      forall k | 0 <= k < |a + b| ensures !Names((a + b)[k], id) {
        if k < |a| { assert (a + b)[k] == a[k]; } else { assert (a + b)[k] == b[k - |a|]; }
      }
      NoMatch(a + b, id);
    }
  }

  /** A lookup in one flattened row, as a closure's captured environment is
      searched. */
  function LookupRow(rn: seq<Node>, rv: seq<Node>, id: string): (r: Result<Node>)
    requires |rn| == |rv|
  {
    match FindInRow(rn, id)
    case Some(j) => Ok(rv[j])
    case None => Err(Unbound(id))
  }

  /** Flattening a well-formed environment into one row, as `matrixToListNode`
      does for a closure, preserves every lookup. */
  lemma {:induction false} AssocFlatten(n: Matrix, v: Matrix, id: string)
    requires WellFormed(n, v)
    ensures |Flatten(n)| == |Flatten(v)|
    ensures LookupRow(Flatten(n), Flatten(v), id) == AssocSpec(n, v, id)
    decreases |n|
  {
    FlattenSameShape(n, v);
    if n != [] {
      AssocFlatten(n[1..], v[1..], id);
      FindInRowAppend(n[0], Flatten(n[1..]), id);
      match FindInRow(n[0], id)
      case Some(j) =>
        assert Flatten(v)[j] == v[0][j];
      case None =>
        match FindInRow(Flatten(n[1..]), id)
        case Some(k) =>
          assert Flatten(v)[|v[0]| + k] == Flatten(v[1..])[k];
        case None =>
    }
  }

  /** The environment a call runs its body in: the closure's captured row
      first, then the parameters. A captured binding shadows a parameter of the
      same name, and a captured binding is found exactly as it was where the
      closure was built. */
  lemma CallFrameLookup(n: Matrix, v: Matrix, params: seq<Node>, args: seq<Node>, id: string)
    requires WellFormed(n, v) && |params| == |args|
    ensures |Flatten(n)| == |Flatten(v)|
    ensures AssocSpec([Flatten(n), params], [Flatten(v), args], id) ==
            if AssocSpec(n, v, id).Ok? then AssocSpec(n, v, id) else LookupRow(params, args, id)
  {
    AssocFlatten(n, v, id);
    WellFormedLookup(n, v, id);
    var big := AssocSpec([Flatten(n), params], [Flatten(v), args], id);
    assert [Flatten(n), params][1..] == [params];
    assert [Flatten(v), args][1..] == [args];
    assert [params][1..] == [] && [args][1..] == [];
    assert AssocRows([params], [args], id) == LookupRow(params, args, id);
    assert big == match FindInRow(Flatten(n), id)
                  case Some(j) => Ok(Flatten(v)[j])
                  case None => LookupRow(params, args, id);
  }

  /** In a well-formed environment `assoc` either finds the name or reports it unbound. */
  lemma {:induction false} WellFormedLookup(n: Matrix, v: Matrix, id: string)
    requires WellFormed(n, v)
    ensures AssocSpec(n, v, id).Ok? || AssocSpec(n, v, id) == Err(Unbound(id))
    decreases |n|
  {
    if n != [] {
      WellFormedLookup(n[1..], v[1..], id);
    }
  }

  /** The flattened row holds only entries of the matrix. */
  lemma {:induction false} FlattenWithin(m: Matrix, universe: set<Node>)
    requires forall i, j :: 0 <= i < |m| && 0 <= j < |m[i]| ==> m[i][j] in universe
    ensures forall k :: 0 <= k < |Flatten(m)| ==> Flatten(m)[k] in universe
    decreases |m|
  {
    if m != [] {
      FlattenWithin(m[1..], universe);
      assert Flatten(m) == m[0] + Flatten(m[1..]);
    }
  }

  /** `Emulator::matrixToListNode`: a new list holding every entry of the
      matrix, row by row. */
  method MatrixToList(m: Matrix) returns (list: Node)
    ensures fresh(list)
    ensures list.kind == List && list.nodeType == "LIST" && list.statements == Flatten(m)
  {
    list := new Node(List, "LIST");
    var i := 0;
    while i < |m|
      invariant 0 <= i <= |m|
      invariant list.kind == List && list.nodeType == "LIST"
      invariant list.statements == Flatten(m[..i])
    {
      var j := 0;
      while j < |m[i]|
        invariant 0 <= j <= |m[i]|
        invariant list.nodeType == "LIST"
        invariant list.statements == Flatten(m[..i]) + m[i][..j]
      {
        list.AddStatement(m[i][j]);
        assert m[i][..j + 1] == m[i][..j] + [m[i][j]];
        j := j + 1;
      }
      assert m[i][..j] == m[i];
      FlattenSnoc(m, i);
      i := i + 1;
    }
    assert m[..i] == m;
  }
}
