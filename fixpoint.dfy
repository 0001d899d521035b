/** `Emulator::complete`, the back-patching step of letrec: for each initializer
    value `z[i]`, the node `v[0][i]` is overwritten in place with the contents of
    `z[i]` (`*v[0][i] = *z[i]`), after checking that the two have the same
    dynamic class. The copy is the `ASTNode` copy assignment, so it transfers the
    `node_type` tag and the child vector. Every list that holds a pointer to the
    overwritten node (in particular the environment rows captured by closures)
    sees the new contents. */
module Fixpoint {
  import opened Outcome
  import opened Syntax

  /** The nodes `complete` may read or write. */
  function Touched(row: seq<Node>, z: seq<Node>): (s: set<Node>)
  {
    (set x | x in row) + (set x | x in z)
  }

  /** A step that can be taken: the target slot exists and has the value's class. */
  predicate Fits(row: seq<Node>, z: seq<Node>, i: nat)
  {
    i < |row| && i < |z| && row[i].kind == z[i].kind
  }

  /** The index at which `complete` stops: the first value whose target slot is
      missing or of another class, or `|z|` when every step fits. */
  function StopIndex(row: seq<Node>, z: seq<Node>): (k: nat)
    ensures k <= |z| && k <= |row|
    ensures forall j :: 0 <= j < k ==> Fits(row, z, j)
    ensures k < |z| ==> !Fits(row, z, k)
  {
    StopFrom(row, z, 0)
  }

  function StopFrom(row: seq<Node>, z: seq<Node>, i: nat): (k: nat)
    requires i <= |z|
    requires forall j :: 0 <= j < i ==> Fits(row, z, j)
    ensures i <= k <= |z| && k <= |row|
    ensures forall j :: 0 <= j < k ==> Fits(row, z, j)
    ensures k < |z| ==> !Fits(row, z, k)
    decreases |z| - i
  {
    assert i > 0 ==> Fits(row, z, i - 1);
    if i == |z| || !Fits(row, z, i) then i else StopFrom(row, z, i + 1)
  }

  /** What `complete` reports: success, undefined behaviour for a slot past the
      end of `v[0]`, or the class mismatch error. */
  function CompleteOutcome(row: seq<Node>, z: seq<Node>): (r: Result<()>)
    ensures r.Ok? <==> forall j :: 0 <= j < |z| ==> Fits(row, z, j)
    ensures r.Err? ==> (r.error == UndefinedBehaviour <==> StopIndex(row, z) >= |row|)
  {
    var k := StopIndex(row, z);
    if k == |z| then Ok(())
    else if k >= |row| then Err(UndefinedBehaviour)
    else Err(LetrecKindMismatch)
  }

  /** The contents after the first `k` copies, applied one after another to
      the contents `st` (a later copy reads what an earlier one wrote). */
  ghost function Patched(st: Heap, row: seq<Node>, z: seq<Node>, k: nat): (m: Heap)
    requires k <= |row| && k <= |z|
    requires forall j :: 0 <= j < k ==> row[j] in st && z[j] in st
    ensures m.Keys == st.Keys
    decreases k
  {
    if k == 0 then st
    else
      var m := Patched(st, row, z, k - 1);
      m[row[k - 1] := m[z[k - 1]]]
  }

  /** The `ASTNode` copy assignment `*target = *source`: the tag and the
      child vector are copied, the dynamic class and its payload stay. */
  method Assign(target: Node, source: Node, ghost universe: set<Node>)
    requires Closed(universe) && target in universe && source in universe
    modifies target
    ensures ContentsOf(target) == old(ContentsOf(source))
    ensures Closed(universe)
  {
    target.nodeType, target.statements := source.nodeType, source.statements;
    forall y, k | y in universe && 0 <= k < |y.statements|
      ensures y.statements[k] in universe
    {
      if y != target {
        assert y.statements == old(y.statements);
      }
    }
  }

  /** `Emulator::complete`: the contents of the whole closed node set go from
      what they were to the first `StopIndex` copies applied in order. */
  method Complete(row: seq<Node>, z: seq<Node>, ghost universe: set<Node>) returns (r: Result<()>)
    requires Closed(universe)
    requires forall j :: 0 <= j < |row| ==> row[j] in universe
    requires forall j :: 0 <= j < |z| ==> z[j] in universe
    modifies row
    ensures Closed(universe)
    ensures r == CompleteOutcome(row, z)
    ensures Snapshot(universe) == Patched(old(Snapshot(universe)), row, z, StopIndex(row, z))
  {
    ghost var st := Snapshot(universe);
    var i := 0;
    while i < |z|
      invariant 0 <= i <= |z| && i <= |row|
      invariant forall j :: 0 <= j < i ==> Fits(row, z, j)
      invariant Closed(universe)
      invariant Snapshot(universe) == Patched(st, row, z, i)
    {
      if i >= |row| || row[i].kind != z[i].kind {
        StopsAt(row, z, i);
        return Err(if i >= |row| then UndefinedBehaviour else LetrecKindMismatch);
      }
      assert Fits(row, z, i);
      CopyStep(row, z, i, st, universe);
      i := i + 1;
    }
    StopsAt(row, z, i);
    r := Ok(());
  }

  /** Step `i` of `complete`: `*v[0][i] = *z[i]`, which advances the contents
      of the touched nodes by one copy. */
  method CopyStep(row: seq<Node>, z: seq<Node>, i: nat, ghost st: Heap, ghost universe: set<Node>)
    requires i < |row| && i < |z| && st.Keys == universe
    requires Closed(universe) && forall j :: 0 <= j <= i ==> row[j] in universe && z[j] in universe
    requires Snapshot(universe) == Patched(st, row, z, i)
    modifies row[i]
    ensures Closed(universe)
    ensures Snapshot(universe) == Patched(st, row, z, i + 1)
  {
    ghost var s := universe;
    ghost var m := Snapshot(s);
    assert row[i] in s && z[i] in s;
    assert m[z[i]] == ContentsOf(z[i]);
    Assign(row[i], z[i], universe);
    ghost var m' := Snapshot(s);
    forall y | y in s && y != row[i]
      ensures m'[y] == m[y]
    {
      assert ContentsOf(y) == old(ContentsOf(y));
    }
    MapUpdate(m, m', row[i], m[z[i]]);
  }

  /** Two maps on the same keys that differ at most at `key` are one update apart. */
  lemma MapUpdate<K, V>(m: map<K, V>, m': map<K, V>, key: K, v: V)
    requires m'.Keys == m.Keys && key in m && m'[key] == v
    requires forall y :: y in m && y != key ==> m'[y] == m[y]
    ensures m' == m[key := v]
  {
  }

  /** The loop of `complete` leaves at the stop index: every earlier step fit
      and this one does not (or there is none). */
  lemma StopsAt(row: seq<Node>, z: seq<Node>, i: nat)
    requires i <= |z| && forall j :: 0 <= j < i ==> Fits(row, z, j)
    requires i == |z| || !Fits(row, z, i)
    ensures StopIndex(row, z) == i
  {
  }

  /** When the patched slots are distinct and no value is itself one of them
      (the letrec row of fresh placeholders, filled with the closures the
      initializers built), every slot ends up with exactly its own value's
      contents. */
  lemma PatchFillsSlots(st: Heap, row: seq<Node>, z: seq<Node>, k: nat)
    requires k <= |row| && k <= |z|
    requires forall j :: 0 <= j < k ==> row[j] in st && z[j] in st
    requires forall i, j :: 0 <= i < j < k ==> row[i] != row[j]
    requires forall i, j :: 0 <= i < k && 0 <= j < k ==> z[i] != row[j]
    ensures forall j :: 0 <= j < k ==> Patched(st, row, z, k)[row[j]] == st[z[j]]
    ensures forall x :: x in st && (forall j :: 0 <= j < k ==> x != row[j]) ==> Patched(st, row, z, k)[x] == st[x]
  {
    forall j | 0 <= j < k
      ensures Patched(st, row, z, k)[row[j]] == st[z[j]]
    {
      SlotKeepsItsCopy(st, row, z, k, j);
      UntouchedKept(st, row, z, j, z[j]);
    }
    forall x | x in st && (forall j :: 0 <= j < k ==> x != row[j])
      ensures Patched(st, row, z, k)[x] == st[x]
    {
      UntouchedKept(st, row, z, k, x);
    }
  }

  /** A node that none of the first `k` copies writes keeps its contents. */
  lemma {:induction false} UntouchedKept(st: Heap, row: seq<Node>, z: seq<Node>, k: nat, x: Node)
    requires k <= |row| && k <= |z|
    requires forall j :: 0 <= j < k ==> row[j] in st && z[j] in st
    requires x in st && forall j :: 0 <= j < k ==> x != row[j]
    ensures Patched(st, row, z, k)[x] == st[x]
    decreases k
  {
    if k > 0 {
      UntouchedKept(st, row, z, k - 1, x);
    }
  }

  /** With distinct slots, slot `j` ends with what its value held just before
      the slot's own copy: later copies write other slots only. */
  lemma {:induction false} SlotKeepsItsCopy(st: Heap, row: seq<Node>, z: seq<Node>, k: nat, j: nat)
    requires k <= |row| && k <= |z|
    requires forall l :: 0 <= l < k ==> row[l] in st && z[l] in st
    requires forall l, m :: 0 <= l < m < k ==> row[l] != row[m]
    requires j < k
    ensures Patched(st, row, z, k)[row[j]] == Patched(st, row, z, j)[z[j]]
    decreases k
  {
    var m := Patched(st, row, z, k - 1);
    assert Patched(st, row, z, k) == m[row[k - 1] := m[z[k - 1]]];
    if j < k - 1 {
      SlotKeepsItsCopy(st, row, z, k - 1, j);
      assert row[j] != row[k - 1];
    }
  }

  /** The copies are taken in order: a value that is itself an earlier slot
      `row[i]` is copied with the contents that slot was given, not the ones it
      had before `complete`. So when an initializer evaluates to another
      placeholder of the same letrec, its slot receives that placeholder's
      patched contents if that placeholder comes first, and its original ones
      otherwise (as `PatchFillsSlots` describes). */
  lemma {:induction false} PatchReadsEarlierWrites(st: Heap, row: seq<Node>, z: seq<Node>,
                                                   k: nat, i: nat, j: nat)
    requires k <= |row| && k <= |z|
    requires forall l :: 0 <= l < k ==> row[l] in st && z[l] in st
    requires forall l, m :: 0 <= l < m < k ==> row[l] != row[m]
    requires i < j < k && z[j] == row[i]
    ensures Patched(st, row, z, k)[row[j]] == Patched(st, row, z, i)[z[i]]
  {
    SlotKeepsItsCopy(st, row, z, k, j);
    SlotKeepsItsCopy(st, row, z, j, i);
  }

  /** On a row of closure placeholders, `complete` succeeds exactly when every
      value is a closure. */
  lemma ClosureRowOutcome(row: seq<Node>, z: seq<Node>)
    requires |row| == |z|
    requires forall j :: 0 <= j < |row| ==> row[j].kind == FuncClosure
    ensures CompleteOutcome(row, z).Ok? <==> forall j :: 0 <= j < |z| ==> z[j].kind == FuncClosure
    ensures CompleteOutcome(row, z).Err? ==> CompleteOutcome(row, z).error == LetrecKindMismatch
  {
    if forall j :: 0 <= j < |z| ==> z[j].kind == FuncClosure {
      assert forall j :: 0 <= j < |z| ==> Fits(row, z, j);
    } else {
      var j :| 0 <= j < |z| && z[j].kind != FuncClosure;
      assert !Fits(row, z, j);
    }
  }

  /** A successful `complete` on a row of distinct slots that no value aliases
      leaves every slot with exactly the contents its value had, and every other
      touched node as it was: each placeholder now is its closure. */
  lemma TiesKnot(st: Heap, row: seq<Node>, z: seq<Node>)
    requires Touched(row, z) <= st.Keys && CompleteOutcome(row, z).Ok?
    requires forall i, j :: 0 <= i < j < |row| ==> row[i] != row[j]
    requires forall i, j :: 0 <= i < |z| && 0 <= j < |row| ==> z[i] != row[j]
    ensures StopIndex(row, z) == |z|
    ensures forall j :: 0 <= j < |z| ==> Patched(st, row, z, |z|)[row[j]] == st[z[j]]
    ensures forall x :: x in st && x !in row[..|z|] ==> Patched(st, row, z, |z|)[x] == st[x]
  {
    var k := StopIndex(row, z);
    PatchFillsSlots(st, row, z, k);
    forall x | x in st && x !in row[..k]
      ensures forall j :: 0 <= j < k ==> x != row[j]
    {
      forall j | 0 <= j < k ensures x != row[j] {
        assert row[j] == row[..k][j];
      }
    }
  }
}
