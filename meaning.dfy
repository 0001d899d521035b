/** What the rules of `Semantics` imply about every valid evaluation, nested
    ones included: the matrices only gain rows at the front, `cond` evaluates
    the branch its test selects and no other, and the bodies of `let`,
    `letrec` and calls see the bindings these forms make. */
module Meaning {
  import opened Outcome
  import opened Syntax
  import opened Primitives
  import opened Environment
  import opened Fixpoint
  import opened Semantics

  // ---------------------------------------------------------------- reading a valid trace

  /** A leaf evaluated with fuel left gives the leaf's value and changes nothing. */
  lemma {:induction false} LeafRun(t: Trace)
    requires Valid(t) && t.fuel > 0 && IsLeaf(t.node.kind)
    ensures t.node in t.pre && Quiet(t)
    ensures t.result == LeafValue(t.node, t.pre[t.node].statements, t.names, t.values)
  {
    assert Step(t);
  }

  /** A form evaluated with fuel left follows the rung of its class, reading
      its children `st` from the contents it started from. */
  lemma {:induction false} FormRun(t: Trace) returns (st: seq<Node>)
    requires Valid(t) && t.fuel > 0 && !IsLeaf(t.node.kind) && t.node.kind != Lambda
    ensures t.node in t.pre && st == t.pre[t.node].statements
    ensures st == [] ==> Quiet(t) && t.result == Err(IndexOutOfRange)
    ensures st != [] ==> FormStep(t, st)
  {
    st := t.pre[t.node].statements;
    assert Step(t);
  }

  /** A lambda evaluated with fuel left evaluates nothing and changes no
      existing node. With children it gives a closure that is new, made of
      five new lists that are pairwise distinct and share no node with what
      existed before, and whose frame is read from the lambda's children and
      the flattened matrices; without children it is out of range. */
  lemma {:induction false} LambdaRun(t: Trace)
    requires Valid(t) && t.fuel > 0 && t.node.kind == Lambda
    ensures t.node in t.pre && t.subs == [] && Extends(t.pre, t.post)
    ensures t.outNames == t.names && t.outValues == t.values
    ensures t.result.Ok? <==> t.pre[t.node].statements != []
    ensures t.result.Err? ==> t.result.error == IndexOutOfRange
    ensures t.result.Ok? ==>
              var st := t.pre[t.node].statements;
              ClosedHeap(t.post) && t.result.value in t.post && t.result.value.kind == FuncClosure &&
              NewClosure(t.pre, t.post, t.result.value) &&
              CallFrameIn(t.post, t.result.value, |st| - 1) ==
                Ok(Frame(st[..|st| - 1], st[|st| - 1], Flatten(t.names), Flatten(t.values)))
  {
    assert Step(t);
  }

  /** The evaluations a form records directly are valid. */
  lemma {:induction false} SubsAreValid(t: Trace)
    requires SubsValid(t)
    ensures AllValid(t.subs)
  {
  }

  // ---------------------------------------------------------------- the matrices only grow at the front

  /** An evaluation only ever inserts rows in front of the matrices it was
      given, in name/value pairs of equal size: `let` and `letrec` insert one
      row each and never remove it, and a call runs its body in matrices of
      its own. */
  lemma {:induction false} ValidPrepends(t: Trace)
    requires Valid(t)
    ensures Prepended(t.names, t.values, t.outNames, t.outValues)
    decreases t, 6
  {
    if t.fuel == 0 || IsLeaf(t.node.kind) || t.node.kind == Lambda {
      assert Step(t);
    } else {
      var st := FormRun(t);
      if st != [] {
        FormPrepends(t, st);
        return;
      }
    }
    PrependedRefl(t.names, t.values);
  }

  lemma {:induction false} FormPrepends(t: Trace, st: seq<Node>)
    requires t.fuel > 0 && st != [] && FormStep(t, st)
    ensures Prepended(t.names, t.values, t.outNames, t.outValues)
    decreases t, 5
  {
    var k := t.node.kind;
    if IsUnary(k) {
      assert UnaryStep(t, st);
      UnaryPrepends(t, st);
    } else if IsBinary(k) {
      assert BinaryStep(t, st);
      SecondPrepends(t, st);
    } else if k == Cond {
      assert CondStep(t, st);
      BranchPrepends(t, st);
    } else if k == Let {
      assert LetStep(t, st);
      LetPrepends(t, st);
    } else if k == Letrec {
      assert LetrecStep(t, st);
      LetrecPrepends(t, st);
    } else {
      assert CallStep(t, st);
      CallPrepends(t, st);
    }
  }

  lemma {:induction false} UnaryPrepends(t: Trace, st: seq<Node>)
    requires t.fuel > 0 && st != [] && IsUnary(t.node.kind) && UnaryStep(t, st)
    ensures Prepended(t.names, t.values, t.outNames, t.outValues)
    decreases t, 4
  {
    assert Valid(t.subs[0]);
    ValidPrepends(t.subs[0]);
  }

  /** Two evaluations one after the other: the first from the entry state, the
      second from where the first stopped. */
  lemma {:induction false} PairPrepends(t: Trace, a: Trace, b: Trace)
    requires a in t.subs && b in t.subs && Valid(a) && Valid(b)
    requires a.names == t.names && a.values == t.values
    requires b.names == a.outNames && b.values == a.outValues
    ensures Prepended(t.names, t.values, b.outNames, b.outValues)
    decreases t, 0
  {
    ValidPrepends(a);
    ValidPrepends(b);
    PrependedTrans(t.names, t.values, a.outNames, a.outValues, b.outNames, b.outValues);
  }

  lemma {:induction false} SecondPrepends(t: Trace, st: seq<Node>)
    requires t.fuel > 0 && st != [] && IsBinary(t.node.kind) && BinaryStep(t, st)
    ensures Prepended(t.names, t.values, t.outNames, t.outValues)
    decreases t, 4
  {
    var s := t.subs[0];
    assert Valid(s);
    if s.result.Err? || |st| < 2 {
      ValidPrepends(s);
    } else {
      assert t.subs[1..][0] == t.subs[1] && Valid(t.subs[1]);
      PairPrepends(t, s, t.subs[1]);
    }
  }

  lemma {:induction false} BranchPrepends(t: Trace, st: seq<Node>)
    requires t.fuel > 0 && st != [] && CondStep(t, st)
    ensures Prepended(t.names, t.values, t.outNames, t.outValues)
    decreases t, 4
  {
    var s := t.subs[0];
    assert Valid(s);
    if s.result.Err? || s.result.value.kind != BoolLit || Taken(s.result.value) >= |st| {
      ValidPrepends(s);
    } else {
      assert t.subs[1..][0] == t.subs[1] && Valid(t.subs[1]);
      PairPrepends(t, s, t.subs[1]);
    }
  }

  /** Evaluations run one after another, each from where the one before it
      stopped, insert rows in front of the matrices the first started from. */
  lemma {:induction false} ChainPrepends(t: Trace, ts: seq<Trace>, xs: seq<Node>, fuel: nat, h: Heap, n: Matrix, v: Matrix)
    requires (forall k :: 0 <= k < |ts| ==> ts[k] in t.subs) && AllValid(ts) && Chain(ts, xs, fuel, h, n, v)
    ensures Prepended(n, v, NamesAfter(ts, n), ValuesAfter(ts, v))
    decreases t, 0
  {
    if ts == [] {
      PrependedRefl(n, v);
      return;
    }
    var k := 0;
    while k < |ts|
      invariant k <= |ts|
      invariant 0 < k ==> Prepended(n, v, ts[k - 1].outNames, ts[k - 1].outValues)
    {
      assert Valid(ts[k]);
      ValidPrepends(ts[k]);
      if k > 0 {
        PrependedTrans(n, v, ts[k - 1].outNames, ts[k - 1].outValues, ts[k].outNames, ts[k].outValues);
      }
      k := k + 1;
    }
  }

  lemma {:induction false} LetPrepends(t: Trace, st: seq<Node>)
    requires t.fuel > 0 && st != [] && LetStep(t, st)
    ensures Prepended(t.names, t.values, t.outNames, t.outValues)
    decreases t, 4
  {
    var n, v := t.names, t.values;
    var bs := ChildVectorsIn(t.pre, st[1..]);
    var ts := t.subs;
    assert AllValid(ts);
    if |ts| <= |bs| {
      ChainPrepends(t, ts, Initializers(bs[..|ts|]), t.fuel - 1, t.pre, n, v);
    } else {
      var inits := ts[..|bs|];
      var n1, v1 := NamesAfter(inits, n), ValuesAfter(inits, v);
      ChainPrepends(t, inits, Initializers(bs), t.fuel - 1, t.pre, n, v);
      PrependedCons(n1, v1, Heads(bs), Values(inits));
      PrependedTrans(n, v, n1, v1, [Heads(bs)] + n1, [Values(inits)] + v1);
      var body := ts[|bs|];
      assert Valid(body);
      ValidPrepends(body);
      PrependedTrans(n, v, [Heads(bs)] + n1, [Values(inits)] + v1, body.outNames, body.outValues);
    }
  }

  lemma {:induction false} LetrecPrepends(t: Trace, st: seq<Node>)
    requires t.fuel > 0 && st != [] && LetrecStep(t, st)
    ensures Prepended(t.names, t.values, t.outNames, t.outValues)
    decreases t, 4
  {
    assert AllValid(t.subs);
    LetrecRanPrepends(t, ChildVectorsIn(t.pre, st[1..]), st[0]);
  }

  lemma {:induction false} LetrecRanPrepends(t: Trace, bs: seq<seq<Node>>, body: Node)
    requires t.fuel > 0 && AllValid(t.subs)
    requires LetrecRan(bs, body, t.fuel, t.pre, t.names, t.values, t.holes, t.subs, t.result, t.post,
                       t.outNames, t.outValues)
    ensures Prepended(t.names, t.values, t.outNames, t.outValues)
    decreases t, 3
  {
    var n, v := t.names, t.values;
    if |t.holes| < |bs| {
      PrependedRefl(n, v);
    } else {
      PrependedCons(n, v, Heads(bs), t.holes);
      LetrecInitsPrepends(t, bs, body, [Heads(bs)] + n, [t.holes] + v);
      PrependedTrans(n, v, [Heads(bs)] + n, [t.holes] + v, t.outNames, t.outValues);
    }
  }

  /** The initializers, `complete` and the body of a `letrec`, from the
      matrices `(n0, v0)` with the placeholder row in front. */
  lemma {:induction false} LetrecInitsPrepends(t: Trace, bs: seq<seq<Node>>, body: Node, n0: Matrix, v0: Matrix)
    requires t.fuel > 0 && AllValid(t.subs)
    requires LetrecInitsRan(bs, body, t.fuel, WithHoles(t.pre, t.holes), n0, v0,
                            t.subs, t.result, t.post, t.outNames, t.outValues)
    ensures Prepended(n0, v0, t.outNames, t.outValues)
    decreases t, 2
  {
    var ts := t.subs;
    if |ts| < |bs| || !AllOk(ts[..|bs|]) {
      assert t.outNames == NamesAfter(ts, n0) && t.outValues == ValuesAfter(ts, v0);
      ChainPrepends(t, ts, Initializers(bs[..|ts|]), t.fuel - 1, WithHoles(t.pre, t.holes), n0, v0);
    } else {
      LetrecDonePrepends(t, bs, body, n0, v0);
    }
  }

  lemma {:induction false} LetrecDonePrepends(t: Trace, bs: seq<seq<Node>>, body: Node, n0: Matrix, v0: Matrix)
    requires t.fuel > 0 && AllValid(t.subs) && |t.subs| >= |bs|
    requires InitsDone(bs, t.fuel - 1, WithHoles(t.pre, t.holes), n0, v0, t.subs[..|bs|])
    requires Completed(Values(t.subs[..|bs|]), body, t.fuel, HeapAfter(t.subs[..|bs|], WithHoles(t.pre, t.holes)),
                       NamesAfter(t.subs[..|bs|], n0), ValuesAfter(t.subs[..|bs|], v0), t.subs[|bs|..],
                       t.result, t.post, t.outNames, t.outValues)
    ensures Prepended(n0, v0, t.outNames, t.outValues)
    decreases t, 1
  {
    var ts := t.subs;
    var inits := ts[..|bs|];
    var n1, v1 := NamesAfter(inits, n0), ValuesAfter(inits, v0);
    ChainPrepends(t, inits, Initializers(bs), t.fuel - 1, WithHoles(t.pre, t.holes), n0, v0);
    CompletedPrepends(t, Values(inits), body, HeapAfter(inits, WithHoles(t.pre, t.holes)), n1, v1, ts[|bs|..]);
    PrependedTrans(n0, v0, n1, v1, t.outNames, t.outValues);
  }

  /** `complete` leaves the matrices alone, and the body then runs in them. */
  lemma {:induction false} CompletedPrepends(t: Trace, z: seq<Node>, body: Node, hI: Heap, nI: Matrix, vI: Matrix,
                                             rest: seq<Trace>)
    requires t.fuel > 0 && AllValid(rest) && (forall k :: 0 <= k < |rest| ==> rest[k] in t.subs)
    requires Completed(z, body, t.fuel, hI, nI, vI, rest, t.result, t.post, t.outNames, t.outValues)
    ensures Prepended(nI, vI, t.outNames, t.outValues)
    decreases t, 0
  {
    if rest == [] {
      PrependedRefl(nI, vI);
    } else {
      assert Valid(rest[0]);
      ValidPrepends(rest[0]);
    }
  }

  lemma {:induction false} CallPrepends(t: Trace, st: seq<Node>)
    requires t.fuel > 0 && st != [] && CallStep(t, st)
    ensures Prepended(t.names, t.values, t.outNames, t.outValues)
    decreases t, 4
  {
    var n, v := t.names, t.values;
    var m := |st| - 1;
    var ts := t.subs;
    assert AllValid(ts);
    if |ts| <= m {
      ChainPrepends(t, ts, st[1..|ts| + 1], t.fuel - 1, t.pre, n, v);
    } else {
      var args := ts[..m];
      var n1, v1 := NamesAfter(args, n), ValuesAfter(args, v);
      ChainPrepends(t, args, st[1..], t.fuel - 1, t.pre, n, v);
      var callee := ts[m];
      assert Valid(callee);
      ValidPrepends(callee);
      PrependedTrans(n, v, n1, v1, callee.outNames, callee.outValues);
    }
  }

  // ---------------------------------------------------------------- cond is lazy

  /** `cond` evaluates its test, child 0, from the state it was entered in,
      and then at most one more node: the branch a boolean test selects,
      evaluated from where the test stopped, whose result and exit state are
      the form's. Any other outcome of the test ends the form there. This
      holds at every depth, whatever the branches are. */
  lemma {:induction false} CondEvaluatesOneBranch(t: Trace)
    requires Valid(t) && t.fuel > 0 && t.node.kind == Cond
    ensures t.node in t.pre
    ensures t.pre[t.node].statements == [] ==> t.subs == [] && t.result == Err(IndexOutOfRange)
    ensures var st := t.pre[t.node].statements;
            st != [] ==>
              1 <= |t.subs| <= 2 && AllValid(t.subs) &&
              Runs(t.subs[0], st[0], t.fuel - 1, t.pre, t.names, t.values) &&
              var test := t.subs[0].result;
              (|t.subs| == 2 <==> test.Ok? && test.value.kind == BoolLit && Taken(test.value) < |st|) &&
              (|t.subs| == 2 ==>
                 Runs(t.subs[1], st[Taken(test.value)], t.fuel - 1, t.subs[0].post, t.subs[0].outNames,
                      t.subs[0].outValues) &&
                 Ends(t.subs[1], t.result, t.post, t.outNames, t.outValues)) &&
              (|t.subs| == 1 ==>
                 t.post == t.subs[0].post && t.outNames == t.subs[0].outNames && t.outValues == t.subs[0].outValues &&
                 t.result == if test.Err? then test
                             else if test.value.kind != BoolLit then Err(CondError)
                             else Err(IndexOutOfRange))
  {
    var st := FormRun(t);
    if st != [] {
      assert CondStep(t, st);
      SubsAreValid(t);
    }
  }

  /** A `cond` whose test is a boolean literal: the branch the literal
      selects is evaluated from the state the form was entered in, and gives
      the form's result and exit state, whatever the other branch is; when
      that branch is missing the form is out of range and changes nothing. */
  lemma {:induction false} CondLiteralTest(t: Trace)
    requires Valid(t) && t.fuel >= 2 && t.node.kind == Cond
    requires t.node in t.pre && t.pre[t.node].statements != [] && t.pre[t.node].statements[0].kind == BoolLit
    ensures var st := t.pre[t.node].statements;
            var i := Taken(st[0]);
            (i < |st| ==>
               |t.subs| == 2 && Runs(t.subs[1], st[i], t.fuel - 1, t.pre, t.names, t.values) &&
               Ends(t.subs[1], t.result, t.post, t.outNames, t.outValues)) &&
            (i >= |st| ==>
               |t.subs| == 1 && t.result == Err(IndexOutOfRange) &&
               t.post == t.pre && t.outNames == t.names && t.outValues == t.values)
  {
    CondEvaluatesOneBranch(t);
    assert Valid(t.subs[0]);
    LeafRun(t.subs[0]);
  }

  // ---------------------------------------------------------------- binary operators

  /** A binary form with two children evaluates child 0 from the state it was
      entered in, then child 1 from where child 0 stopped, stopping at the
      first error; with both values the operator's rule is applied to them
      and to the contents child 1 left. */
  lemma {:induction false} BinaryOperands(t: Trace)
    requires Valid(t) && t.fuel > 0 && IsBinary(t.node.kind)
    requires t.node in t.pre && |t.pre[t.node].statements| >= 2
    ensures var st := t.pre[t.node].statements;
            |t.subs| >= 1 && Valid(t.subs[0]) && Runs(t.subs[0], st[0], t.fuel - 1, t.pre, t.names, t.values) &&
            var a := t.subs[0].result;
            (a.Err? ==> |t.subs| == 1 && Ends(t.subs[0], t.result, t.post, t.outNames, t.outValues)) &&
            (a.Ok? ==>
               |t.subs| == 2 && Valid(t.subs[1]) &&
               Runs(t.subs[1], st[1], t.fuel - 1, t.subs[0].post, t.subs[0].outNames, t.subs[0].outValues) &&
               t.outNames == t.subs[1].outNames && t.outValues == t.subs[1].outValues &&
               var b := t.subs[1].result;
               (b.Err? ==> t.result == b && t.post == t.subs[1].post) &&
               (b.Ok? ==> BinaryApplied(t.node.kind, a.value, b.value, t.result, t.subs[1].post, t.post)))
  {
    var st := FormRun(t);
    BinaryRung(t, st);
    BinaryStepReads(t, st);
  }

  /** The rung a binary form with children follows. */
  lemma {:induction false} BinaryRung(t: Trace, st: seq<Node>)
    requires t.fuel > 0 && st != [] && IsBinary(t.node.kind) && FormStep(t, st)
    ensures BinaryStep(t, st)
  {
  }

  lemma {:induction false} BinaryStepReads(t: Trace, st: seq<Node>)
    requires t.fuel > 0 && IsBinary(t.node.kind) && |st| >= 2 && BinaryStep(t, st)
    ensures
            |t.subs| >= 1 && Valid(t.subs[0]) && Runs(t.subs[0], st[0], t.fuel - 1, t.pre, t.names, t.values) &&
            var a := t.subs[0].result;
            (a.Err? ==> |t.subs| == 1 && Ends(t.subs[0], t.result, t.post, t.outNames, t.outValues)) &&
            (a.Ok? ==>
               |t.subs| == 2 && Valid(t.subs[1]) &&
               Runs(t.subs[1], st[1], t.fuel - 1, t.subs[0].post, t.subs[0].outNames, t.subs[0].outValues) &&
               t.outNames == t.subs[1].outNames && t.outValues == t.subs[1].outValues &&
               var b := t.subs[1].result;
               (b.Err? ==> t.result == b && t.post == t.subs[1].post) &&
               (b.Ok? ==> BinaryApplied(t.node.kind, a.value, b.value, t.result, t.subs[1].post, t.post)))
  {
    SubsAreValid(t);
    SecondRanReads(t.node.kind, t.subs[0], st, t.fuel, t.subs[1..], t.result, t.post, t.outNames, t.outValues);
  }

  lemma {:induction false} SecondRanReads(op: Kind, s: Trace, st: seq<Node>, fuel: nat, rest: seq<Trace>,
                                          r: Result<Node>, h': Heap, n': Matrix, v': Matrix)
    requires IsBinary(op) && fuel > 0 && |st| >= 2
    requires SecondRan(op, s, st, fuel, rest, r, h', n', v')
    ensures s.result.Err? ==> rest == [] && r == s.result && h' == s.post && n' == s.outNames && v' == s.outValues
    ensures s.result.Ok? ==>
              |rest| == 1 && Runs(rest[0], st[1], fuel - 1, s.post, s.outNames, s.outValues) &&
              n' == rest[0].outNames && v' == rest[0].outValues &&
              (rest[0].result.Err? ==> r == rest[0].result && h' == rest[0].post) &&
              (rest[0].result.Ok? ==> BinaryApplied(op, s.result.value, rest[0].result.value, r, rest[0].post, h'))
  {
  }

  /** `add` of two int literals: a new int node holding the sum, added to the
      contents, when the sum fits in `int`, and undefined behaviour otherwise;
      the matrices are left alone. */
  lemma {:induction false} AddLiterals(t: Trace)
    requires Valid(t) && t.fuel >= 2 && t.node.kind == Add && t.node in t.pre
    requires var st := t.pre[t.node].statements; |st| == 2 && st[0].kind == IntLit && st[1].kind == IntLit
    ensures var st := t.pre[t.node].statements;
            var sum := st[0].intValue as int + st[1].intValue as int;
            t.outNames == t.names && t.outValues == t.values &&
            (InI32(sum) ==>
               t.result.Ok? && t.result.value.kind == IntLit && t.result.value.intValue as int == sum &&
               t.result.value !in t.pre && t.post == t.pre[t.result.value := Contents("LiteralInt", [])]) &&
            (!InI32(sum) ==> t.result == Err(UndefinedBehaviour) && t.post == t.pre)
  {
    BinaryOperands(t);
    LeafRun(t.subs[0]);
    LeafRun(t.subs[1]);
  }

  // ---------------------------------------------------------------- let

  /** A `let` whose initializers all succeeded (it recorded one evaluation
      per child): child 1 of each binding was evaluated in order, from the
      state the form was entered in on, and then the body, child 0, in the
      matrices they left with the row of names and values in front; the
      body's result and exit state are the form's. */
  lemma {:induction false} LetBody(t: Trace)
    requires Valid(t) && t.fuel > 0 && t.node.kind == Let
    requires t.node in t.pre && |t.subs| == |t.pre[t.node].statements| > 0
    ensures var st := t.pre[t.node].statements;
            (forall k :: 0 <= k < |st| ==> st[k] in t.pre) &&
            var bs := ChildVectorsIn(t.pre, st[1..]);
            var inits := t.subs[..|bs|];
            AllPairs(bs) && AllValid(t.subs) && AllOk(inits) &&
            Chain(inits, Initializers(bs), t.fuel - 1, t.pre, t.names, t.values) &&
            Runs(t.subs[|bs|], st[0], t.fuel - 1, HeapAfter(inits, t.pre),
                 [Heads(bs)] + NamesAfter(inits, t.names), [Values(inits)] + ValuesAfter(inits, t.values)) &&
            Ends(t.subs[|bs|], t.result, t.post, t.outNames, t.outValues)
  {
    var st := FormRun(t);
    assert LetStep(t, st);
  }

  /** In the body of a `let` whose initializers all succeeded, a bound name
      denotes the value of the first binding of that name; any other name is
      looked up in the matrices the initializers left. */
  lemma {:induction false} LetBodyLookup(t: Trace)
    requires Valid(t) && t.fuel >= 2 && t.node.kind == Let && |t.names| == |t.values|
    requires t.node in t.pre && |t.subs| == |t.pre[t.node].statements| > 0
    requires t.pre[t.node].statements[0].kind == Ident
    ensures var st := t.pre[t.node].statements;
            (forall k :: 0 <= k < |st| ==> st[k] in t.pre) &&
            var bs := ChildVectorsIn(t.pre, st[1..]);
            var inits := t.subs[..|bs|];
            AllPairs(bs) && AllOk(inits) &&
            t.result == match FindInRow(Heads(bs), st[0].name)
                        case Some(j) => Ok(inits[j].result.value)
                        case None => AssocSpec(NamesAfter(inits, t.names), ValuesAfter(inits, t.values), st[0].name)
  {
    LetBody(t);
    var st := t.pre[t.node].statements;
    var bs := ChildVectorsIn(t.pre, st[1..]);
    var inits := t.subs[..|bs|];
    var body := t.subs[|bs|];
    assert Valid(body);
    LeafRun(body);
    ChainPrepends(t, inits, Initializers(bs), t.fuel - 1, t.pre, t.names, t.values);
    AssocShadows(Heads(bs), Values(inits), NamesAfter(inits, t.names), ValuesAfter(inits, t.values), st[0].name);
  }
  /** A `let` with one binding of a name to an int literal always gets past
      its initializer: the body, child 0, is evaluated in the contents the
      form started from, with the row `[name]`, `[literal]` in front of the
      matrices; its result and exit state are the form's. */
  lemma {:induction false} LetLiteralBinding(t: Trace)
    requires Valid(t) && t.fuel >= 2 && t.node.kind == Let && t.node in t.pre
    requires var st := t.pre[t.node].statements;
             |st| == 2 && st[1] in t.pre && |t.pre[st[1]].statements| == 2 &&
             t.pre[st[1]].statements[1].kind == IntLit
    ensures var st := t.pre[t.node].statements;
            var b := t.pre[st[1]].statements;
            |t.subs| == 2 && Valid(t.subs[1]) &&
            Runs(t.subs[1], st[0], t.fuel - 1, t.pre, [[b[0]]] + t.names, [[b[1]]] + t.values) &&
            Ends(t.subs[1], t.result, t.post, t.outNames, t.outValues)
  {
    var st := FormRun(t);
    assert LetStep(t, st);
    SubsAreValid(t);
    var bs := ChildVectorsIn(t.pre, st[1..]);
    assert bs == [t.pre[st[1]].statements];
    if |t.subs| <= 1 {
      assert InitsStopped(bs, t.fuel - 1, t.pre, t.names, t.values, t.subs, t.result.error);
      if t.subs != [] {
        assert Valid(t.subs[0]);
        LeafRun(t.subs[0]);
      }
      assert false;
    }
    var inits := t.subs[..1];
    assert Valid(inits[0]);
    LeafRun(inits[0]);
    assert Values(inits) == [bs[0][1]];
    assert Heads(bs) == [bs[0][0]];
  }

  /** `(let ((x a)) (add x c))` with int literals `a` and `c`: the sum when it
      fits in `int`, undefined behaviour otherwise; the binding row stays in
      front of the matrices. */
  lemma {:induction false} LetAddExample(t: Trace)
    requires Valid(t) && t.fuel >= 3 && t.node.kind == Let && t.node in t.pre && |t.names| == |t.values|
    requires var st := t.pre[t.node].statements;
             |st| == 2 && st[0] in t.pre && st[1] in t.pre &&
             var b := t.pre[st[1]].statements;
             var e := t.pre[st[0]].statements;
             |b| == 2 && b[0].kind == Ident && b[1].kind == IntLit &&
             st[0].kind == Add && |e| == 2 && e[0].kind == Ident && e[0].name == b[0].name && e[1].kind == IntLit
    ensures var st := t.pre[t.node].statements;
            var b := t.pre[st[1]].statements;
            var e := t.pre[st[0]].statements;
            var sum := b[1].intValue as int + e[1].intValue as int;
            t.outNames == [[b[0]]] + t.names && t.outValues == [[b[1]]] + t.values &&
            (InI32(sum) ==> t.result.Ok? && t.result.value.kind == IntLit && t.result.value.intValue as int == sum) &&
            (!InI32(sum) ==> t.result == Err(UndefinedBehaviour))
  {
    LetLiteralBinding(t);
    var st := t.pre[t.node].statements;
    var b := t.pre[st[1]].statements;
    var u := t.subs[1];
    BinaryOperands(u);
    LeafRun(u.subs[0]);
    AssocShadows([b[0]], [b[1]], t.names, t.values, b[0].name);
    assert FindInRow([b[0]], b[0].name) == Some(0);
    LeafRun(u.subs[1]);
  }
  // ---------------------------------------------------------------- letrec

  /** Reading the rule of a `letrec` off a valid trace. */
  lemma {:induction false} LetrecRun(t: Trace)
    requires Valid(t) && t.fuel > 0 && t.node.kind == Letrec && t.node in t.pre && t.pre[t.node].statements != []
    ensures var st := t.pre[t.node].statements;
            (forall k :: 0 <= k < |st| ==> st[k] in t.pre) && AllValid(t.subs) &&
            LetrecRan(ChildVectorsIn(t.pre, st[1..]), st[0], t.fuel, t.pre, t.names, t.values, t.holes,
                      t.subs, t.result, t.post, t.outNames, t.outValues)
  {
    var st := FormRun(t);
    assert LetrecStep(t, st);
    SubsAreValid(t);
  }

  /** A `letrec` reaches its body exactly when it recorded one evaluation more
      than it has bindings; then there is a placeholder per binding, every
      initializer succeeded, and `complete` succeeded. */
  lemma {:induction false} LetrecReachedBody(t: Trace)
    requires Valid(t) && t.fuel > 0 && t.node.kind == Letrec && t.node in t.pre && t.pre[t.node].statements != []
    ensures var st := t.pre[t.node].statements;
            (forall k :: 0 <= k < |st| ==> st[k] in t.pre) &&
            var bs := ChildVectorsIn(t.pre, st[1..]);
            Placeholders(bs, t.holes, t.pre) && |t.subs| <= |bs| + 1 &&
            (|t.subs| <= |bs| ==> t.result.Err?) &&
            (|t.subs| == |bs| + 1 ==>
               |t.holes| == |bs| && AllPairs(bs) && AllValid(t.subs) &&
               var inits := t.subs[..|bs|];
               var h0 := WithHoles(t.pre, t.holes);
               InitsDone(bs, t.fuel - 1, h0, [Heads(bs)] + t.names, [t.holes] + t.values, inits) &&
               Completed(Values(inits), st[0], t.fuel, HeapAfter(inits, h0),
                         NamesAfter(inits, [Heads(bs)] + t.names), ValuesAfter(inits, [t.holes] + t.values),
                         t.subs[|bs|..], t.result, t.post, t.outNames, t.outValues) &&
               CompleteOutcome(ValuesAfter(inits, [t.holes] + t.values)[0], Values(inits)).Ok?)
  {
    LetrecRun(t);
  }

  /** In the body of a `letrec` that reached it and whose initializers
      prepended no rows of their own (it left exactly one row in front of its
      matrices), a bound name denotes the placeholder of the first binding of
      that name, which `complete` has overwritten; any other name is looked up
      in the matrices the form was entered with. */
  lemma {:induction false} LetrecBodyLookup(t: Trace)
    requires Valid(t) && t.fuel >= 2 && t.node.kind == Letrec && t.node in t.pre && |t.names| == |t.values|
    requires t.pre[t.node].statements != [] && t.pre[t.node].statements[0].kind == Ident
    ensures var st := t.pre[t.node].statements;
            (forall k :: 0 <= k < |st| ==> st[k] in t.pre) &&
            var bs := ChildVectorsIn(t.pre, st[1..]);
            (|t.subs| == |bs| + 1 && |t.outNames| == |t.names| + 1 ==>
               AllPairs(bs) && |t.holes| == |bs| &&
               t.result == match FindInRow(Heads(bs), st[0].name)
                           case Some(j) => Ok(t.holes[j])
                           case None => AssocSpec(t.names, t.values, st[0].name))
  {
    LetrecReachedBody(t);
    var st := t.pre[t.node].statements;
    var bs := ChildVectorsIn(t.pre, st[1..]);
    if |t.subs| == |bs| + 1 && |t.outNames| == |t.names| + 1 {
      var n0, v0 := [Heads(bs)] + t.names, [t.holes] + t.values;
      LetrecDoneLookup(t, bs, st[0], WithHoles(t.pre, t.holes), n0, v0);
      AssocShadows(Heads(bs), t.holes, t.names, t.values, st[0].name);
    }
  }

  /** The body lookup once the initializers and `complete` succeeded: the
      initializers prepended nothing, so the name is looked up in the
      matrices they started from. */
  lemma {:induction false} LetrecDoneLookup(t: Trace, bs: seq<seq<Node>>, body: Node, h0: Heap, n0: Matrix, v0: Matrix)
    requires t.fuel >= 2 && AllValid(t.subs) && |t.subs| == |bs| + 1 && body.kind == Ident && |t.outNames| == |n0|
    requires InitsDone(bs, t.fuel - 1, h0, n0, v0, t.subs[..|bs|])
    requires Completed(Values(t.subs[..|bs|]), body, t.fuel, HeapAfter(t.subs[..|bs|], h0),
                       NamesAfter(t.subs[..|bs|], n0), ValuesAfter(t.subs[..|bs|], v0),
                       t.subs[|bs|..], t.result, t.post, t.outNames, t.outValues)
    ensures t.result == AssocSpec(n0, v0, body.name)
  {
    var inits := t.subs[..|bs|];
    var b := t.subs[|bs|];
    assert t.subs[|bs|..] == [b];
    assert Valid(b);
    LeafRun(b);
    assert forall k :: 0 <= k < |inits| ==> inits[k] in t.subs;
    ChainPrepends(t, inits, Initializers(bs), t.fuel - 1, h0, n0, v0);
    PrependedNothing(n0, v0, NamesAfter(inits, n0), ValuesAfter(inits, v0));
  }

  /** `letrec` ties the knot. Once its initializers have all succeeded
      without prepending rows of their own, and none of them gave one of the
      placeholders: `complete` succeeds, and the body is evaluated, exactly
      when every initializer gave a closure, and it fails with
      `LetrecKindMismatch` otherwise; the body then starts from contents in
      which each placeholder holds its closure's contents and every other
      node is as the initializers left it. */
  lemma {:induction false} LetrecFillsPlaceholders(t: Trace)
    requires Valid(t) && t.fuel > 0 && t.node.kind == Letrec && t.node in t.pre && t.pre[t.node].statements != []
    ensures var st := t.pre[t.node].statements;
            (forall k :: 0 <= k < |st| ==> st[k] in t.pre) &&
            var bs := ChildVectorsIn(t.pre, st[1..]);
            (|t.holes| == |bs| && |t.subs| >= |bs| && AllOk(t.subs[..|bs|]) ==>
               var inits := t.subs[..|bs|];
               var vals := Values(inits);
               var hI := HeapAfter(inits, WithHoles(t.pre, t.holes));
               (|ValuesAfter(inits, [t.holes] + t.values)| == |t.values| + 1 &&
                (forall k, j :: 0 <= k < |vals| && 0 <= j < |t.holes| ==> vals[k] != t.holes[j]) ==>
                  (|t.subs| == |bs| + 1 <==> forall k :: 0 <= k < |vals| ==> vals[k].kind == FuncClosure) &&
                  (|t.subs| == |bs| ==> t.result == Err(LetrecKindMismatch)) &&
                  (|t.subs| == |bs| + 1 ==>
                     (forall k :: 0 <= k < |t.holes| ==>
                        vals[k] in hI && t.holes[k] in t.subs[|bs|].pre && t.subs[|bs|].pre[t.holes[k]] == hI[vals[k]]) &&
                     (forall x :: x in hI && x !in t.holes ==> x in t.subs[|bs|].pre && t.subs[|bs|].pre[x] == hI[x]))))
  {
    LetrecRun(t);
    var st := t.pre[t.node].statements;
    var bs := ChildVectorsIn(t.pre, st[1..]);
    if |t.holes| == |bs| && |t.subs| >= |bs| && AllOk(t.subs[..|bs|]) {
      LetrecKnot(t, bs, st[0], WithHoles(t.pre, t.holes), [Heads(bs)] + t.names, [t.holes] + t.values);
    }
  }

  /** `complete` after initializers that all succeeded and prepended
      nothing, on the placeholder row. */
  lemma {:induction false} LetrecKnot(t: Trace, bs: seq<seq<Node>>, body: Node, h0: Heap, n0: Matrix, v0: Matrix)
    requires t.fuel > 0 && AllValid(t.subs) && |t.holes| == |bs| && |t.subs| >= |bs| && v0 != [] && v0[0] == t.holes
    requires (forall k :: 0 <= k < |t.holes| ==> t.holes[k].kind == FuncClosure)
    requires (forall k, j :: 0 <= k < j < |t.holes| ==> t.holes[k] != t.holes[j])
    requires InitsDone(bs, t.fuel - 1, h0, n0, v0, t.subs[..|bs|])
    requires Completed(Values(t.subs[..|bs|]), body, t.fuel, HeapAfter(t.subs[..|bs|], h0),
                       NamesAfter(t.subs[..|bs|], n0), ValuesAfter(t.subs[..|bs|], v0),
                       t.subs[|bs|..], t.result, t.post, t.outNames, t.outValues)
    ensures var inits := t.subs[..|bs|];
            var vals := Values(inits);
            var hI := HeapAfter(inits, h0);
            (|ValuesAfter(inits, v0)| == |v0| &&
             (forall k, j :: 0 <= k < |vals| && 0 <= j < |t.holes| ==> vals[k] != t.holes[j]) ==>
               (|t.subs| == |bs| + 1 <==> forall k :: 0 <= k < |vals| ==> vals[k].kind == FuncClosure) &&
               (|t.subs| == |bs| ==> t.result == Err(LetrecKindMismatch)) &&
               (|t.subs| == |bs| + 1 ==>
                  (forall k :: 0 <= k < |t.holes| ==>
                     vals[k] in hI && t.holes[k] in t.subs[|bs|].pre && t.subs[|bs|].pre[t.holes[k]] == hI[vals[k]]) &&
                  (forall x :: x in hI && x !in t.holes ==> x in t.subs[|bs|].pre && t.subs[|bs|].pre[x] == hI[x])))
  {
    var inits := t.subs[..|bs|];
    var vals := Values(inits);
    var hI := HeapAfter(inits, h0);
    if |ValuesAfter(inits, v0)| == |v0| &&
       (forall k, j :: 0 <= k < |vals| && 0 <= j < |t.holes| ==> vals[k] != t.holes[j]) {
      assert forall k :: 0 <= k < |inits| ==> inits[k] in t.subs;
      ChainPrepends(t, inits, Initializers(bs), t.fuel - 1, h0, n0, v0);
      PrependedNothing(n0, v0, NamesAfter(inits, n0), ValuesAfter(inits, v0));
      CompletedKnot(t.holes, vals, body, t.fuel, hI, NamesAfter(inits, n0), ValuesAfter(inits, v0),
                    t.subs[|bs|..], t.result, t.post, t.outNames, t.outValues);
    }
  }

  /** `complete` on a row of distinct closure placeholders that no value
      aliases: it succeeds exactly when every value is a closure, and then
      the body starts from contents in which each placeholder holds its
      closure's contents and every other node is unchanged. */
  lemma {:induction false} CompletedKnot(holes: seq<Node>, z: seq<Node>, body: Node, fuel: nat, hI: Heap,
                                         nI: Matrix, vI: Matrix, rest: seq<Trace>, r: Result<Node>, h': Heap,
                                         n': Matrix, v': Matrix)
    requires fuel > 0 && vI != [] && vI[0] == holes && |holes| == |z|
    requires Completed(z, body, fuel, hI, nI, vI, rest, r, h', n', v')
    requires (forall k :: 0 <= k < |holes| ==> holes[k].kind == FuncClosure)
    requires (forall k, j :: 0 <= k < j < |holes| ==> holes[k] != holes[j])
    requires (forall k, j :: 0 <= k < |z| && 0 <= j < |holes| ==> z[k] != holes[j])
    ensures |rest| <= 1
    ensures |rest| == 1 <==> forall k :: 0 <= k < |z| ==> z[k].kind == FuncClosure
    ensures rest == [] ==> r == Err(LetrecKindMismatch)
    ensures |rest| == 1 ==>
              (forall k :: 0 <= k < |holes| ==>
                 z[k] in hI && holes[k] in rest[0].pre && rest[0].pre[holes[k]] == hI[z[k]]) &&
              (forall x :: x in hI && x !in holes ==> x in rest[0].pre && rest[0].pre[x] == hI[x])
  {
    ClosureRowOutcome(holes, z);
    if CompleteOutcome(holes, z).Ok? {
      TiesKnot(hI, holes, z);
      assert holes[..|z|] == holes;
    }
  }

  // ---------------------------------------------------------------- calls

  /** A call reaches the body of its callee exactly when it recorded two
      evaluations more than it has arguments; then every argument and the
      callee evaluation succeeded, the callee is a closure whose frame reads
      without error, and the body ran from the contents the callee evaluation
      left, in the matrices `[captured names, parameters]` / `[captured
      values, arguments]`, giving the form's result and contents; the caller
      keeps the matrices the callee evaluation left. Every other outcome is an
      error. */
  lemma {:induction false} CallReachesBody(t: Trace)
    requires Valid(t) && t.fuel > 0 && t.node.kind == List && t.node in t.pre && t.pre[t.node].statements != []
    ensures var st := t.pre[t.node].statements;
            var m := |st| - 1;
            |t.subs| <= m + 2 &&
            (|t.subs| < m + 2 ==> t.result.Err?) &&
            (|t.subs| == m + 2 ==>
               AllValid(t.subs) && AllOk(t.subs[..m]) &&
               var s := t.subs[m];
               Chain(t.subs[..m], st[1..], t.fuel - 1, t.pre, t.names, t.values) &&
               Runs(s, st[0], t.fuel - 1, HeapAfter(t.subs[..m], t.pre),
                    NamesAfter(t.subs[..m], t.names), ValuesAfter(t.subs[..m], t.values)) &&
               s.result.Ok? && s.result.value.kind == FuncClosure && s.result.value in s.post && ClosedHeap(s.post) &&
               CallFrameIn(s.post, s.result.value, m).Ok? &&
               var f := CallFrameIn(s.post, s.result.value, m).value;
               Runs(t.subs[m + 1], f.body, t.fuel - 1, s.post,
                    [f.capNames, f.params], [f.capValues, Values(t.subs[..m])]) &&
               t.result == t.subs[m + 1].result && t.post == t.subs[m + 1].post &&
               t.outNames == s.outNames && t.outValues == s.outValues)
  {
    var st := FormRun(t);
    CallRung(t, st);
    CallStepReads(t, st);
  }

  /** The rung a call form with children follows. */
  lemma {:induction false} CallRung(t: Trace, st: seq<Node>)
    requires t.fuel > 0 && st != [] && t.node.kind == List && FormStep(t, st)
    ensures CallStep(t, st)
  {
  }

  lemma {:induction false} CallStepReads(t: Trace, st: seq<Node>)
    requires t.fuel > 0 && st != [] && CallStep(t, st)
    ensures var m := |st| - 1;
            |t.subs| <= m + 2 &&
            (|t.subs| < m + 2 ==> t.result.Err?) &&
            (|t.subs| == m + 2 ==>
               AllValid(t.subs) && AllOk(t.subs[..m]) &&
               var s := t.subs[m];
               Chain(t.subs[..m], st[1..], t.fuel - 1, t.pre, t.names, t.values) &&
               Runs(s, st[0], t.fuel - 1, HeapAfter(t.subs[..m], t.pre),
                    NamesAfter(t.subs[..m], t.names), ValuesAfter(t.subs[..m], t.values)) &&
               s.result.Ok? && s.result.value.kind == FuncClosure && s.result.value in s.post && ClosedHeap(s.post) &&
               CallFrameIn(s.post, s.result.value, m).Ok? &&
               var f := CallFrameIn(s.post, s.result.value, m).value;
               Runs(t.subs[m + 1], f.body, t.fuel - 1, s.post,
                    [f.capNames, f.params], [f.capValues, Values(t.subs[..m])]) &&
               t.result == t.subs[m + 1].result && t.post == t.subs[m + 1].post &&
               t.outNames == s.outNames && t.outValues == s.outValues)
  {
    SubsAreValid(t);
  }

  /** Inside a call of a closure that captured the flattening of a
      well-formed environment `(cn, cv)`, a name is looked up first among the
      captured bindings, in the order `assoc` scans the environment, and only
      then among the parameters, which bind the arguments. */
  lemma {:induction false} CallBodyLookup(t: Trace, cn: Matrix, cv: Matrix)
    requires Valid(t) && t.fuel >= 2 && t.node.kind == List && t.node in t.pre && t.pre[t.node].statements != []
    requires WellFormed(cn, cv)
    ensures var st := t.pre[t.node].statements;
            var m := |st| - 1;
            (|t.subs| == m + 2 ==>
               AllOk(t.subs[..m]) &&
               var s := t.subs[m];
               s.result.Ok? && s.result.value in s.post && ClosedHeap(s.post) &&
               CallFrameIn(s.post, s.result.value, m).Ok? &&
               var f := CallFrameIn(s.post, s.result.value, m).value;
               var args := Values(t.subs[..m]);
               (f.body.kind == Ident && f.capNames == Flatten(cn) && f.capValues == Flatten(cv) ==>
                  t.result == if AssocSpec(cn, cv, f.body.name).Ok? then AssocSpec(cn, cv, f.body.name)
                              else LookupRow(f.params, args, f.body.name)))
  {
    CallReachesBody(t);
    var st := t.pre[t.node].statements;
    var m := |st| - 1;
    if |t.subs| == m + 2 {
      var s := t.subs[m];
      var f := CallFrameIn(s.post, s.result.value, m).value;
      var args := Values(t.subs[..m]);
      if f.body.kind == Ident && f.capNames == Flatten(cn) && f.capValues == Flatten(cv) {
        assert Valid(t.subs[m + 1]);
        LeafRun(t.subs[m + 1]);
        CallFrameLookup(cn, cv, f.params, args, f.body.name);
      }
    }
  }
}
