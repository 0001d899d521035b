# LispForKids evaluator in Dafny

This project models the tree-walking evaluator of LispForKids (`src/Emulator.cpp`)
and the node structure it works on (`src/AST.h`). It proves properties of the model.

- **Nodes** are heap objects (`Syntax.Node`). Each node has a constant dynamic class
  (`kind`, one per C++ subclass), a constant payload, a mutable `node_type` tag and
  a mutable child vector. Aliasing is real: a node reached from two lists is one
  object.
- **The environment** (`Environment.Env`) is the pair of matrices `n` and `v` that
  every handler receives by reference. Rows are scanned from row 0, and row 0 is
  the most recently inserted one.
- **The evaluator** (`Emulator`) follows the class ladder of `Emulator::eval`.
  - Each handler is a method that changes the shared environment and, for
    `letrec`, node objects in place.
  - The pure rules applied after the operands are evaluated are functions in
    `Primitives`: car, cdr, cons, atom, the literal test, the integer operators,
    `le` and `equal`.
  - `complete`, the in-place patch of letrec placeholders, is in `Fixpoint`.
- **The meaning** (`Semantics`) is a `Trace`: the record of one evaluation, with
  the node, the fuel, the contents of the nodes and the matrices on entry, the
  result, the contents and matrices on exit, and the nested evaluations it ran,
  in order. `Valid` checks a trace against the rule of its node's class, and
  then every nested trace in turn, down to the leaves. Each evaluation method
  returns the trace of what it did and proves it valid. The `...Valid` lemmas
  build a valid trace from a valid trace per child, one rule each.
- **What a valid trace implies** (`Meaning`) is proved by reading the rules
  back: a `cond` evaluates only the branch it takes; `let` and `letrec` bodies
  see their bindings first; a call sees the captured environment before its
  parameters; `letrec` ties the knot; and the matrices of every evaluation,
  at any depth, only gain rows at the front.
- **Two programs** (`Programs`) are built node by node and evaluated through
  `EvalProgram`: `(add 2 3)` gives 5 and `(let ((x 10)) (add x 1))` gives 11.
- **Errors.** Every exception the C++ code throws is an `Err` of an `Outcome.Error`
  kind. The first one aborts the evaluation.
- **Fuel.** Closures may recurse forever, so every nested evaluation spends one
  unit of fuel. Running out gives `Err(OutOfFuel)`.
- **The node set `N`.** Every evaluation method carries a ghost set `N` of nodes
  that is closed under taking children. It holds the expression and every node of
  the environment, and it only grows by freshly allocated nodes.

The model follows the code as written, including these quirks:

- Call arguments are evaluated before the callee.
- In a call, the closure's captured row comes first, so a captured binding
  shadows a parameter of the same name (`Environment.CallFrameLookup`).
- `let` and `letrec` insert their row into the caller's matrices and never remove
  it. `let` initializers therefore see every row that earlier initializers
  inserted.
- `letrec` patches `v[0]`. An initializer that runs a `let` moves the letrec row
  away from row 0, and `complete` then patches the `let` row instead.
- A closure node has no dispatch case, so evaluating one is "Unknown node type".
- The `literal` form is true exactly for an int, bool or nil value.

## Model

| member | source | states |
|---|---|---|
| Syntax.Node.constructor | src/AST.h:14-15 | a new payload-free node of the given class and tag, with no children |
| Syntax.Node.IntLiteral | src/AST.h:131-137 | a `LiteralInt` node whose `getValue` is the constructor value and whose tag is the constructor tag, with no children |
| Syntax.Node.BoolLiteral | src/AST.h:139-148 | a `LiteralBool` node carrying the constructor value and tag |
| Syntax.Node.Identifier | src/AST.h:167-173 | an `Identifier` node carrying the constructor name and tag |
| Syntax.Node.GetStatementCount | src/AST.h:20 | the count is the length of the child vector, and it is zero exactly when there are no children |
| Syntax.Node.GetStatement | src/AST.h:22 | succeeds exactly for an index inside the vector and returns that child; any other index is an out-of-range error |
| Syntax.Node.AddStatement | src/AST.h:23 | the children become the old children followed by exactly the new one; the tag is unchanged |
| Syntax.Node.AddStatements | src/AST.h:28-34 | the given children are appended, in order, after the existing ones |
| Syntax.Node.SetStatements | src/AST.h:25 | the child vector is replaced wholesale |
| Syntax.Ast.Empty | src/AST.h:74 | the empty tree has no root |
| Syntax.Ast.constructor | src/AST.h:75 | the tree holds the given root |
| Syntax.Ast.IsEmpty | src/AST.h:78 | true exactly when the root is null |
| Syntax.Ast.GetRoot | src/AST.h:77 | returns the root the tree was built with |
| Primitives.CarOf | src/Emulator.cpp:107-121 | nil gives the nil node itself and a non-empty list gives its element 0; every other value, including the empty list and a non-list with children, is a car error |
| Primitives.CdrOf | src/Emulator.cpp:123-141 | nil gives nil itself; a list of length 1 gives a new nil; a list of length at least 2 gives a new list of elements 1.. in order; anything else is a cdr error |
| Primitives.ConsOf | src/Emulator.cpp:245-260 | a list on the right gives a new list `[left] ++ right's elements`, nil gives `[left]`, and anything else is a cons error |
| Primitives.AtomOf | src/Emulator.cpp:143-150 | a new bool that is true exactly when the value is not a list, so closures, nil and identifiers are atoms |
| Primitives.LiteralTestOf | src/Emulator.cpp:152-166 | a new bool that is true exactly for an int, bool or nil value |
| Primitives.ArithValue | src/Emulator.cpp:168-226 | on 32-bit operands: the sum, difference or product when it fits in `int`, and no value when it overflows; for div and rem, no value for a zero divisor or a truncated quotient outside `int` (`INT_MIN / -1`), and otherwise the truncated quotient or the remainder; every value it gives fits in `int` |
| Primitives.ArithOf | src/Emulator.cpp:168-243 | a non-int operand gives that operator's own error; `le` gives a new bool `a <= b`; the other operators give a new int with the C++ value, or undefined behaviour |
| Primitives.EqualOf | src/Emulator.cpp:262-307 | an error exactly when both values are lists; otherwise a new bool: for two ints, whether their values are equal; for two bools, whether their values are equal; for two identifiers, whether their names are equal |
| Primitives.DivRemIdentity | src/Emulator.cpp:204-226 | `(a/b)*b + a%b == a` for `b != 0`, with `abs(a%b) < abs(b)` and a remainder that is zero or has the dividend's sign |
| Primitives.TDivTruncates | src/Emulator.cpp:204-214 | the quotient is truncated toward zero: its magnitude `q` satisfies `q*abs(b) <= abs(a) < (q+1)*abs(b)` |
| Primitives.DiveRemOfInts | src/Emulator.cpp:204-226 | when C++ defines them, the results of the `div` and `rem` nodes satisfy `div*b + rem == a` |
| Primitives.CarCdrOfCons | src/Emulator.cpp:245-260 | car of a consed list is the consed element; its cdr is nil when the right operand was nil or empty, and otherwise a list of the right operand's elements |
| Primitives.ConsOfCarCdr | src/Emulator.cpp:245-260 | consing the car of a list of two or more elements onto its cdr rebuilds the same elements |
| Primitives.EqualFailsIffNoAtom | src/Emulator.cpp:266-269 | `equal` fails exactly when `atom` is false for both operands |
| Primitives.EqualReflexiveSymmetric | src/Emulator.cpp:266-304 | every atom is equal to itself, and `equal` gives the same result with its operands swapped |
| Primitives.EqualFallsBackToTags | src/Emulator.cpp:300-303 | atoms that are not an int pair, a bool pair or an identifier pair compare by their `node_type` strings only |
| Primitives.Materialize | src/Emulator.cpp:130-136 | the returned node has the requested class, tag, payload and children; it is new unless an existing node was asked for; the node set stays closed |
| Environment.Env.Prepend | src/Emulator.cpp:435-436 | each matrix gains the given row as row 0, and its other rows are unchanged |
| Environment.FindInRow | src/Emulator.cpp:376-382 | the first column whose entry is an identifier of that name, or none when no column has one |
| Environment.Assoc | src/Emulator.cpp:361-386 | the result is exactly the reference lookup `AssocSpec`: different row counts, a visited row pair of unequal size, the value of the first match in row-major order, or unbound |
| Environment.AssocFirstMatch | src/Emulator.cpp:368-383 | in a well-formed environment the result is the value paired with the first identifier of that name, scanning rows from row 0 and columns from column 0 |
| Environment.AssocUnbound | src/Emulator.cpp:385 | a name that appears nowhere in a well-formed environment is reported unbound |
| Environment.AssocShadows | src/Emulator.cpp:368-383 | a row at the front answers for every name it holds, and every other name is looked up in the rest |
| Environment.WellFormedLookup | src/Emulator.cpp:364-385 | in a well-formed environment a lookup either succeeds or reports the name unbound |
| Environment.PrependedKeepsWellFormed | src/Emulator.cpp:435-436 | inserting equal-sized name and value rows at the front keeps the environment well formed |
| Environment.MatrixToList | src/Emulator.cpp:324-332 | a new list holding every entry of the matrix, row by row, with the same node objects |
| Environment.AssocFlatten | src/Emulator.cpp:324-332 | flattening a well-formed environment into one row, as a closure captures it, preserves every lookup |
| Environment.CallFrameLookup | src/Emulator.cpp:406-412 | in a call environment, a name bound where the closure was built keeps that binding; a parameter is found only when the name was not bound there |
| Fixpoint.StopIndex | src/Emulator.cpp:486-489 | the first value whose target slot in `v[0]` is missing or has another class, or the number of values when every slot fits |
| Fixpoint.CompleteOutcome | src/Emulator.cpp:485-493 | `complete` succeeds exactly when every slot fits; otherwise it stops with undefined behaviour for a slot past the end of `v[0]`, or with the kind-mismatch error |
| Fixpoint.Assign | src/Emulator.cpp:490 | the target gets the source's tag and children; no other node changes |
| Fixpoint.Complete | src/Emulator.cpp:485-493 | reports `CompleteOutcome`; every touched node then has the contents the copies in order give it, up to the stop index |
| Fixpoint.CopyStep | src/Emulator.cpp:490 | one `*v[0][i] = *z[i]` copy advances the contents of the touched nodes from `Patched` after `i` copies to `Patched` after `i + 1` |
| Fixpoint.PatchFillsSlots | src/Emulator.cpp:490 | with distinct slots that no value aliases, each slot gets its own value's original contents and every other node keeps its own |
| Fixpoint.UntouchedKept | src/Emulator.cpp:486-491 | a node that none of the copies writes keeps its contents |
| Fixpoint.SlotKeepsItsCopy | src/Emulator.cpp:486-491 | with distinct slots, a slot ends with the contents its value had just before that slot's own copy, because later copies write other slots |
| Fixpoint.PatchReadsEarlierWrites | src/Emulator.cpp:486-491 | the copies are sequential: a value that is itself an earlier slot is copied with the contents that slot was given, not the ones it had before `complete` |
| Fixpoint.ClosureRowOutcome | src/Emulator.cpp:486-489 | on a row of placeholder closures of the right length, `complete` succeeds exactly when every value is a closure, and fails only with the kind-mismatch error |
| Fixpoint.TiesKnot | src/Emulator.cpp:485-493 | after a successful `complete` on distinct slots that no value aliases, every slot holds its own value's original contents and nothing else touched changes |
| Semantics.CallFrame | src/Emulator.cpp:400-414 | what a call reads from a closure, in the source's order: a missing part is out of range, a parameter count that is not the argument count is a count error, and a successful frame has exactly as many parameters as arguments |
| Semantics.CallFrameAgrees | src/Emulator.cpp:400-414 | reading a closure's frame from recorded contents gives what reading it from the live nodes gives |
| Semantics.PatchedPlaceholderCalls | src/Emulator.cpp:490 | a placeholder overwritten with a closure's contents is called exactly as that closure is |
| Semantics.Heads | src/Emulator.cpp:430 | the bound names: child 0 of each binding, in order |
| Semantics.EmptyFormValid | src/Emulator.cpp:32-82 | a form other than `lambda` with no children fails out of range, evaluating nothing and changing nothing, as its first `getStatement(0)` does |
| Semantics.LambdaValid | src/Emulator.cpp:334-359 | a `lambda` evaluates no child; it gives a new closure made of five new lists (the `[params, body]` pair, the parameter list, the context and its two rows), no two of them the same node, whose frame is every child but the last as parameters, the last child as body and the matrices flattened in row order, and no existing node changes |
| Semantics.UnaryValid | src/Emulator.cpp:107-166 | `car`, `cdr`, `atom` and `literal` evaluate child 0 from the entry state, pass its error on, and otherwise apply their rule to its value |
| Semantics.BinaryValid | src/Emulator.cpp:168-307 | the binary forms evaluate child 0, then child 1 from where it stopped, pass the first error on (a missing child 1 is out of range), and apply their rule to both values |
| Semantics.CondValid | src/Emulator.cpp:309-322 | `cond` evaluates the test, then only the branch a boolean test selects, from where the test stopped; a failed test, a non-bool test and a missing branch end it |
| Semantics.LetValid | src/Emulator.cpp:421-439 | `let` runs the initializers in order, stops at the first error, then inserts the row of names and values in front and evaluates the body there |
| Semantics.LetrecValid | src/Emulator.cpp:441-483 | `letrec` inserts a row of names and new placeholders, runs the initializers there, runs `complete` on row 0 of the values they left, and evaluates the body from the patched contents |
| Semantics.CallStoppedValid | src/Emulator.cpp:388-396 | a call whose argument loop stopped ends with that argument's error, where that evaluation stopped |
| Semantics.CallDoneValid | src/Emulator.cpp:388-419 | a call evaluates every argument, then the callee from where they stopped, and runs the closure's body in the matrices `[captured names, parameters]` / `[captured values, arguments]`; the caller keeps the matrices the callee evaluation left |
| Emulator.EvalLeaf | src/Emulator.cpp:87-105 | int, bool and nil literals evaluate to the very same node; `quote` gives child 0 unevaluated, or out of range; an identifier gives its `assoc` result; a closure or bare node is an unknown node type |
| Emulator.Eval | src/Emulator.cpp:16-85 | records a trace of the node, entered with the contents and matrices it started from, that is valid under the rules of the language, nested evaluations included, and whose result and exit state are the method's; every value lies in the grown node set, which only grows by new nodes and stays closed, and the matrices only gain rows at the front |
| Emulator.EvalLambdaNode | src/Emulator.cpp:334-359 | records a valid trace of the `lambda` rule: nothing evaluated, and the closure `EvalLambda` builds, which shares no node with the contents it started from and whose six nodes are pairwise distinct |
| Emulator.EvalForm | src/Emulator.cpp:32-82 | records a trace of the node, entered with the contents and matrices it started from, that is valid under the rules of the language, nested evaluations included, and whose result and exit state are the method's, for every form that evaluates children; no children is out of range |
| Emulator.ApplyUnary | src/Emulator.cpp:107-166 | delivers what the pure unary rule asks for: its error, or a node realising its value |
| Emulator.ApplyBinary | src/Emulator.cpp:168-307 | delivers what the pure binary rule asks for: its error, or a node realising its value |
| Emulator.EvalUnary | src/Emulator.cpp:107-166 | records a trace of the node, entered with the contents and matrices it started from, that is valid under the rules of the language, nested evaluations included, and whose result and exit state are the method's, under the unary rule |
| Emulator.EvalBinary | src/Emulator.cpp:168-307 | records a trace of the node, entered with the contents and matrices it started from, that is valid under the rules of the language, nested evaluations included, and whose result and exit state are the method's, under the binary rule: child 0, then child 1, then the operator |
| Emulator.EvalOperands | src/Emulator.cpp:168-307 | for a binary form with children: records a valid trace of the node from the contents and matrices it started from, in which child 0 is evaluated first, then child 1 from where child 0 stopped, then the operator, and whose result and exit state are the method's |
| Emulator.SecondOperand | src/Emulator.cpp:170 | after the first operand's evaluation: its error is passed on with nothing evaluated; a missing child 1 is out of range; otherwise child 1 is evaluated, validly, from where the first stopped, and its error or the operator's outcome is the result |
| Emulator.EvalCond | src/Emulator.cpp:309-322 | records a trace of the node, entered with the contents and matrices it started from, that is valid under the rules of the language, nested evaluations included, and whose result and exit state are the method's, under the `cond` rule: the test, then only the branch it selects |
| Emulator.EvalBranch | src/Emulator.cpp:312-321 | after the test: an error is passed on, a non-bool is a cond error, a missing branch is out of range, each with nothing more evaluated; otherwise exactly the selected child is evaluated, validly, from where the test stopped, and its result and exit state are the form's |
| Emulator.EvalLambda | src/Emulator.cpp:334-359 | nothing is evaluated; with no children it is out of range; otherwise a new `CLOSURE` node, built with its pair, parameter list, context and two rows from new and pairwise distinct nodes, whose frame is the parameters (all children but the last), the body (the last child) and one flattened row each of the current names and values |
| Emulator.ParamList | src/Emulator.cpp:335-339 | a new list of every child but the last |
| Emulator.BuildContext | src/Emulator.cpp:343-346 | a new list of two distinct new lists: the flattened names, then the flattened values |
| Emulator.BuildClosure | src/Emulator.cpp:349-356 | a new `CLOSURE` node holding `[params, body]` and the context |
| Emulator.EvalArgs | src/Emulator.cpp:390-395 | children 1.. are evaluated in order, each validly and from where the one before stopped, starting from the caller's state; on success there is one value per argument, and otherwise the loop stopped at the first error |
| Emulator.EvalArg | src/Emulator.cpp:392-394 | one more child is evaluated, validly, from the state the loop reached, and the record of the loop grows by exactly that evaluation |
| Emulator.EvalCall | src/Emulator.cpp:388-419 | records a trace of the node, entered with the contents and matrices it started from, that is valid under the rules of the language, nested evaluations included, and whose result and exit state are the method's, under the call rule: the arguments first, then the callee, then the closure's body in a frame of its own |
| Emulator.CallClosure | src/Emulator.cpp:398-418 | the callee is evaluated, validly, from the current state, and the call follows as the call rule states, each error case propagating |
| Emulator.Invoke | src/Emulator.cpp:400-414 | a non-closure is rejected; otherwise the frame is read from the current contents and its error propagates; the body is evaluated, validly, in the new matrices `[captured names, parameters]` / `[captured values, arguments]`, so the caller's matrices are untouched |
| Emulator.EvalInits | src/Emulator.cpp:427-432 | the initializers are evaluated in order, each validly and from where the one before stopped; initializer `k` is child 1 of binding `k`, and a binding without one is out of range; on success the values are their results in order, and otherwise the loop stopped at its first error |
| Emulator.EvalInit | src/Emulator.cpp:428-429 | one more initializer is evaluated, validly, from the state the loop reached, and the record of the loop grows by it |
| Emulator.EvalLet | src/Emulator.cpp:421-439 | records a trace of the node, entered with the contents and matrices it started from, that is valid under the rules of the language, nested evaluations included, and whose result and exit state are the method's, under the `let` rule; the inserted row stays after the `let` returns |
| Emulator.LetBinds | src/Emulator.cpp:427-438 | the initializer loop, then, on its success, the row insertion and the body, as the `let` rule states |
| Emulator.BindAndEval | src/Emulator.cpp:435-438 | the row is inserted in front of both matrices, the body is evaluated there, validly, and its result and exit state are the method's |
| Emulator.MakePlaceholders | src/Emulator.cpp:446-451 | succeeds exactly when every binding has a child 0; the names are child 0 of each binding, and each placeholder is a new, distinct, childless closure tagged `OMEGA` |
| Emulator.EvalLetrec | src/Emulator.cpp:441-483 | records a trace of the node, entered with the contents and matrices it started from, that is valid under the rules of the language, nested evaluations included, and whose result and exit state are the method's, under the `letrec` rule, with the placeholders it made |
| Emulator.LetrecBinds | src/Emulator.cpp:444-482 | the placeholders are made and, when every binding has a name, the rest of `letrec` runs, as the `letrec` rule states |
| Emulator.LetrecRest | src/Emulator.cpp:452-482 | from the matrices with the placeholder row in front: the initializers, and `complete` and the body only when they all succeed |
| Emulator.BindAndInit | src/Emulator.cpp:452-478 | the placeholder row is inserted in front of both matrices, then the initializers run from them as `EvalInits` states |
| Emulator.CompleteAndEval | src/Emulator.cpp:480-482 | `complete` on the current row 0 reports `CompleteOutcome` and leaves `Patched` contents; its error is the result; otherwise the body is evaluated, validly, from the patched contents |
| Emulator.EvalProgram | src/Emulator.cpp:4-14 | a null root is an unknown node type; otherwise a valid trace of the root from empty matrices; its error is the result, and otherwise a new tree whose root is its value |
| Meaning.LeafRun | src/Emulator.cpp:87-105 | an evaluation of a leaf with fuel evaluates nothing, changes nothing and gives the leaf's value |
| Meaning.FormRun | src/Emulator.cpp:32-82 | a form other than `lambda` with no children fails out of range and changes nothing; otherwise it follows its own rule |
| Meaning.LambdaRun | src/Emulator.cpp:334-359 | any valid `lambda` evaluation, nested ones included, evaluates nothing and changes no existing node; it succeeds exactly when the lambda has children, and then gives a closure whose six nodes are new and pairwise distinct and whose frame is the parameters, the body and the flattened matrices; otherwise it is out of range |
| Meaning.ValidPrepends | src/Emulator.cpp:388-483 | in every valid evaluation, at any depth, the matrices only gain rows at the front, and each new name row has the size of its value row |
| Meaning.CondEvaluatesOneBranch | src/Emulator.cpp:309-322 | `cond` evaluates the test and then at most one branch, and exactly when the test is a boolean whose branch exists; that branch is the one the test selects, it starts where the test stopped, and its result and exit state are the form's; otherwise the test's error, a cond error or out of range ends the form where the test stopped |
| Meaning.CondLiteralTest | src/Emulator.cpp:309-322 | with a literal `#t`/`#f` test, the selected branch is evaluated from the entry state and gives the form's result, whatever the other branch is; a missing branch is out of range with nothing changed |
| Meaning.BinaryOperands | src/Emulator.cpp:168-170 | a binary form evaluates child 0 from the entry state, then child 1 from where it stopped only when child 0 succeeded, and applies the operator to both values; the first error is the result |
| Meaning.AddLiterals | src/Emulator.cpp:168-178 | `add` of two int literals gives a new int node holding their sum when it fits in `int`, and undefined behaviour otherwise; the matrices are untouched |
| Meaning.LetBody | src/Emulator.cpp:421-439 | after its initializers succeeded, a `let` evaluates its body from where they stopped, in their matrices with the row of names and values in front, and gives the body's result |
| Meaning.LetBodyLookup | src/Emulator.cpp:429-438 | in the body of a `let` whose initializers succeeded, a bound name denotes the value of the first binding of that name, and any other name is looked up in the matrices the initializers left |
| Meaning.LetLiteralBinding | src/Emulator.cpp:421-439 | a `let` binding one name to an int literal evaluates its body from the entry contents with the row `[name]` / `[literal]` in front of the matrices |
| Meaning.LetAddExample | src/Emulator.cpp:421-439 | `(let ((x a)) (add x c))` gives an int holding `a + c` when it fits in `int`, and undefined behaviour otherwise, and leaves the binding row in front of the matrices |
| Meaning.LetrecReachedBody | src/Emulator.cpp:441-483 | a `letrec` reaches its body exactly when there is a placeholder per binding, every initializer succeeded and `complete` succeeded; every other outcome is an error |
| Meaning.LetrecBodyLookup | src/Emulator.cpp:452-482 | in the body of a `letrec` whose initializers inserted no rows of their own, a bound name denotes the placeholder of the first binding of that name, and any other name is looked up in the caller's matrices |
| Meaning.LetrecFillsPlaceholders | src/Emulator.cpp:446-493 | in a `letrec` whose initializers succeeded, inserted no rows and gave no placeholder, `complete` succeeds and the body runs exactly when every initializer gave a closure, and it fails with the kind-mismatch error otherwise; the body then starts with each placeholder holding its closure's contents and every other node as the initializers left it |
| Meaning.CompletedKnot | src/Emulator.cpp:485-493 | `complete` on distinct closure placeholders that no value aliases succeeds exactly when every value is a closure, and then fills each placeholder with its value's contents and changes nothing else |
| Meaning.CallReachesBody | src/Emulator.cpp:388-419 | a call reaches the callee's body exactly when every argument and the callee succeeded, the callee is a closure and its frame reads without error; the body runs in `[captured names, parameters]` / `[captured values, arguments]` and gives the result; the caller keeps the matrices the callee evaluation left; every other outcome is an error |
| Meaning.CallBodyLookup | src/Emulator.cpp:404-414 | in the body of a call of a closure that captured a well-formed environment, a name bound there keeps that binding, and otherwise the parameter of that name gives its argument |
| Programs.AddTwoThree | src/Emulator.cpp:4-14 | evaluating the program `(add 2 3)` with enough fuel gives a tree whose root is an int node holding 5 |
| Programs.LetTenAddOne | src/Emulator.cpp:4-14 | evaluating the program `(let ((x 10)) (add x 1))` with enough fuel gives a tree whose root is an int node holding 11 |

## Left out

- Printing is not modelled (`print`, `printFlat`, `printValue`, `printMatrix`, `printMatrixFlat`, and the `printRec` call before the not-a-closure error). It is console output only.
- `src/main.cpp` is not part of this model. It is a driver around a parser that is not in the repository, and it never calls the evaluator.
- `src/Emulator.h` contributes only the `Matrix` typedef, which is the type `Environment.Matrix`.
- `evalClosure` is never dispatched to, so it is not modelled.
- `shared_ptr` reference counting and lifetime are not modelled. Nodes are Dafny objects, and sharing is object identity.
- Exact error message strings are not modelled. Errors are the kinds of `Outcome.Error`; `Unbound` keeps the name.
- Undefined behaviour. C++ leaves some outcomes undefined: signed overflow in add, sub and mul; division or remainder by zero; the quotient `INT_MIN / -1` and with it `INT_MIN % -1`; and `v[0][i]` past the end of row 0 in `complete`. The model does not restrict its callers to avoid these cases. It evaluates them to `Err(UndefinedBehaviour)`, so nothing is claimed about them.
- Emulator.Eval: evaluating children spends fuel, and an evaluation that runs out reports `OutOfFuel`. A program that diverges in C++ (overflowing its stack or looping) is therefore `OutOfFuel` here, whatever the fuel.
- Meaning.LetrecBodyLookup, Meaning.LetrecFillsPlaceholders: stated only for a `letrec` whose initializers inserted no rows of their own. An initializer that runs a `let` moves the placeholder row away from row 0; `complete` then patches that `let` row, and the body's lookups depend on what the initializer bound. The trace semantics covers that case, but no lemma spells it out.
- Meaning.CallBodyLookup: stated for a closure whose captured rows are the flattening of some well-formed environment, as a closure that `lambda` builds in a well-formed environment is. A closure assembled by hand with captured rows of unequal length is covered by the call rule, but not by this lemma.
- Emulator.EvalCall, Emulator.EvalLet, Emulator.EvalLetrec, Emulator.EvalCond, Emulator.EvalUnary, Emulator.EvalBinary: each handler reads the children of its node (and, for `let` and `letrec`, the children of each binding) once, on entry. The C++ code re-reads them at each use. The two differ only if evaluating a child overwrote the node being evaluated, through `letrec`'s in-place patch.
- Child pointers are never null: every child is a node object. The parser that would build an AST is not part of this model.
