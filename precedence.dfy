/**
 * Precedence resolution of a `binaries_expression`
 * (src/interpreter/tree_sitter_parser.rs, the `binaries_expression` arm).
 *
 * The operands and operators of a binary expression arrive as a flat list
 * `e0, op1, e1, op2, ..., en`.  The distinct precedences of the operators
 * are kept in an ordered set; for each of them, smallest first, one
 * left-to-right pass replaces every `e op e'` whose operator has that
 * precedence by a single `Binary(op, e, e')` operand.  The band processed
 * first binds tightest.
 *
 * `Pass` and `ReduceAll` are the reference definitions; `ReduceList` is the
 * cursor-driven loop of the source, proved to compute them.
 */
module Precedence {
  import opened Wrappers
  import opened Identifiers
  import opened Syntax

  /** An element of the flat list (`Elem` in the source). */
  datatype Elem = Operand(expr: Expr) | BinOp(ident: Identifier, precedence: int)

  /** Operands sit at even positions and operators at odd ones. */
  predicate Alternating(l: seq<Elem>) {
    forall i :: 0 <= i < |l| ==> (l[i].Operand? <==> i % 2 == 0)
  }

  /** A complete chain: alternating and ending in an operand. */
  predicate WellFormed(l: seq<Elem>) {
    |l| % 2 == 1 && Alternating(l)
  }

  lemma AlternatingSlice(l: seq<Elem>, k: nat, m: nat)
    requires Alternating(l) && k % 2 == 0 && k <= m <= |l|
    ensures Alternating(l[k..m])
  {
    forall i | 0 <= i < m - k
      ensures l[k..m][i].Operand? <==> i % 2 == 0
    {
      assert l[k..m][i] == l[k + i];
    }
  }

  lemma AlternatingAppend(a: seq<Elem>, b: seq<Elem>)
    requires Alternating(a) && Alternating(b) && |a| % 2 == 0
    ensures Alternating(a + b)
  {
    forall i | 0 <= i < |a + b|
      ensures (a + b)[i].Operand? <==> i % 2 == 0
    {
      if i >= |a| {
        assert (a + b)[i] == b[i - |a|];
      }
    }
  }

  // ---------------------------------------------------------------------
  // One reduction step

  /**
   * Replace the operands around the operator at odd position `i`, and the
   * operator itself, by one `Binary` operand (lines 331-348).
   */
  function ReduceAt(l: seq<Elem>, i: nat): (r: seq<Elem>)
    requires Alternating(l) && i % 2 == 1 && i + 1 < |l|
    ensures Alternating(r) && |r| == |l| - 2
  {
    var r := l[..i - 1] + [Operand(Binary(l[i].ident, l[i - 1].expr, l[i + 1].expr))] + l[i + 2..];
    AlternatingSlice(l, 0, i - 1);
    AlternatingSlice(l, i + 1, |l|);
    assert Alternating([Operand(Binary(l[i].ident, l[i - 1].expr, l[i + 1].expr))] + l[i + 2..]) by {
      var t := [Operand(Binary(l[i].ident, l[i - 1].expr, l[i + 1].expr))] + l[i + 2..];
      forall j | 0 <= j < |t| ensures t[j].Operand? <==> j % 2 == 0 {
        if j > 0 { assert t[j] == l[i + 1 + j]; }
      }
    }
    AlternatingAppend(l[..i - 1], [Operand(Binary(l[i].ident, l[i - 1].expr, l[i + 1].expr))] + l[i + 2..]);
    r
  }

  // ---------------------------------------------------------------------
  // Reference definitions of a pass and of the whole reduction

  /** One left-to-right pass for precedence `p` over a complete chain. */
  function Pass(l: seq<Elem>, p: int): (r: seq<Elem>)
    requires WellFormed(l)
    ensures WellFormed(r) && |r| <= |l|
    decreases |l|
  {
    if |l| == 1 then l
    else if l[1].precedence == p then Pass(ReduceAt(l, 1), p)
    else
      AlternatingSlice(l, 2, |l|);
      var rest := Pass(l[2..], p);
      AlternatingSlice(l, 0, 2);
      AlternatingAppend(l[..2], rest);
      l[..2] + rest
  }

  /** The passes for the precedences `ps`, in the order given. */
  function ReduceAll(l: seq<Elem>, ps: seq<int>): (r: seq<Elem>)
    requires WellFormed(l)
    ensures WellFormed(r)
    decreases |ps|
  {
    if ps == [] then l else ReduceAll(Pass(l, ps[0]), ps[1..])
  }

  // ---------------------------------------------------------------------
  // The ordered set of precedences (`BTreeSet<i32>`)

  predicate Increasing(s: seq<int>) {
    forall i, j :: 0 <= i < j < |s| ==> s[i] < s[j]
  }

  /** `BTreeSet::insert`: the set stays strictly increasing and gains `p`. */
  function BTreeInsert(s: seq<int>, p: int): (r: seq<int>)
    requires Increasing(s)
    ensures Increasing(r)
    ensures forall x :: x in r <==> x in s || x == p
  {
    if s == [] then [p]
    else if p < s[0] then [p] + s
    else if p == s[0] then s
    else
      var t := BTreeInsert(s[1..], p);
      IncreasingTail(s);
      var r := [s[0]] + t;
      assert Increasing(r) by {
        forall i, j | 0 <= i < j < |r| ensures r[i] < r[j] {
          assert r[j] == t[j - 1] && t[j - 1] in t;
          if i > 0 { assert r[i] == t[i - 1]; }
        }
      }
      r
  }

  /** The head of an increasing sequence is below everything after it. */
  lemma IncreasingTail(s: seq<int>)
    requires Increasing(s) && |s| > 0
    ensures Increasing(s[1..])
    ensures forall x :: x in s[1..] ==> s[0] < x
  {
    forall x | x in s[1..] ensures s[0] < x {
      var k :| 0 <= k < |s[1..]| && s[1..][k] == x;
      assert s[k + 1] == x;
    }
  }

  /** An ordered set is determined by its members. */
  lemma {:induction false} IncreasingUnique(a: seq<int>, b: seq<int>)
    requires Increasing(a) && Increasing(b)
    requires forall x :: x in a <==> x in b
    ensures a == b
  {
    assert a != [] ==> a[0] in a && a[0] in b;
    assert b != [] ==> b[0] in b && b[0] in a;
    if a != [] && b != [] {
      assert a[0] == b[0] by {
        assert a[0] in a && b[0] in b;
        assert a[0] in b && b[0] in a;
      }
      forall x ensures x in a[1..] <==> x in b[1..] {
        if x in a[1..] { assert x != a[0] && x in b; }
        if x in b[1..] { assert x != b[0] && x in a; }
      }
      IncreasingUnique(a[1..], b[1..]);
      assert a == [a[0]] + a[1..];
      assert b == [b[0]] + b[1..];
    }
  }

  /** The precedences of the operators of `l`. */
  function Precedences(l: seq<Elem>): set<int> {
    set i | 0 <= i < |l| && l[i].BinOp? :: l[i].precedence
  }

  /** The ordered set built while the list is built (line 305): every operator's precedence, once. */
  function PrecedenceSet(l: seq<Elem>): (r: seq<int>)
    ensures Increasing(r)
    ensures forall x :: x in r <==> x in Precedences(l)
  {
    if l == [] then []
    else
      var s := PrecedenceSet(l[..|l| - 1]);
      assert forall i :: 0 <= i < |l| - 1 ==> l[..|l| - 1][i] == l[i];
      if l[|l| - 1].BinOp? then BTreeInsert(s, l[|l| - 1].precedence) else s
  }

  // ---------------------------------------------------------------------
  // The result of the reduction, panics included

  /** Every operator's precedence is in `all`. */
  predicate Covered(l: seq<Elem>, all: seq<int>) {
    forall i :: 0 <= i < |l| && l[i].BinOp? ==> l[i].precedence in all
  }

  /** The ordered set built from a list covers every operator of it. */
  lemma PrecedenceSetCovers(l: seq<Elem>)
    ensures Covered(l, PrecedenceSet(l))
  {
    forall i | 0 <= i < |l| && l[i].BinOp? ensures l[i].precedence in PrecedenceSet(l) {
      assert l[i].precedence in Precedences(l);
    }
  }

  /**
   * What lines 313-355 yield: the single remaining operand, or a panic when
   * the list is empty (`pop_front().unwrap()`) or its last operator has no
   * right operand (`remove_current().unwrap()`).
   */
  function Reduced(l: seq<Elem>, all: seq<int>): (r: Result<Expr, string>)
    requires Alternating(l) && Covered(l, all)
  {
    if |l| == 0 then Failure(EmptyList)
    else if |l| % 2 == 0 then Failure(MissingRightOperand)
    else
      ReduceAllSingle(l, all);
      Success(ReduceAll(l, all)[0].expr)
  }

  const EmptyList := "binary expression with no operand"
  const MissingRightOperand := "operator without a right operand"

  // ---------------------------------------------------------------------
  // The loop of the source

  /** The end of the finished prefix when the cursor is at `i`: the operand before it, or the cursor itself. */
  function Settled(i: nat): nat {
    if i % 2 == 1 then i - 1 else i
  }

  /**
   * What holds with the cursor at `i` during the pass for `target`: on an
   * odd-length list the finished prefix and the pass over the rest give the
   * pass over the whole; on an even-length list the last operator is still
   * in place, and a cursor at the end has stepped over it.
   */
  ghost predicate CursorInvariant(list0: seq<Elem>, list: seq<Elem>, i: nat, target: int) {
    && 1 <= i && Alternating(list0)
    && Alternating(list) && |list| % 2 == |list0| % 2
    && (|list| % 2 == 1 ==>
          i <= |list| && WellFormed(list[Settled(i)..]) &&
          Pass(list0, target) == list[..Settled(i)] + Pass(list[Settled(i)..], target))
    && (|list0| % 2 == 0 && |list0| > 0 ==>
          i <= |list| && list[|list| - 1] == list0[|list0| - 1] &&
          (i == |list| ==> list[|list| - 1].precedence != target))
    && (|list0| == 0 ==> list == [])
  }

  /** Reducing the triple around the cursor keeps the invariant, with the cursor in place. */
  lemma CursorMatch(list0: seq<Elem>, list: seq<Elem>, i: nat, target: int)
    requires CursorInvariant(list0, list, i, target) && i + 1 < |list|
    requires list[i].BinOp? && list[i].precedence == target && i % 2 == 1
    ensures CursorInvariant(list0, ReduceAt(list, i), i, target)
  {
    if |list| % 2 == 1 {
      CursorMatchOdd(list0, list, i, target);
    } else {
      CursorMatchEven(list0, list, i, target);
    }
  }

  lemma CursorMatchOdd(list0: seq<Elem>, list: seq<Elem>, i: nat, target: int)
    requires CursorInvariant(list0, list, i, target) && i + 1 < |list| && |list| % 2 == 1
    requires list[i].BinOp? && list[i].precedence == target && i % 2 == 1
    ensures CursorInvariant(list0, ReduceAt(list, i), i, target)
  {
    var r := ReduceAt(list, i);
    assert Settled(i) == i - 1;
    PassAtMatch(list, i, target);
    CursorOddIntro(list0, r, i, target);
  }

  /** The invariant on an odd-length list, from its parts. */
  lemma CursorOddIntro(list0: seq<Elem>, list: seq<Elem>, i: nat, target: int)
    requires 1 <= i <= |list| && Alternating(list0) && Alternating(list)
    requires |list| % 2 == 1 && |list0| % 2 == 1
    requires WellFormed(list[Settled(i)..])
    requires Pass(list0, target) == list[..Settled(i)] + Pass(list[Settled(i)..], target)
    ensures CursorInvariant(list0, list, i, target)
  {
  }

  lemma CursorMatchEven(list0: seq<Elem>, list: seq<Elem>, i: nat, target: int)
    requires CursorInvariant(list0, list, i, target) && i + 1 < |list| && |list| % 2 == 0
    requires list[i].BinOp? && list[i].precedence == target && i % 2 == 1
    ensures CursorInvariant(list0, ReduceAt(list, i), i, target)
  {
    var r := ReduceAt(list, i);
    assert r[|r| - 1] == list[|list| - 1];
  }

  /** Stepping over any other element keeps the invariant, with the cursor one further. */
  lemma CursorSkip(list0: seq<Elem>, list: seq<Elem>, i: nat, target: int)
    requires CursorInvariant(list0, list, i, target) && i < |list|
    requires !(list[i].BinOp? && list[i].precedence == target)
    ensures CursorInvariant(list0, list, i + 1, target)
  {
    if |list| % 2 == 1 {
      if i % 2 == 1 {
        assert Settled(i) == i - 1 && Settled(i + 1) == i + 1;
        PassAtSkip(list, i, target);
      } else {
        assert Settled(i) == i == Settled(i + 1);
      }
      CursorOddIntro(list0, list, i + 1, target);
    }
  }

  /** When the cursor has run off the end, the list holds the pass's result. */
  lemma CursorDone(list0: seq<Elem>, list: seq<Elem>, i: nat, target: int)
    requires CursorInvariant(list0, list, i, target) && i >= |list|
    ensures Alternating(list) && |list| % 2 == |list0| % 2
    ensures |list0| % 2 == 1 ==> list == Pass(list0, target)
    ensures |list0| % 2 == 0 && |list0| > 0 ==>
      list0[|list0| - 1].precedence != target && |list| > 0 && list[|list| - 1] == list0[|list0| - 1]
    ensures |list0| == 0 ==> list == []
  {
    if |list0| % 2 == 1 {
      assert list[..Settled(i)] + list[Settled(i)..] == list;
    }
  }

  /** An operator of the pass's precedence at the end has no right operand. */
  lemma CursorStuck(list0: seq<Elem>, list: seq<Elem>, i: nat, target: int)
    requires CursorInvariant(list0, list, i, target) && i < |list| && i + 1 >= |list|
    requires list[i].BinOp? && list[i].precedence == target
    ensures |list0| % 2 == 0 && |list0| > 0 && list0[|list0| - 1].precedence == target
  {
  }

  /**
   * One iteration of the loop at line 313: a cursor starts on the second
   * element; on an operator of precedence `target` the triple around it is
   * replaced by one `Binary` operand and the cursor is left on the element
   * that followed the triple, otherwise the cursor steps forward.  `ok` is
   * false when the operator has no right operand (the `unwrap` at line 335).
   */
  method CursorPass(list0: seq<Elem>, target: int) returns (list: seq<Elem>, ok: bool)
    requires Alternating(list0)
    ensures ok ==> Alternating(list) && |list| % 2 == |list0| % 2
    ensures ok && |list0| % 2 == 1 ==> list == Pass(list0, target)
    ensures |list0| % 2 == 0 && |list0| > 0 ==>
      (ok <==> list0[|list0| - 1].precedence != target) &&
      (ok ==> |list| > 0 && list[|list| - 1] == list0[|list0| - 1])
    ensures |list0| % 2 == 1 ==> ok
    ensures |list0| == 0 ==> ok && list == []
  {
    list := list0;
    var i := 1;
    while i < |list|
      invariant CursorInvariant(list0, list, i, target)
      decreases |list| - i
    {
      if list[i].BinOp? && list[i].precedence == target {
        if i + 1 >= |list| {
          CursorStuck(list0, list, i, target);
          return list, false;
        }
        CursorMatch(list0, list, i, target);
        list := ReduceAt(list, i);
      } else {
        CursorSkip(list0, list, i, target);
        i := i + 1;
      }
    }
    CursorDone(list0, list, i, target);
    ok := true;
  }

  /** Reducing at the cursor keeps the pass's result (the first branch of `Pass`, moved to position `i`). */
  lemma PassAtMatch(l: seq<Elem>, i: nat, p: int)
    requires WellFormed(l) && i % 2 == 1 && i + 1 < |l| && l[i].BinOp? && l[i].precedence == p
    ensures WellFormed(ReduceAt(l, i)[i - 1..])
    ensures WellFormed(l[i - 1..])
    ensures l[..i - 1] + Pass(l[i - 1..], p) == ReduceAt(l, i)[..i - 1] + Pass(ReduceAt(l, i)[i - 1..], p)
  {
    var t := l[i - 1..];
    AlternatingSlice(l, i - 1, |l|);
    ReduceAtShift(l, i);
    var r := ReduceAt(l, i);
    assert r[..i - 1] == l[..i - 1] && r[i - 1..] == ReduceAt(t, 1);
    assert t[1] == l[i];
    PassReducesHead(t, p);
  }

  /** The first branch of `Pass`: an operator of the pass's precedence is reduced. */
  lemma PassReducesHead(t: seq<Elem>, p: int)
    requires WellFormed(t) && |t| > 1 && t[1].BinOp? && t[1].precedence == p
    ensures Pass(t, p) == Pass(ReduceAt(t, 1), p)
  {
  }

  /** Reducing at position `i` touches only the suffix that starts at the left operand. */
  lemma ReduceAtShift(l: seq<Elem>, i: nat)
    requires Alternating(l) && i % 2 == 1 && i + 1 < |l|
    ensures Alternating(l[i - 1..])
    ensures ReduceAt(l, i) == l[..i - 1] + ReduceAt(l[i - 1..], 1)
  {
    var t := l[i - 1..];
    AlternatingSlice(l, i - 1, |l|);
    assert t[0] == l[i - 1] && t[1] == l[i] && t[2] == l[i + 1];
    assert t[3..] == l[i + 2..];
  }

  /** Stepping over an operator of another precedence keeps the pass's result (the last branch of `Pass`). */
  lemma PassAtSkip(l: seq<Elem>, i: nat, p: int)
    requires WellFormed(l) && i % 2 == 1 && i < |l| && l[i].precedence != p
    ensures WellFormed(l[i + 1..])
    ensures l[..i - 1] + Pass(l[i - 1..], p) == l[..i + 1] + Pass(l[i + 1..], p)
  {
    var t, rest := l[i - 1..], l[i + 1..];
    AlternatingSlice(l, i - 1, |l|);
    AlternatingSlice(l, i + 1, |l|);
    assert t[1] == l[i] && t[2..] == rest;
    PassSkipsHead(t, p);
    assert l[..i - 1] + t[..2] == l[..i + 1];
    Concat3(l[..i - 1], t[..2], Pass(rest, p));
  }

  /** The last branch of `Pass`: an operator of another precedence is stepped over. */
  lemma PassSkipsHead(t: seq<Elem>, p: int)
    requires WellFormed(t) && |t| > 1 && t[1].precedence != p
    ensures WellFormed(t[2..]) && Pass(t, p) == t[..2] + Pass(t[2..], p)
  {
    AlternatingSlice(t, 2, |t|);
  }

  lemma Concat3(a: seq<Elem>, b: seq<Elem>, c: seq<Elem>)
    ensures a + (b + c) == (a + b) + c
  {
  }

  /**
   * Lines 313-355: one cursor pass per precedence of `all`, in order, then
   * the single remaining operand is popped.
   */
  method ReduceList(list0: seq<Elem>, all: seq<int>) returns (r: Result<Expr, string>)
    requires Alternating(list0) && Covered(list0, all)
    ensures r == Reduced(list0, all)
  {
    var list := list0;
    for j := 0 to |all|
      invariant Alternating(list) && |list| % 2 == |list0| % 2
      invariant |list0| % 2 == 1 ==> ReduceAll(list0, all) == ReduceAll(list, all[j..])
      invariant |list0| % 2 == 0 && |list0| > 0 ==>
        |list| > 0 && list[|list| - 1] == list0[|list0| - 1] && list0[|list0| - 1].precedence in all[j..]
      invariant |list0| == 0 ==> list == []
    {
      var ok;
      list, ok := CursorPass(list, all[j]);
      if !ok {
        return Failure(MissingRightOperand);
      }
    }
    if |list| == 0 {
      return Failure(EmptyList);
    }
    ReduceAllSingle(list0, all);
    r := Success(list[0].expr);
  }

  // ---------------------------------------------------------------------
  // Properties

  /** The operators of a list, in order. */
  function Operators(l: seq<Elem>): seq<Elem> {
    if l == [] then [] else (if l[0].BinOp? then [l[0]] else []) + Operators(l[1..])
  }

  /** Whether `e` is an operator whose precedence is in `drop`. */
  predicate Dropped(e: Elem, drop: set<int>) {
    e.BinOp? && e.precedence in drop
  }

  /** The elements of `ops` that are not dropped operators, in order. */
  function Remaining(ops: seq<Elem>, drop: set<int>): seq<Elem> {
    if ops == [] then []
    else (if Dropped(ops[0], drop) then [] else [ops[0]]) + Remaining(ops[1..], drop)
  }

  lemma {:induction false} OperatorsMembers(l: seq<Elem>)
    ensures forall o :: o in Operators(l) ==> o in l && o.BinOp?
  {
    if l != [] {
      OperatorsMembers(l[1..]);
    }
  }

  lemma {:induction false} RemainingMembers(ops: seq<Elem>, drop: set<int>)
    ensures forall o :: o in Remaining(ops, drop) ==> o in ops && !Dropped(o, drop)
  {
    if ops != [] {
      RemainingMembers(ops[1..], drop);
    }
  }

  lemma {:induction false} OperatorsAppend(a: seq<Elem>, b: seq<Elem>)
    ensures Operators(a + b) == Operators(a) + Operators(b)
  {
    if a != [] {
      assert (a + b)[0] == a[0];
      assert (a + b)[1..] == a[1..] + b;
      OperatorsAppend(a[1..], b);
    } else {
      assert a + b == b;
    }
  }

  /** The operators of an operand followed by `rest` are those of `rest`. */
  lemma OperatorsAfterOperand(e: Expr, rest: seq<Elem>)
    ensures Operators([Operand(e)] + rest) == Operators(rest)
  {
    assert ([Operand(e)] + rest)[1..] == rest;
  }

  /** The operators of an alternating list: the one at position 1, then those after position 2. */
  lemma OperatorsOfChain(l: seq<Elem>)
    requires Alternating(l) && |l| >= 2
    ensures Operators(l) == [l[1]] + Operators(l[2..])
  {
    assert l[1..][1..] == l[2..];
    assert l[1..][0] == l[1];
  }

  /** A complete chain of n operators has length 2n + 1. */
  lemma {:induction false} ChainLength(l: seq<Elem>)
    requires WellFormed(l)
    ensures |l| == 2 * |Operators(l)| + 1
  {
    if |l| > 1 {
      AlternatingSlice(l, 2, |l|);
      ChainLength(l[2..]);
      OperatorsOfChain(l);
    }
  }

  lemma {:induction false} RemainingAppend(a: seq<Elem>, b: seq<Elem>, drop: set<int>)
    ensures Remaining(a + b, drop) == Remaining(a, drop) + Remaining(b, drop)
  {
    if a != [] {
      assert (a + b)[0] == a[0];
      assert (a + b)[1..] == a[1..] + b;
      RemainingAppend(a[1..], b, drop);
    } else {
      assert a + b == b;
    }
  }

  lemma {:induction false} RemainingTwice(ops: seq<Elem>, a: set<int>, b: set<int>)
    ensures Remaining(Remaining(ops, a), b) == Remaining(ops, a + b)
  {
    if ops != [] {
      var head := if Dropped(ops[0], a) then [] else [ops[0]];
      RemainingTwice(ops[1..], a, b);
      RemainingAppend(head, Remaining(ops[1..], a), b);
    }
  }

  /** After the pass for `p` exactly the operators of other precedences remain, in their order. */
  lemma {:induction false} PassOperators(l: seq<Elem>, p: int)
    requires WellFormed(l)
    ensures Operators(Pass(l, p)) == Remaining(Operators(l), {p})
    decreases |l|
  {
    if |l| > 1 {
      OperatorsOfChain(l);
      AlternatingSlice(l, 2, |l|);
      if l[1].precedence == p {
        var m := ReduceAt(l, 1);
        PassOperators(m, p);
        assert m == [m[0]] + l[3..];
        OperatorsAfterOperand(m[0].expr, l[3..]);
        assert l[2..] == [l[2]] + l[3..];
        OperatorsAfterOperand(l[2].expr, l[3..]);
        assert Pass(l, p) == Pass(m, p);
      } else {
        PassOperators(l[2..], p);
        assert Pass(l, p) == l[..2] + Pass(l[2..], p);
        OperatorsAppend(l[..2], Pass(l[2..], p));
        OperatorsOfChain(l[..2]);
        assert l[..2][2..] == [];
      }
    }
  }

  lemma {:induction false} RemainingNone(ops: seq<Elem>)
    ensures Remaining(ops, {}) == ops
  {
    if ops != [] {
      RemainingNone(ops[1..]);
    }
  }

  /** After all passes exactly the operators whose precedence was not visited remain, in their order. */
  lemma {:induction false} ReduceAllOperators(l: seq<Elem>, ps: seq<int>)
    requires WellFormed(l)
    ensures Operators(ReduceAll(l, ps)) == Remaining(Operators(l), set x | x in ps)
    decreases |ps|
  {
    if ps == [] {
      RemainingNone(Operators(l));
      assert (set x | x in ps) == {};
    } else {
      var l' := Pass(l, ps[0]);
      PassOperators(l, ps[0]);
      ReduceAllOperators(l', ps[1..]);
      RemainingTwice(Operators(l), {ps[0]}, set x | x in ps[1..]);
      assert {ps[0]} + (set x | x in ps[1..]) == set x | x in ps;
    }
  }

  /** Once every precedence has been visited, one operand is left. */
  lemma ReduceAllSingle(l: seq<Elem>, all: seq<int>)
    requires WellFormed(l) && Covered(l, all)
    ensures |ReduceAll(l, all)| == 1 && ReduceAll(l, all)[0].Operand?
  {
    ReduceAllOperators(l, all);
    OperatorsMembers(l);
    RemainingMembers(Operators(l), set x | x in all);
    assert Operators(ReduceAll(l, all)) == [];
    ChainLength(ReduceAll(l, all));
  }

  /** Every operator of the list is listed by `Operators`. */
  lemma {:induction false} OperatorsComplete(l: seq<Elem>, i: nat)
    requires i < |l| && l[i].BinOp?
    ensures l[i] in Operators(l)
  {
    if i > 0 {
      OperatorsComplete(l[1..], i - 1);
    }
  }

  /** After the pass for `p`, no operator of precedence `p` is left. */
  lemma PassRemovesBand(l: seq<Elem>, p: int)
    requires WellFormed(l)
    ensures forall i :: 0 <= i < |Pass(l, p)| && Pass(l, p)[i].BinOp? ==> Pass(l, p)[i].precedence != p
  {
    PassOperators(l, p);
    RemainingMembers(Operators(l), {p});
    forall i | 0 <= i < |Pass(l, p)| && Pass(l, p)[i].BinOp?
      ensures Pass(l, p)[i].precedence != p
    {
      OperatorsComplete(Pass(l, p), i);
    }
  }

  /** A pass for a precedence no operator has changes nothing; in particular a pass is idempotent. */
  lemma {:induction false} PassIdle(l: seq<Elem>, p: int)
    requires WellFormed(l)
    requires forall i :: 0 <= i < |l| && l[i].BinOp? ==> l[i].precedence != p
    ensures Pass(l, p) == l
    decreases |l|
  {
    if |l| > 1 {
      AlternatingSlice(l, 2, |l|);
      PassIdle(l[2..], p);
    }
  }

  lemma PassIdempotent(l: seq<Elem>, p: int)
    requires WellFormed(l)
    ensures Pass(Pass(l, p), p) == Pass(l, p)
  {
    PassRemovesBand(l, p);
    PassIdle(Pass(l, p), p);
  }

  // ---------------------------------------------------------------------
  // In-order flattening and node count

  /** A token of the in-order reading of a tree or of a flat list. */
  datatype Token = Leaf(expr: Expr) | Op(ident: Identifier)

  /** The in-order reading of an expression: `Binary` nodes are read as left, operator, right. */
  function FlattenExpr(e: Expr): seq<Token> {
    match e
    case Binary(o, a, b) => FlattenExpr(a) + [Op(o)] + FlattenExpr(b)
    case _ => [Leaf(e)]
  }

  function FlattenElem(x: Elem): seq<Token> {
    match x
    case Operand(e) => FlattenExpr(e)
    case BinOp(o, _) => [Op(o)]
  }

  /** The in-order reading of a flat list. */
  function Flatten(l: seq<Elem>): seq<Token> {
    if l == [] then [] else FlattenElem(l[0]) + Flatten(l[1..])
  }

  lemma {:induction false} FlattenAppend(a: seq<Elem>, b: seq<Elem>)
    ensures Flatten(a + b) == Flatten(a) + Flatten(b)
  {
    if a != [] {
      assert (a + b)[0] == a[0];
      assert (a + b)[1..] == a[1..] + b;
      FlattenAppend(a[1..], b);
    } else {
      assert a + b == b;
    }
  }

  /** Reading the first three elements of a chain. */
  lemma FlattenChain(l: seq<Elem>)
    requires Alternating(l) && |l| >= 3
    ensures Flatten(l) == FlattenExpr(l[0].expr) + [Op(l[1].ident)] + FlattenExpr(l[2].expr) + Flatten(l[3..])
  {
    var x, y, z := l[0], l[1], l[2];
    assert x.Operand? && y.BinOp? && z.Operand?;
    var head, rest := [x, y, z], l[3..];
    assert l == head + rest;
    FlattenAppend(head, rest);
    FlattenThree(x, y, z);
    Regroup(FlattenExpr(x.expr), [Op(y.ident)], FlattenExpr(z.expr), Flatten(rest));
  }

  /** The reading of a three-element list: operand, operator, operand. */
  lemma FlattenThree(x: Elem, y: Elem, z: Elem)
    requires x.Operand? && y.BinOp? && z.Operand?
    ensures Flatten([x, y, z]) == FlattenExpr(x.expr) + ([Op(y.ident)] + FlattenExpr(z.expr))
  {
    assert [x, y, z][1..] == [y, z] && [y, z][1..] == [z] && [z][1..] == [];
    assert Flatten([z]) == FlattenExpr(z.expr) by { assert Flatten([z]) == FlattenElem(z) + Flatten([]); }
  }

  /** Regrouping a concatenation of four readings. */
  lemma Regroup(a: seq<Token>, o: seq<Token>, b: seq<Token>, c: seq<Token>)
    ensures a + (o + b) + c == a + o + b + c
  {
  }

  /** A pass keeps the in-order reading. */
  lemma {:induction false} PassFlatten(l: seq<Elem>, p: int)
    requires WellFormed(l)
    ensures Flatten(Pass(l, p)) == Flatten(l)
    decreases |l|
  {
    if |l| > 1 {
      AlternatingSlice(l, 2, |l|);
      if l[1].precedence == p {
        var m := ReduceAt(l, 1);
        PassFlatten(m, p);
        FlattenChain(l);
        assert m == [m[0]] + l[3..];
        FlattenAppend([m[0]], l[3..]);
      } else {
        PassFlatten(l[2..], p);
        FlattenAppend(l[..2], Pass(l[2..], p));
        FlattenAppend(l[..2], l[2..]);
        assert l == l[..2] + l[2..];
      }
    }
  }

  lemma {:induction false} ReduceAllFlatten(l: seq<Elem>, ps: seq<int>)
    requires WellFormed(l)
    ensures Flatten(ReduceAll(l, ps)) == Flatten(l)
    decreases |ps|
  {
    if ps != [] {
      PassFlatten(l, ps[0]);
      ReduceAllFlatten(Pass(l, ps[0]), ps[1..]);
    }
  }

  /** The number of `Binary` nodes of an expression. */
  function Binaries(e: Expr): nat {
    match e
    case Binary(_, a, b) => 1 + Binaries(a) + Binaries(b)
    case _ => 0
  }

  /** The `Binary` nodes already inside the operands of a list. */
  function NestedBinaries(l: seq<Elem>): nat {
    if l == [] then 0
    else (if l[0].Operand? then Binaries(l[0].expr) else 0) + NestedBinaries(l[1..])
  }

  lemma NestedBinariesChain(l: seq<Elem>)
    requires Alternating(l) && |l| >= 3
    ensures NestedBinaries(l) == Binaries(l[0].expr) + Binaries(l[2].expr) + NestedBinaries(l[3..])
  {
    assert l[1..][1..] == l[2..];
    assert l[2..][1..] == l[3..];
  }

  lemma NestedBinariesSkip(l: seq<Elem>)
    requires Alternating(l) && |l| >= 2
    ensures NestedBinaries(l) == Binaries(l[0].expr) + NestedBinaries(l[2..])
    ensures NestedBinaries(l[..2] + l[2..]) == NestedBinaries(l)
  {
    assert l[1..][1..] == l[2..];
    assert l == l[..2] + l[2..];
  }

  /** A pass turns each operator it removes into exactly one `Binary` node. */
  lemma {:induction false} PassBinaries(l: seq<Elem>, p: int)
    requires WellFormed(l)
    ensures NestedBinaries(Pass(l, p)) + |Operators(Pass(l, p))| == NestedBinaries(l) + |Operators(l)|
    decreases |l|
  {
    if |l| > 1 {
      AlternatingSlice(l, 2, |l|);
      OperatorsOfChain(l);
      if l[1].precedence == p {
        var m := ReduceAt(l, 1);
        PassBinaries(m, p);
        NestedBinariesChain(l);
        assert m[1..] == l[3..];
        assert l[2..] == [l[2]] + l[3..];
        OperatorsAfterOperand(l[2].expr, l[3..]);
        OperatorsAfterOperand(m[0].expr, l[3..]);
        assert m == [m[0]] + l[3..];
      } else {
        var rest := Pass(l[2..], p);
        PassBinaries(l[2..], p);
        assert Pass(l, p) == l[..2] + rest;
        assert (l[..2] + rest)[2..] == rest;
        AlternatingAppend(l[..2], rest);
        NestedBinariesSkip(l[..2] + rest);
        NestedBinariesSkip(l);
        OperatorsOfChain(l[..2] + rest);
      }
    }
  }

  lemma {:induction false} ReduceAllBinaries(l: seq<Elem>, ps: seq<int>)
    requires WellFormed(l)
    ensures NestedBinaries(ReduceAll(l, ps)) + |Operators(ReduceAll(l, ps))| == NestedBinaries(l) + |Operators(l)|
    decreases |ps|
  {
    if ps != [] {
      PassBinaries(l, ps[0]);
      ReduceAllBinaries(Pass(l, ps[0]), ps[1..]);
    }
  }

  /**
   * The reduction's result reads, in order, as the operands and operators
   * it was given, and holds one new `Binary` node per operator.
   */
  lemma ReducedTree(l: seq<Elem>, all: seq<int>)
    requires Alternating(l) && Covered(l, all)
    requires Reduced(l, all).Success?
    ensures FlattenExpr(Reduced(l, all).value) == Flatten(l)
    ensures Binaries(Reduced(l, all).value) == NestedBinaries(l) + |Operators(l)|
  {
    var r := ReduceAll(l, all);
    ReduceAllSingle(l, all);
    ReduceAllFlatten(l, all);
    ReduceAllBinaries(l, all);
    assert r == [r[0]];
    assert Flatten(r) == FlattenExpr(r[0].expr) by {
      assert r[1..] == [];
    }
    ChainLength(r);
    assert NestedBinaries(r) == Binaries(r[0].expr) by {
      assert r[1..] == [];
    }
  }

  /** The reduction fails exactly on an empty list or a list that ends in an operator. */
  lemma ReducedFails(l: seq<Elem>, all: seq<int>)
    requires Alternating(l) && Covered(l, all)
    ensures Reduced(l, all).Failure? <==> |l| % 2 == 0
  {
  }

  // ---------------------------------------------------------------------
  // Associativity within a band

  /** The left-associative tree of a chain: its last operator is the root. */
  function LeftFold(l: seq<Elem>): Expr
    requires WellFormed(l)
    decreases |l|
  {
    if |l| == 1 then l[0].expr
    else
      AlternatingSlice(l, 0, |l| - 2);
      Binary(l[|l| - 2].ident, LeftFold(l[..|l| - 2]), l[|l| - 1].expr)
  }

  /** A chain extended by one operator and one operand is a chain. */
  lemma ChainExtend(m: seq<Elem>, o: Identifier, q: int, e: Expr)
    requires WellFormed(m)
    ensures WellFormed(m + [BinOp(o, q), Operand(e)])
  {
    var l := m + [BinOp(o, q), Operand(e)];
    forall i | 0 <= i < |l| ensures l[i].Operand? <==> i % 2 == 0 {
      if i < |m| { assert l[i] == m[i]; }
    }
  }

  /** Reducing inside a prefix leaves what follows the prefix alone. */
  lemma ReduceAtAppend(a: seq<Elem>, b: seq<Elem>, i: nat)
    requires Alternating(a) && Alternating(a + b) && i % 2 == 1 && i + 1 < |a|
    ensures ReduceAt(a + b, i) == ReduceAt(a, i) + b
  {
    var c := a + b;
    assert c[i - 1] == a[i - 1] && c[i] == a[i] && c[i + 1] == a[i + 1];
    assert c[..i - 1] == a[..i - 1];
    assert c[i + 2..] == a[i + 2..] + b;
  }

  /** A pass finishes its work on a prefix before it looks at what follows. */
  lemma {:induction false} PassSnoc(m: seq<Elem>, o: Identifier, q: int, e: Expr, p: int)
    requires WellFormed(m)
    ensures WellFormed(m + [BinOp(o, q), Operand(e)])
    ensures WellFormed(Pass(m, p) + [BinOp(o, q), Operand(e)])
    ensures Pass(m + [BinOp(o, q), Operand(e)], p) == Pass(Pass(m, p) + [BinOp(o, q), Operand(e)], p)
    decreases |m|
  {
    var t := [BinOp(o, q), Operand(e)];
    ChainExtend(m, o, q, e);
    ChainExtend(Pass(m, p), o, q, e);
    if |m| > 1 {
      AlternatingSlice(m, 2, |m|);
      assert (m + t)[1] == m[1];
      if m[1].precedence == p {
        var m' := ReduceAt(m, 1);
        PassSnoc(m', o, q, e, p);
        ReduceAtAppend(m, t, 1);
        PassReducesHead(m + t, p);
        PassReducesHead(m, p);
      } else {
        PassSnoc(m[2..], o, q, e, p);
        assert (m + t)[2..] == m[2..] + t;
        assert (m + t)[..2] == m[..2];
        PassSkipsHead(m + t, p);
        PassSkipsHead(m, p);
        var rest := Pass(m[2..], p);
        var u := Pass(m, p) + t;
        Concat3(m[..2], rest, t);
        assert u[1] == m[1] && u[..2] == m[..2] && u[2..] == rest + t;
        PassSkipsHead(u, p);
      }
    }
  }

  /** Within one band a pass builds the left-associative tree. */
  lemma {:induction false} PassUniform(l: seq<Elem>, p: int)
    requires WellFormed(l)
    requires forall i :: 0 <= i < |l| && l[i].BinOp? ==> l[i].precedence == p
    ensures Pass(l, p) == [Operand(LeftFold(l))]
    decreases |l|
  {
    if |l| > 1 {
      var m := l[..|l| - 2];
      var o, e := l[|l| - 2].ident, l[|l| - 1].expr;
      AlternatingSlice(l, 0, |l| - 2);
      PassUniform(m, p);
      assert l == m + [BinOp(o, p), Operand(e)];
      PassSnoc(m, o, p, e, p);
      var t := [Operand(LeftFold(m)), BinOp(o, p), Operand(e)];
      assert Pass(m, p) + [BinOp(o, p), Operand(e)] == t;
      assert ReduceAt(t, 1) == [Operand(LeftFold(l))];
    }
  }

  /** `a o1 b o2 c` with both operators in one band reduces to `(a o1 b) o2 c`. */
  lemma LeftAssociative(a: Expr, b: Expr, c: Expr, o1: Identifier, o2: Identifier, p: int)
    ensures var l := [Operand(a), BinOp(o1, p), Operand(b), BinOp(o2, p), Operand(c)];
      Alternating(l) && Covered(l, PrecedenceSet(l)) &&
      Reduced(l, PrecedenceSet(l)) == Success(Binary(o2, Binary(o1, a, b), c))
  {
    var l := [Operand(a), BinOp(o1, p), Operand(b), BinOp(o2, p), Operand(c)];
    assert Precedences(l) == {p} by {
      assert l[1].precedence == p;
      forall x | x in Precedences(l) ensures x == p {
        var i :| 0 <= i < |l| && l[i].BinOp? && l[i].precedence == x;
      }
    }
    IncreasingUnique(PrecedenceSet(l), [p]);
    PassUniform(l, p);
    assert l[..3][..1] == [Operand(a)];
    assert LeftFold(l[..3]) == Binary(o1, a, b);
    assert LeftFold(l) == Binary(o2, Binary(o1, a, b), c);
    assert ReduceAll(l, [p]) == Pass(l, p);
  }

  /** The list of `a + b * c - d` with the two precedence values. */
  function MixedChain(n2: Expr, n3: Expr, n4: Expr, n1: Expr, plus: Identifier, times: Identifier, minus: Identifier, tight: int, loose: int): seq<Elem> {
    [Operand(n2), BinOp(plus, loose), Operand(n3), BinOp(times, tight), Operand(n4), BinOp(minus, loose), Operand(n1)]
  }

  /** Its ordered precedence set is the two values, the smaller first. */
  lemma MixedChainBands(n2: Expr, n3: Expr, n4: Expr, n1: Expr, plus: Identifier, times: Identifier, minus: Identifier, tight: int, loose: int)
    requires tight < loose
    ensures PrecedenceSet(MixedChain(n2, n3, n4, n1, plus, times, minus, tight, loose)) == [tight, loose]
  {
    var l := MixedChain(n2, n3, n4, n1, plus, times, minus, tight, loose);
    assert Precedences(l) == {tight, loose} by {
      assert l[1].precedence == loose && l[3].precedence == tight;
      forall x | x in Precedences(l) ensures x == tight || x == loose {
        var i :| 0 <= i < |l| && l[i].BinOp? && l[i].precedence == x;
      }
    }
    IncreasingUnique(PrecedenceSet(l), [tight, loose]);
  }

  /** The pass for the smaller value reduces only `b * c`. */
  lemma MixedChainTightPass(n2: Expr, n3: Expr, n4: Expr, n1: Expr, plus: Identifier, times: Identifier, minus: Identifier, tight: int, loose: int)
    requires tight < loose
    ensures Pass(MixedChain(n2, n3, n4, n1, plus, times, minus, tight, loose), tight) ==
      [Operand(n2), BinOp(plus, loose), Operand(Binary(times, n3, n4)), BinOp(minus, loose), Operand(n1)]
  {
    var l := MixedChain(n2, n3, n4, n1, plus, times, minus, tight, loose);
    var b := Operand(Binary(times, n3, n4));
    var t := l[2..];
    AlternatingSlice(l, 2, |l|);
    assert t[1].precedence == tight;
    assert ReduceAt(t, 1) == [b, BinOp(minus, loose), Operand(n1)];
    assert Pass([b, BinOp(minus, loose), Operand(n1)], tight) == [b, BinOp(minus, loose), Operand(n1)] by {
      assert [b, BinOp(minus, loose), Operand(n1)][2..] == [Operand(n1)];
    }
    assert Pass(t, tight) == [b, BinOp(minus, loose), Operand(n1)];
  }

  /**
   * `2 + 3 * 4 - 1` where `*` has a smaller precedence value than `+` and
   * `-` (so its band is reduced first) reduces to `(2 + (3 * 4)) - 1`.
   */
  lemma TighterBandFirst(n2: Expr, n3: Expr, n4: Expr, n1: Expr, plus: Identifier, times: Identifier, minus: Identifier, tight: int, loose: int)
    requires tight < loose
    ensures var l := MixedChain(n2, n3, n4, n1, plus, times, minus, tight, loose);
      Alternating(l) && Covered(l, PrecedenceSet(l)) &&
      Reduced(l, PrecedenceSet(l)) == Success(Binary(minus, Binary(plus, n2, Binary(times, n3, n4)), n1))
  {
    var l := MixedChain(n2, n3, n4, n1, plus, times, minus, tight, loose);
    MixedChainBands(n2, n3, n4, n1, plus, times, minus, tight, loose);
    MixedChainTightPass(n2, n3, n4, n1, plus, times, minus, tight, loose);
    PrecedenceSetCovers(l);
    var after := [Operand(n2), BinOp(plus, loose), Operand(Binary(times, n3, n4)), BinOp(minus, loose), Operand(n1)];
    LooseLeftFold(n2, Binary(times, n3, n4), n1, plus, minus, loose);
    assert [tight, loose][1..] == [loose];
    assert ReduceAll(l, [tight, loose]) == ReduceAll(after, [loose]);
    assert [loose][1..] == [];
  }

  /** The remaining pass folds `a + bc - d` from the left. */
  lemma LooseLeftFold(n2: Expr, bc: Expr, n1: Expr, plus: Identifier, minus: Identifier, loose: int)
    ensures var after := [Operand(n2), BinOp(plus, loose), Operand(bc), BinOp(minus, loose), Operand(n1)];
      WellFormed(after) && Pass(after, loose) == [Operand(Binary(minus, Binary(plus, n2, bc), n1))]
  {
    var after := [Operand(n2), BinOp(plus, loose), Operand(bc), BinOp(minus, loose), Operand(n1)];
    PassUniform(after, loose);
    assert after[..3][..1] == [Operand(n2)];
    assert LeftFold(after[..3]) == Binary(plus, n2, bc);
  }
}
