/** Non-associative sums and products as binary expression trees, with the
    left-nested folding that builds them and the two rotations that
    re-associate them (src/ltitop/algorithms/expressions/arithmetic.py). */
module Expressions {
  import opened Errors

  /** `NonAssociativeAdd` and `NonAssociativeMul`. */
  datatype Op = Add | Mul

  /** An expression: an atom, or a binary node of one of the operators. */
  datatype Expr =
    | Const(c: int)
    | Symbol(name: string)
    | Node(op: Op, left: Expr, right: Expr)

  /** `basefunc.identity`: 0 for a sum, 1 for a product. */
  function Identity(op: Op): Expr {
    match op
    case Add => Const(0)
    case Mul => Const(1)
  }

  /** `_from_args(args)`: the identity for no arguments, the argument itself
      for one, and otherwise the fold of all but the last, combined with the
      last, so that [a, b, c] becomes (a o b) o c. */
  function FromArgs(op: Op, args: seq<Expr>): (e: Expr)
    ensures |args| == 0 ==> e == Identity(op)
    ensures |args| == 1 ==> e == args[0]
    ensures |args| >= 2 ==> e.Node? && e.op == op && e.right == args[|args| - 1]
    decreases |args|
  {
    if |args| == 0 then Identity(op)
    else if |args| == 1 then args[0]
    else Node(op, FromArgs(op, args[..|args| - 1]), args[|args| - 1])
  }

  /** The operands along the left spine of op-nodes, leftmost first: what a
      left-nested fold was built from. */
  function Operands(op: Op, e: Expr): (s: seq<Expr>)
    ensures |s| >= 1
  {
    if e.Node? && e.op == op then Operands(op, e.left) + [e.right] else [e]
  }

  /** Whether e is a node of operator op (`func is cls`). */
  predicate IsOp(op: Op, e: Expr) {
    e.Node? && e.op == op
  }

  /** Folding the operands of any expression rebuilds it. */
  lemma {:induction false} FromOperands(op: Op, e: Expr)
    ensures FromArgs(op, Operands(op, e)) == e
  {
    if IsOp(op, e) {
      var s := Operands(op, e.left);
      FromOperands(op, e.left);
      assert Operands(op, e) == s + [e.right];
      assert (s + [e.right])[..|s|] == s;
    }
  }

  /** Unfolding a left-nested fold recovers its arguments, as long as the
      first is not itself a node of the same operator (which it would be
      unfolded into). */
  lemma {:induction false} OperandsOfFold(op: Op, args: seq<Expr>)
    requires |args| >= 1 && !IsOp(op, args[0])
    ensures Operands(op, FromArgs(op, args)) == args
  {
    if |args| > 1 {
      var init := args[..|args| - 1];
      assert init[0] == args[0];
      OperandsOfFold(op, init);
      assert init + [args[|args| - 1]] == args;
    }
  }

  /** The atoms of an expression, left to right. */
  function Leaves(e: Expr): (s: seq<Expr>)
    ensures |s| >= 1
  {
    match e
    case Node(_, l, r) => Leaves(l) + Leaves(r)
    case _ => [e]
  }

  /** The leaves of a list of expressions, one after the other. */
  function LeavesOf(args: seq<Expr>): seq<Expr>
    decreases |args|
  {
    if |args| == 0 then [] else LeavesOf(args[..|args| - 1]) + Leaves(args[|args| - 1])
  }

  /** A fold keeps its arguments' leaves in order. */
  lemma {:induction false} FoldKeepsLeaves(op: Op, args: seq<Expr>)
    requires |args| >= 1
    ensures Leaves(FromArgs(op, args)) == LeavesOf(args)
  {
    if |args| == 1 {
      assert args[..0] == [];
    } else {
      FoldKeepsLeaves(op, args[..|args| - 1]);
    }
  }

  // ---- Rotations ----

  /** `can_rotate_left(e)`: the right child is a node of the same operator.
      An atom has no children, so looking one up raises IndexError. */
  function CanRotateLeft(e: Expr): (r: Result<bool>)
    ensures r.Err? <==> !e.Node?
    ensures r.Err? ==> r.error == IndexError
    ensures r.Ok? ==> (r.value <==> IsOp(e.op, e.right))
  {
    if !e.Node? then Err(IndexError) else Ok(IsOp(e.op, e.right))
  }

  /** `can_rotate_right(e)`: the left child is a node of the same operator. */
  function CanRotateRight(e: Expr): (r: Result<bool>)
    ensures r.Err? <==> !e.Node?
    ensures r.Err? ==> r.error == IndexError
    ensures r.Ok? ==> (r.value <==> IsOp(e.op, e.left))
  {
    if !e.Node? then Err(IndexError) else Ok(IsOp(e.op, e.left))
  }

  /** `rotate_left(a o (b o c))` = (a o b) o c; ValueError when the right
      child is not a node of the same operator. */
  function RotateLeft(e: Expr): (r: Result<Expr>)
    ensures r.Ok? <==> CanRotateLeft(e) == Ok(true)
    ensures CanRotateLeft(e) == Ok(false) ==> r == Err(ValueError)
    ensures !e.Node? ==> r == Err(IndexError)
    ensures r.Ok? ==> Leaves(r.value) == Leaves(e)
  {
    if !e.Node? then Err(IndexError)
    else if !IsOp(e.op, e.right) then Err(ValueError)
    else Ok(Node(e.op, Node(e.op, e.left, e.right.left), e.right.right))
  }

  /** `rotate_right((a o b) o c)` = a o (b o c); ValueError when the left
      child is not a node of the same operator. */
  function RotateRight(e: Expr): (r: Result<Expr>)
    ensures r.Ok? <==> CanRotateRight(e) == Ok(true)
    ensures CanRotateRight(e) == Ok(false) ==> r == Err(ValueError)
    ensures !e.Node? ==> r == Err(IndexError)
    ensures r.Ok? ==> Leaves(r.value) == Leaves(e)
  {
    if !e.Node? then Err(IndexError)
    else if !IsOp(e.op, e.left) then Err(ValueError)
    else Ok(Node(e.op, e.left.left, Node(e.op, e.left.right, e.right)))
  }

  /** The rotations undo each other. */
  lemma RotationsInverse(e: Expr)
    ensures RotateLeft(e).Ok? ==> RotateRight(RotateLeft(e).value) == Ok(e)
    ensures RotateRight(e).Ok? ==> RotateLeft(RotateRight(e).value) == Ok(e)
  {
  }

  /** Rotating a left-nested fold of three or more operands to the right
      moves its last two operands into a right-nested pair. */
  lemma RotateFold(op: Op, a: Expr, b: Expr, c: Expr)
    ensures RotateRight(FromArgs(op, [a, b, c])) == Ok(Node(op, a, Node(op, b, c)))
    ensures RotateLeft(Node(op, a, Node(op, b, c))) == Ok(FromArgs(op, [a, b, c]))
  {
    assert [a, b, c][..2] == [a, b];
    assert [a, b][..1] == [a];
  }

  // ---- Meaning ----

  /** The exact value of an expression, symbols read from env. Exact
      arithmetic is associative; the trees exist to fix an evaluation order
      for arithmetic that is not. */
  function Eval(e: Expr, env: string -> real): real {
    match e
    case Const(c) => c as real
    case Symbol(n) => env(n)
    case Node(Add, l, r) => Eval(l, env) + Eval(r, env)
    case Node(Mul, l, r) => Eval(l, env) * Eval(r, env)
  }

  lemma MulAssociates(x: real, y: real, z: real)
    ensures (x * y) * z == x * (y * z)
  {
  }

  /** Over exact arithmetic a rotation does not change the value. */
  lemma RotateLeftKeepsValue(e: Expr, env: string -> real)
    requires RotateLeft(e).Ok?
    ensures Eval(RotateLeft(e).value, env) == Eval(e, env)
  {
    var a, b, c := Eval(e.left, env), Eval(e.right.left, env), Eval(e.right.right, env);
    if e.op == Mul {
      MulAssociates(a, b, c);
    }
  }

  lemma RotateRightKeepsValue(e: Expr, env: string -> real)
    requires RotateRight(e).Ok?
    ensures Eval(RotateRight(e).value, env) == Eval(e, env)
  {
    var a, b, c := Eval(e.left.left, env), Eval(e.left.right, env), Eval(e.right, env);
    if e.op == Mul {
      MulAssociates(a, b, c);
    }
  }
}
