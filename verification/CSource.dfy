/** The C subset the converter accepts, as the abstract syntax the clang front end
    hands over, together with a reference semantics taken from C11.

    Integers are 32-bit. Signed overflow, which C11 leaves undefined, is given the
    wrapped result, so a statement proved here covers more executions than C11 asks for.
    Operands are evaluated from left to right, which C11 leaves open; `&&` and `||` evaluate
    both operands, as the project documents. */
module CSource {
  import opened Wrappers

  datatype BinOp =
    | Assign
    | Add | Sub | Mul | Div | Rem
    | LT | GT | LE | GE | EQ | NE
    | LAnd | LOr
    | OtherBin

  datatype UnOp = Minus | LNot | OtherUn

  datatype Expr =
    | Lit(n: int)
    | Var(x: string)
    | Bin(op: BinOp, l: Expr, r: Expr)
    | Un(uop: UnOp, e: Expr)
    | Call(f: string, args: seq<Expr>)
    | Paren(inner: Expr)
    | Cast(inner: Expr)
    | OtherExpr

  datatype Stmt =
    | Compound(body: seq<Stmt>)
    | Return(value: Option<Expr>)
    | Decl(x: string, init: Option<Expr>)
    | If(cond: Expr, thn: Stmt, els: Option<Stmt>)
    | While(cond: Expr, loop: Stmt)
    | ExprStmt(expr: Expr)
    | OtherStmt(children: seq<Stmt>)

  /** Return type of a function: `int` or `void`. */
  datatype CType = CInt | CVoid

  datatype Function = Function(name: string, params: seq<string>, ret: CType, body: Option<Stmt>)

  // ----- values -----

  const TWO31: int := 0x8000_0000
  const TWO32: int := 0x1_0000_0000

  function Wrap32(n: int): (r: int)
    ensures -TWO31 <= r < TWO31
    ensures -TWO31 <= n < TWO31 ==> r == n
  {
    (n + TWO31) % TWO32 - TWO31
  }

  /** C's `/` rounds toward zero (section 6.5.5 of C11). */
  function TruncDiv(a: int, b: int): int
    requires b != 0
  {
    if a >= 0 then (if b > 0 then a / b else -(a / -b))
    else (if b > 0 then -(-a / b) else -a / -b)
  }

  function TruncRem(a: int, b: int): int
    requires b != 0
  {
    a - TruncDiv(a, b) * b
  }

  function Truth(b: bool): int { if b then 1 else 0 }

  /** Value of a binary operator on two `int` operands; None where it is undefined. */
  function BinValue(op: BinOp, a: int, b: int): Option<int> {
    match op
    case Add => Some(Wrap32(a + b))
    case Sub => Some(Wrap32(a - b))
    case Mul => Some(Wrap32(a * b))
    case Div => if b == 0 || (a == -TWO31 && b == -1) then None else Some(Wrap32(TruncDiv(a, b)))
    case Rem => if b == 0 || (a == -TWO31 && b == -1) then None else Some(Wrap32(TruncRem(a, b)))
    case LT => Some(Truth(a < b))
    case GT => Some(Truth(a > b))
    case LE => Some(Truth(a <= b))
    case GE => Some(Truth(a >= b))
    case EQ => Some(Truth(a == b))
    case NE => Some(Truth(a != b))
    case LAnd => Some(Truth(a != 0 && b != 0))
    case LOr => Some(Truth(a != 0 || b != 0))
    case Assign => None
    case OtherBin => None
  }

  function UnValue(op: UnOp, a: int): Option<int> {
    match op
    case Minus => Some(Wrap32(-a))
    case LNot => Some(Truth(a == 0))
    case OtherUn => None
  }

  // ----- evaluation -----

  /** One call to a function outside the module. */
  datatype Event = Event(f: string, args: seq<int>)

  /** How a call ends: with a value after further outside calls, not within the bounds it is
      given, or in something C leaves undefined. */
  datatype Answer = Answered(n: int, after: seq<Event>) | Unanswered | Invalid

  /** What happens in a call, given every outside call before. */
  type World = (seq<Event>, string, seq<int>) -> Answer

  /** Objects are named by locations; a location without a value is indeterminate. */
  datatype CState = CState(store: map<nat, int>, next: nat, trace: seq<Event>)

  type Env = map<string, nat>

  /** `Pending` is the result of an expression in which a call is not answered. */
  datatype ExprResult = Value(n: int, st: CState) | Undefined | Pending
  datatype ArgsResult = Values(ns: seq<int>, ast: CState) | ArgsUndefined | ArgsPending

  /** The variable an lvalue names: an identifier, possibly in parentheses. */
  function LValue(e: Expr): Option<string> {
    match e
    case Var(x) => Some(x)
    case Paren(i) => LValue(i)
    case Cast(i) => LValue(i)
    case _ => None
  }

  function EvalExpr(e: Expr, env: Env, st: CState, w: World): ExprResult
    decreases e, 1
  {
    match e
    case Lit(n) => if 0 <= n < TWO31 then Value(n, st) else Undefined
    case Var(x) => if x in env && env[x] in st.store then Value(st.store[env[x]], st) else Undefined
    case Paren(i) => EvalExpr(i, env, st, w)
    case Cast(i) => EvalExpr(i, env, st, w)
    case Un(op, i) =>
      (match EvalExpr(i, env, st, w)
       case Undefined => Undefined
       case Pending => Pending
       case Value(n, st1) =>
         match UnValue(op, n)
         case None => Undefined
         case Some(v) => Value(v, st1))
    case Bin(op, l, r) =>
      if op == Assign then
        if LValue(l).None? || LValue(l).value !in env then Undefined
        else
          match EvalExpr(r, env, st, w)
          case Undefined => Undefined
          case Pending => Pending
          case Value(n, st1) => Value(n, st1.(store := st1.store[env[LValue(l).value] := n]))
      else
        (match EvalExpr(l, env, st, w)
         case Undefined => Undefined
         case Pending => Pending
         case Value(a, st1) =>
           match EvalExpr(r, env, st1, w)
           case Undefined => Undefined
           case Pending => Pending
           case Value(b, st2) =>
             match BinValue(op, a, b)
             case None => Undefined
             case Some(v) => Value(v, st2))
    case Call(f, args) =>
      (match EvalArgs(args, env, st, w)
       case ArgsUndefined => Undefined
       case ArgsPending => Pending
       case Values(ns, st1) =>
         match w(st1.trace, f, ns)
         case Answered(n, after) => Value(Wrap32(n), st1.(trace := after))
         case Unanswered => Pending
         case Invalid => Undefined)
    case OtherExpr => Undefined
  }

  function EvalArgs(args: seq<Expr>, env: Env, st: CState, w: World): ArgsResult
    decreases args, 0
  {
    if args == [] then Values([], st)
    else
      match EvalExpr(args[0], env, st, w)
      case Undefined => ArgsUndefined
      case Pending => ArgsPending
      case Value(n, st1) =>
        match EvalArgs(args[1..], env, st1, w)
        case ArgsUndefined => ArgsUndefined
        case ArgsPending => ArgsPending
        case Values(ns, st2) => Values([n] + ns, st2)
  }

  /** Outcome of a statement. `OutOfFuel` means the run made more loop iterations than
      the fuel allows, or is in a call that is not answered. */
  datatype Outcome =
    | Normal(env: Env, st: CState)
    | Returned(value: Option<int>, trace: seq<Event>)
    | OutOfFuel
    | Wrong

  function EvalStmt(s: Stmt, env: Env, st: CState, w: World, fuel: nat): Outcome
    decreases fuel, s, 1
  {
    match s
    case Compound(body) =>
      (match EvalSeq(body, env, st, w, fuel)
       case Normal(_, st1) => Normal(env, st1)     // the block's own names go out of scope
       case other => other)
    case Return(None) => Returned(None, st.trace)
    case Return(Some(e)) =>
      (match EvalExpr(e, env, st, w)
       case Undefined => Wrong
       case Pending => OutOfFuel
       case Value(n, st1) => Returned(Some(n), st1.trace))
    case Decl(x, init) =>
      var env1 := env[x := st.next];
      var st1 := st.(next := st.next + 1, store := st.store - {st.next});
      (match init
       case None => Normal(env1, st1)
       case Some(e) =>
         match EvalExpr(e, env1, st1, w)
         case Undefined => Wrong
         case Pending => OutOfFuel
         case Value(n, st2) => Normal(env1, st2.(store := st2.store[env1[x] := n])))
    case If(c, t, els) =>
      (match EvalExpr(c, env, st, w)
       case Undefined => Wrong
       case Pending => OutOfFuel
       case Value(n, st1) =>
         if n != 0 then LeaveScope(env, EvalStmt(t, env, st1, w, fuel))
         else
           match els
           case None => Normal(env, st1)
           case Some(e) => LeaveScope(env, EvalStmt(e, env, st1, w, fuel)))
    case While(c, b) =>
      if fuel == 0 then OutOfFuel
      else
        (match EvalExpr(c, env, st, w)
         case Undefined => Wrong
         case Pending => OutOfFuel
         case Value(n, st1) =>
           if n == 0 then Normal(env, st1)
           else
             match EvalStmt(b, env, st1, w, fuel - 1)
             case Normal(_, st2) => EvalStmt(s, env, st2, w, fuel - 1)
             case other => other)
    case ExprStmt(e) =>
      (match EvalExpr(e, env, st, w)
       case Undefined => Wrong
       case Pending => OutOfFuel
       case Value(_, st1) => Normal(env, st1))
    case OtherStmt(children) =>
      // The null statement has no children; every other one is outside the subset.
      if children == [] then Normal(env, st) else Wrong
  }

  /** The branches of an `if` and the body of a loop are blocks of their own
      (sections 6.8.4 and 6.8.5 of C11). */
  function LeaveScope(env: Env, r: Outcome): Outcome {
    match r
    case Normal(_, st1) => Normal(env, st1)
    case other => other
  }

  function EvalSeq(ss: seq<Stmt>, env: Env, st: CState, w: World, fuel: nat): Outcome
    decreases fuel, ss, 0
  {
    if ss == [] then Normal(env, st)
    else
      match EvalStmt(ss[0], env, st, w, fuel)
      case Normal(env1, st1) => EvalSeq(ss[1..], env1, st1, w, fuel)
      case other => other
  }

  /** Locations 0, 1, ... hold the arguments. */
  function ParamEnv(params: seq<string>): (env: Env) {
    if params == [] then map[]
    else ParamEnv(params[..|params| - 1])[params[|params| - 1] := |params| - 1]
  }

  function ParamStore(args: seq<int>): map<nat, int> {
    map i: nat | i < |args| :: args[i]
  }

  /** A call of `f` after the outside calls `tr`. Falling off the end of an `int` function returns 0, as the converter
      documents; falling off a `void` function returns nothing. */
  function EvalCall(f: Function, args: seq<int>, tr: seq<Event>, w: World, fuel: nat): Outcome
    requires f.body.Some?
  {
    var st := CState(ParamStore(args), |args|, tr);
    match EvalStmt(f.body.value, ParamEnv(f.params), st, w, fuel)
    case Normal(_, st1) => Returned(if f.ret == CVoid then None else Some(0), st1.trace)
    case Returned(v, after) => if v.Some? == (f.ret == CInt) then Returned(v, after) else Wrong
    case other => other
  }
}
