/** The expression tree that the simplifier rewrites, its printed form, and its value. */
module ExprIr {
  import opened Words
  import opened Numerals
  import Evm

  datatype BinaryOp = Add | Sub | Mul | Div | Mod | Exp | And | Or | Xor | Shl | Shr | OtherBinary(name: string)

  datatype UnaryOpKind = Bang | Tilde | OtherUnary(name: string)

  datatype CompareOp = Lt | Gt | Eq | Ne | Ge | Le | OtherCompare(name: string)

  /** Node kinds that no rewrite looks at are leaves, known by their printed form. */
  datatype Expr =
    | Const(value: Word)
    | MsgSender
    | MsgSig
    | CalldataArg(argIndex: nat, argType: Option<string>, rawOffset: Option<nat>)
    | CalldataLoad(offset: Expr)
    | MemoryLoad(address: Expr)
    | FreeMemPtr
    | BinOp(op: BinaryOp, left: Expr, right: Expr)
    | UnaryOp(uop: UnaryOpKind, operand: Expr)
    | Compare(cop: CompareOp, left: Expr, right: Expr)
    | Leaf(text: string)

  const ADDRESS_MASK: Word := 0xFFFFFFFF_FFFFFFFF_FFFFFFFF_FFFFFFFF_FFFFFFFF
  const SELECTOR_MASK: Word := 0xFFFFFFFF
  const SELECTOR_DIVISOR: Word := 0x1_00000000_00000000_00000000_00000000_00000000_00000000_00000000

  predicate IsConst(e: Expr, v: Word) {
    e.Const? && e.value == v
  }

  predicate IsBang(e: Expr) {
    e.UnaryOp? && e.uop.Bang?
  }

  function Size(e: Expr): (n: nat)
    ensures n > 0
  {
    match e
    case CalldataLoad(x) => 1 + Size(x)
    case MemoryLoad(x) => 1 + Size(x)
    case BinOp(_, l, r) => 1 + Size(l) + Size(r)
    case UnaryOp(_, x) => 1 + Size(x)
    case Compare(_, l, r) => 1 + Size(l) + Size(r)
    case _ => 1
  }

  // ---- Printed form ----

  function ReprConst(v: nat): string {
    "0x" + Padded(Hex(v), if v <= 0xFF then 2 else if v <= 0xFFFF then 4 else if v <= 0xFFFFFFFF then 8 else 1)
  }

  function ReprBinary(op: BinaryOp): string {
    match op
    case Add => "+" case Sub => "-" case Mul => "*" case Div => "/" case Mod => "%" case Exp => "**"
    case And => "&" case Or => "|" case Xor => "^" case Shl => "<<" case Shr => ">>"
    case OtherBinary(name) => name
  }

  function ReprCompare(op: CompareOp): string {
    match op
    case Lt => "<" case Gt => ">" case Eq => "==" case Ne => "!=" case Ge => ">=" case Le => "<="
    case OtherCompare(name) => name
  }

  function Repr(e: Expr): string {
    match e
    case Const(v) => ReprConst(v)
    case MsgSender => "msg.sender"
    case MsgSig => "msg.sig"
    case CalldataArg(i, t, _) =>
      "arg" + Decimal(i) + (if t.Some? && t.value != "" then ": " + t.value else "")
    case CalldataLoad(x) => "calldata[" + Repr(x) + "]"
    case MemoryLoad(x) => "memory[" + Repr(x) + "]"
    case FreeMemPtr => "free_mem_ptr"
    case BinOp(op, l, r) => "(" + Repr(l) + " " + ReprBinary(op) + " " + Repr(r) + ")"
    case UnaryOp(op, x) => (match op case Bang => "!" case Tilde => "~" case OtherUnary(name) => name) + Repr(x)
    case Compare(op, l, r) => "(" + Repr(l) + " " + ReprCompare(op) + " " + Repr(r) + ")"
    case Leaf(text) => text
  }

  // ---- Value ----

  /** What an expression's leaves stand for in one execution. */
  datatype Env = Env(
    sender: Word,
    sig: Word,
    arg: (nat, Option<string>) -> Word,
    calldata: Word -> Word,
    memory: Word -> Word,
    leaf: string -> Word,
    binary: (string, Word, Word) -> Word,
    unary: (string, Word) -> Word,
    compare: (string, Word, Word) -> Word)

  function EvalBinary(op: BinaryOp, x: Word, y: Word, env: Env): Word {
    match op
    case Add => Wrap(x + y)
    case Sub => Wrap(x - y)
    case Mul => Wrap(x * y)
    case Div => Evm.Divide(x, y)
    case Mod => Evm.Modulo(x, y)
    case Exp => Wrap(Pow(x, y))
    case And => Evm.And(x, y)
    case Or => Evm.Or(x, y)
    case Xor => Evm.Xor(x, y)
    case Shl => Evm.ShiftLeft(x, y)
    case Shr => Evm.ShiftRight(x, y)
    case OtherBinary(name) => env.binary(name, x, y)
  }

  function EvalUnary(op: UnaryOpKind, x: Word, env: Env): Word {
    match op
    case Bang => Evm.Truth(x == 0)
    case Tilde => Evm.Not(x)
    case OtherUnary(name) => env.unary(name, x)
  }

  function EvalCompare(op: CompareOp, x: Word, y: Word, env: Env): Word {
    match op
    case Lt => Evm.Truth(x < y)
    case Gt => Evm.Truth(x > y)
    case Eq => Evm.Truth(x == y)
    case Ne => Evm.Truth(x != y)
    case Ge => Evm.Truth(x >= y)
    case Le => Evm.Truth(x <= y)
    case OtherCompare(name) => env.compare(name, x, y)
  }

  function Eval(e: Expr, env: Env): Word {
    match e
    case Const(v) => v
    case MsgSender => env.sender
    case MsgSig => env.sig
    case CalldataArg(i, t, _) => env.arg(i, t)
    case CalldataLoad(x) => env.calldata(Eval(x, env))
    case MemoryLoad(x) => env.memory(Eval(x, env))
    case FreeMemPtr => env.memory(0x40)
    case BinOp(op, l, r) => EvalBinary(op, Eval(l, env), Eval(r, env), env)
    case UnaryOp(op, x) => EvalUnary(op, Eval(x, env), env)
    case Compare(op, l, r) => EvalCompare(op, Eval(l, env), Eval(r, env), env)
    case Leaf(text) => env.leaf(text)
  }
}
