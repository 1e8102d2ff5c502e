/** The structured rewrite passes. */
module Simplifier {
  // What they keep, that each settles at once, and that the whole does not.

  import opened Words
  import opened ExprIr
  import opened Printed
  import Congruence
  import Evm

  // ---- The passes ----

  /**
   A left shift by this much or more overflows, unless the shifted constant is
   zero: an integer has at most 2^61 digits of 30 bits.
   */
  const SHIFT_OVERFLOW: nat := 30 * 0x2000_0000_0000_0000

  /** The folded value of two constants, if there is one. */
  function FoldConst(op: BinaryOp, lv: Word, rv: Word): Option<Word> {
    match op
    case Add => Some(Wrap(lv + rv))
    case Sub => Some(Wrap(lv - rv))
    case Mul => Some(Wrap(lv * rv))
    case Div => if rv != 0 then Some(lv / rv) else None
    case Mod => if rv != 0 then Some(lv % rv) else None
    case And => Some(Evm.And(lv, rv))
    case Or => Some(Evm.Or(lv, rv))
    case Xor => Some(Evm.Xor(lv, rv))
    case Shl => if lv != 0 && rv >= SHIFT_OVERFLOW then None else Some(Wrap(lv * Pow(2, rv)))
    case Shr => Some(Evm.Halve(lv, rv))
    case _ => None
  }

  function ConstantFold(e: Expr): Expr {
    match e
    case BinOp(op, l, r) =>
      var left := ConstantFold(l);
      var right := ConstantFold(r);
      if left.Const? && right.Const? && FoldConst(op, left.value, right.value).Some?
      then Const(FoldConst(op, left.value, right.value).value)
      else BinOp(op, left, right)
    case UnaryOp(op, x) =>
      var operand := ConstantFold(x);
      if operand.Const? && op.Bang? then Const(if operand.value == 0 then 1 else 0)
      else if operand.Const? && op.Tilde? then Const(MODULUS - 1 - operand.value)
      else UnaryOp(op, operand)
    case _ => e
  }

  /** Recurses on its own result; it ends because no result outgrows its argument. */
  function DoubleNegation(e: Expr): (r: Expr)
    ensures Size(r) <= Size(e)
    ensures IsBang(r) ==> IsBang(e) && !IsBang(r.operand)
    decreases Size(e)
  {
    match e
    case UnaryOp(Bang, x) =>
      var inner := DoubleNegation(x);
      if IsBang(inner) then DoubleNegation(inner.operand) else UnaryOp(Bang, inner)
    case BinOp(op, l, r) => BinOp(op, DoubleNegation(l), DoubleNegation(r))
    case Compare(op, l, r) => Compare(op, DoubleNegation(l), DoubleNegation(r))
    case _ => e
  }

  function ZeroMultiplication(e: Expr): Expr {
    match e
    case BinOp(op, l, r) =>
      var left := ZeroMultiplication(l);
      var right := ZeroMultiplication(r);
      if op.Mul? && (IsConst(left, 0) || IsConst(right, 0)) then Const(0) else BinOp(op, left, right)
    case _ => e
  }

  function AddressMask(e: Expr): Expr {
    match e
    case BinOp(op, l, r) =>
      var left := AddressMask(l);
      var right := AddressMask(r);
      if op.And? && IsConst(right, ADDRESS_MASK) && (left.MsgSender? || left.CalldataArg?) then left
      else if op.And? && IsConst(right, ADDRESS_MASK)
        && left.BinOp? && left.op.And? && IsConst(left.right, ADDRESS_MASK) then left
      else if op.And? && IsConst(left, ADDRESS_MASK) && (right.MsgSender? || right.CalldataArg?) then right
      else BinOp(op, left, right)
    case _ => e
  }

  predicate IsSelectorQuotient(e: Expr) {
    e.BinOp? && e.op.Div? && IsConst(e.left, SELECTOR_DIVISOR)
  }

  function SelectorExtraction(e: Expr): Expr {
    match e
    case BinOp(op, l, r) =>
      var left := SelectorExtraction(l);
      var right := SelectorExtraction(r);
      if op.And? && IsConst(right, SELECTOR_MASK) && IsSelectorQuotient(left) then MsgSig
      else if op.And? && IsConst(left, SELECTOR_MASK) && IsSelectorQuotient(right) then MsgSig
      else BinOp(op, left, right)
    case _ => e
  }

  function ArgIndex(offset: Expr): Option<nat> {
    if offset.Const? && offset.value >= 4 && (offset.value - 4) % 32 == 0
    then Some((offset.value - 4) / 32) else None
  }

  const ADDRESS_TYPE: Option<string> := Some("address")

  /** Only descends through `&`. */
  function CalldataArgs(e: Expr): Expr {
    if e.BinOp? && e.op.And? then
      var left := CalldataArgs(e.left);
      var right := CalldataArgs(e.right);
      if IsConst(right, ADDRESS_MASK) && left.CalldataLoad? && ArgIndex(left.offset).Some?
      then CalldataArg(ArgIndex(left.offset).value, ADDRESS_TYPE, Some(left.offset.value))
      else BinOp(And, left, right)
    else e
  }

  function Inverse(op: CompareOp): Option<CompareOp> {
    match op
    case Lt => Some(Ge) case Gt => Some(Le) case Eq => Some(Ne)
    case Ne => Some(Eq) case Ge => Some(Lt) case Le => Some(Gt)
    case OtherCompare(_) => None
  }

  function ComparisonNormalize(e: Expr): Expr {
    if IsBang(e) && e.operand.Compare? && Inverse(e.operand.cop).Some?
    then Compare(Inverse(e.operand.cop).value, e.operand.left, e.operand.right)
    else e
  }

  function MemoryBoilerplate(e: Expr): Expr {
    if e.MemoryLoad? && IsConst(e.address, 0x40) then FreeMemPtr else e
  }

  function ApplyAllPasses(e: Expr): Expr {
    MemoryBoilerplate(ComparisonNormalize(CalldataArgs(SelectorExtraction(
      AddressMask(ZeroMultiplication(DoubleNegation(ConstantFold(e))))))))
  }

  const MAX_PASSES: nat := 5

  /** Apply all passes up to `n` times, until the printed form no longer changes. */
  function Settle(e: Expr, n: nat): Expr
    decreases n
  {
    if n == 0 then e
    else
      var after := ApplyAllPasses(e);
      if Repr(e) == Repr(after) then after else Settle(after, n - 1)
  }

  /** With a limit that allows a round per node beyond the root, no pass changes the result any more. */
  method Simplify(e: Expr, maxPasses: nat := MAX_PASSES) returns (r: Expr)
    ensures r == Settle(e, maxPasses)
    ensures ApplyAllPasses(r) == r <==> RoundsNeeded(e) <= maxPasses
    ensures maxPasses + 1 >= Size(e) ==> ApplyAllPasses(r) == r
  {
    hide ApplyAllPasses, Repr;
    SettledIff(e, maxPasses);
    r := e;
    for i := 0 to maxPasses
      invariant Settle(r, maxPasses - i) == Settle(e, maxPasses)
    {
      var before := Repr(r);
      r := ApplyAllPasses(r);
      if before == Repr(r) {
        return;
      }
    }
  }

  // ---- Meaning ----

  /** An address argument is its masked calldata word. */
  ghost predicate ArgsAreMasked(env: Env) {
    forall i: nat :: env.arg(i, ADDRESS_TYPE) == Evm.And(env.calldata(Wrap(4 + 32 * i)), ADDRESS_MASK)
  }

  /** Addresses are 160 bits wide. */
  ghost predicate Consistent(env: Env) {
    env.sender <= ADDRESS_MASK && ArgsAreMasked(env)
  }

  /** Doubly negated operands are 0 or 1. */
  ghost predicate NegationsBoolean(e: Expr, env: Env) {
    match e
    case BinOp(_, l, r) => NegationsBoolean(l, env) && NegationsBoolean(r, env)
    case UnaryOp(op, x) => NegationsBoolean(x, env) && (op.Bang? && IsBang(x) ==> Eval(x.operand, env) <= 1)
    case Compare(_, l, r) => NegationsBoolean(l, env) && NegationsBoolean(r, env)
    case _ => true
  }

  /** Recognised arguments are 160 bits wide. */
  ghost predicate ArgsFit(e: Expr, env: Env) {
    match e
    case BinOp(_, l, r) => ArgsFit(l, env) && ArgsFit(r, env)
    case UnaryOp(_, x) => ArgsFit(x, env)
    case Compare(_, l, r) => ArgsFit(l, env) && ArgsFit(r, env)
    case CalldataArg(i, t, _) => env.arg(i, t) <= ADDRESS_MASK
    case _ => true
  }

  /** All that the passes other than selector extraction rely on. */
  ghost predicate Sane(e: Expr, env: Env) {
    NegationsBoolean(e, env) && ArgsFit(e, env)
  }

  /** Somewhere in the expression the selector constant is divided. */
  ghost predicate HasQuotient(e: Expr, env: Env) {
    match e
    case BinOp(op, l, r) => (op.Div? && Eval(l, env) == SELECTOR_DIVISOR) || HasQuotient(l, env) || HasQuotient(r, env)
    case UnaryOp(_, x) => HasQuotient(x, env)
    case Compare(_, l, r) => HasQuotient(l, env) || HasQuotient(r, env)
    case _ => false
  }

  /** The selector mask on one side, and a quotient of the selector constant on the other. */
  ghost predicate MasksQuotient(l: Expr, r: Expr, env: Env) {
    || (Eval(r, env) == SELECTOR_MASK && HasQuotient(l, env))
    || (Eval(l, env) == SELECTOR_MASK && HasQuotient(r, env))
  }

  /** What selector extraction relies on: a masked quotient of the selector constant is the selector. */
  ghost predicate SelectorsRight(e: Expr, env: Env) {
    match e
    case BinOp(op, l, r) =>
      && SelectorsRight(l, env) && SelectorsRight(r, env)
      && (op.And? && MasksQuotient(l, r, env) ==> Eval(e, env) == env.sig)
    case UnaryOp(_, x) => SelectorsRight(x, env)
    case Compare(_, l, r) => SelectorsRight(l, env) && SelectorsRight(r, env)
    case _ => true
  }

  /** The pass result has the same value, and what held for the later passes still holds. */
  ghost predicate Keeps(e: Expr, r: Expr, env: Env) {
    && Eval(r, env) == Eval(e, env)
    && (NegationsBoolean(e, env) ==> NegationsBoolean(r, env))
    && (ArgsFit(e, env) ==> ArgsFit(r, env))
    && (HasQuotient(r, env) ==> HasQuotient(e, env))
    && (SelectorsRight(e, env) ==> SelectorsRight(r, env))
  }

  lemma {:induction false} PowPeelsModulus(k: nat)
    requires k >= 256
    ensures Pow(2, k) == MODULUS * Pow(2, k - 256)
  {
    hide Pow;
    PowAdd(2, 256, k - 256);
    PowerOfTwo256();
  }

  lemma MultipleWrapsToZero(x: nat, y: nat)
    ensures Wrap(x * (MODULUS * y)) == 0
  {
    MulAssociates(x, MODULUS, y);
    ModulusDivides(x * y);
  }

  lemma ModulusDivides(q: nat)
    ensures (MODULUS * q) % MODULUS == 0
  {
  }

  lemma {:induction false} HalveToZero(x: nat, k: nat)
    requires x < Pow(2, k)
    ensures Evm.Halve(x, k) == 0
  {
    if k > 0 {
      HalveToZero(x / 2, k - 1);
    }
  }

  lemma {:induction false} HalveZero(k: nat)
    ensures Evm.Halve(0, k) == 0
  {
    if k > 0 {
      HalveZero(k - 1);
    }
  }

  lemma {:induction false} HalveSum(x: nat, j: nat, k: nat)
    ensures Evm.Halve(x, j + k) == Evm.Halve(Evm.Halve(x, j), k)
    decreases j
  {
    if j > 0 {
      HalveSum(x / 2, j - 1, k);
    }
  }

  /** A folded constant is the value of the operation. */
  lemma {:induction false} FoldConstMeans(op: BinaryOp, lv: Word, rv: Word, env: Env)
    ensures FoldConst(op, lv, rv).Some? ==> FoldConst(op, lv, rv).value == EvalBinary(op, lv, rv, env)
  {
    hide Pow, Evm.Halve;
    if op.Shl? && rv >= 256 {
      PowPeelsModulus(rv);
      MultipleWrapsToZero(lv, Pow(2, rv - 256));
    } else if op.Shr? && rv >= 256 {
      PowerOfTwo256();
      HalveToZero(lv, 256);
      HalveSum(lv, 256, rv - 256);
      HalveZero(rv - 256);
    }
  }

  lemma {:induction false} ConstantFoldKeeps(e: Expr, env: Env)
    ensures Keeps(e, ConstantFold(e), env)
    ensures IsBang(ConstantFold(e)) ==> IsBang(e) && Eval(ConstantFold(e).operand, env) == Eval(e.operand, env)
  {
    hide FoldConst, EvalBinary;
    match e
    case BinOp(op, l, r) =>
      ConstantFoldKeeps(l, env);
      ConstantFoldKeeps(r, env);
      var left, right := ConstantFold(l), ConstantFold(r);
      if left.Const? && right.Const? {
        FoldConstMeans(op, left.value, right.value, env);
      }
    case UnaryOp(_, x) =>
      ConstantFoldKeeps(x, env);
    case _ =>
  }

  lemma {:induction false} DoubleNegationKeeps(e: Expr, env: Env)
    requires NegationsBoolean(e, env)
    ensures Keeps(e, DoubleNegation(e), env)
    ensures IsBang(DoubleNegation(e)) ==> Eval(DoubleNegation(e).operand, env) == Eval(e.operand, env)
    decreases Size(e)
  {
    hide EvalBinary, EvalCompare;
    match e
    case UnaryOp(Bang, x) =>
      DoubleNegationKeeps(x, env);
      var inner := DoubleNegation(x);
      if IsBang(inner) {
        DoubleNegationKeeps(inner.operand, env);
      }
    case BinOp(_, l, r) =>
      DoubleNegationKeeps(l, env);
      DoubleNegationKeeps(r, env);
    case Compare(_, l, r) =>
      DoubleNegationKeeps(l, env);
      DoubleNegationKeeps(r, env);
    case _ =>
  }

  lemma {:induction false} ZeroMultiplicationKeeps(e: Expr, env: Env)
    ensures Keeps(e, ZeroMultiplication(e), env)
  {
    match e
    case BinOp(op, l, r) =>
      ZeroMultiplicationKeeps(l, env);
      ZeroMultiplicationKeeps(r, env);
      MulZero(Eval(l, env), Eval(r, env));
    case _ =>
  }

  lemma MulZero(x: nat, y: nat)
    ensures x == 0 || y == 0 ==> x * y == 0
  {
  }

  lemma {:induction false} MaskLowBits(x: nat, k: nat)
    requires x < Pow(2, k)
    ensures Pow(2, k) > 0 && BitAnd(x, Pow(2, k) - 1) == x && BitAnd(Pow(2, k) - 1, x) == x
  {
    PowPositive(2, k);
    if k > 0 && x > 0 {
      PowPositive(2, k - 1);
      MaskLowBits(x / 2, k - 1);
      assert (Pow(2, k) - 1) / 2 == Pow(2, k - 1) - 1;
    }
  }

  lemma PowerOfTwo160()
    ensures Pow(2, 160) == ADDRESS_MASK + 1
  {
    hide Pow;
    PowAdd(2, 128, 32);
    SmallPowers();
    PowSquare(2, 8, 0x100);
    PowSquare(2, 16, 0x1_0000);
    PowSquare(2, 32, 0x1_00000000);
    PowSquare(2, 64, 0x1_00000000_00000000);
  }

  /** The address mask keeps 160-bit values and makes every value 160 bits wide. */
  lemma MaskOfAddress(x: Word)
    ensures x <= ADDRESS_MASK ==> Evm.And(x, ADDRESS_MASK) == x && Evm.And(ADDRESS_MASK, x) == x
    ensures Evm.And(x, ADDRESS_MASK) <= ADDRESS_MASK
  {
    PowerOfTwo160();
    BitAndBound(x, ADDRESS_MASK);
    if x <= ADDRESS_MASK {
      MaskLowBits(x, 160);
    }
  }

  lemma {:induction false} AddressMaskKeeps(e: Expr, env: Env)
    requires ArgsFit(e, env) && env.sender <= ADDRESS_MASK
    ensures Keeps(e, AddressMask(e), env)
  {
    hide Evm.And;
    match e
    case BinOp(op, l, r) =>
      AddressMaskKeeps(l, env);
      AddressMaskKeeps(r, env);
      var left, right := AddressMask(l), AddressMask(r);
      MaskOfAddress(Eval(left, env));
      MaskOfAddress(Eval(right, env));
      if left.BinOp? && left.op.And? && IsConst(left.right, ADDRESS_MASK) {
        MaskOfAddress(Eval(left.left, env));
      }
    case _ =>
  }

  lemma {:induction false} SelectorExtractionKeeps(e: Expr, env: Env)
    requires SelectorsRight(e, env)
    ensures Keeps(e, SelectorExtraction(e), env)
  {
    hide EvalBinary;
    match e
    case BinOp(_, l, r) =>
      SelectorExtractionKeeps(l, env);
      SelectorExtractionKeeps(r, env);
    case _ =>
  }

  /** A masked calldata word at an argument position is that argument. */
  lemma RecognisedArg(v: Word, env: Env)
    requires ArgsAreMasked(env) && ArgIndex(Const(v)).Some?
    ensures env.arg(ArgIndex(Const(v)).value, ADDRESS_TYPE) == Evm.And(env.calldata(v), ADDRESS_MASK) <= ADDRESS_MASK
  {
    hide Evm.And;
    var i := ArgIndex(Const(v)).value;
    OffsetOfArg(v);
    assert env.arg(i, ADDRESS_TYPE) == Evm.And(env.calldata(Wrap(4 + 32 * i)), ADDRESS_MASK);
    MaskOfAddress(env.calldata(v));
  }

  lemma {:induction false} CalldataArgsKeeps(e: Expr, env: Env)
    requires ArgsAreMasked(env)
    ensures Keeps(e, CalldataArgs(e), env)
  {
    hide Evm.And;
    if e.BinOp? && e.op.And? {
      CalldataArgsKeeps(e.left, env);
      CalldataArgsKeeps(e.right, env);
      var left, right := CalldataArgs(e.left), CalldataArgs(e.right);
      if IsConst(right, ADDRESS_MASK) && left.CalldataLoad? && ArgIndex(left.offset).Some? {
        var v := left.offset.value;
        RecognisedArg(v, env);
        var arg := CalldataArg(ArgIndex(Const(v)).value, ADDRESS_TYPE, Some(v as nat));
        assert CalldataArgs(e) == arg && Eval(arg, env) == env.arg(arg.argIndex, ADDRESS_TYPE) && ArgsFit(arg, env);
        assert Eval(e, env) == Evm.And(Eval(left, env), Eval(right, env));
        assert Eval(left, env) == env.calldata(Eval(left.offset, env)) && Eval(left.offset, env) == v;
      }
    }
  }

  lemma OffsetOfArg(v: Word)
    ensures v >= 4 && (v - 4) % 32 == 0 ==> Wrap(4 + 32 * ((v - 4) / 32)) == v
  {
  }

  lemma ComparisonNormalizeKeeps(e: Expr, env: Env)
    ensures Keeps(e, ComparisonNormalize(e), env)
  {
    hide HasQuotient, NegationsBoolean, ArgsFit, SelectorsRight;
    if IsBang(e) && e.operand.Compare? && Inverse(e.operand.cop).Some? {
      var c := e.operand;
      assert e == UnaryOp(Bang, c);
      assert Eval(c, env) == EvalCompare(c.cop, Eval(c.left, env), Eval(c.right, env), env);
      OperandKept(c, env);
      CompareParts(c, env);
      CompareParts(ComparisonNormalize(e), env);
    }
  }

  lemma OperandKept(x: Expr, env: Env)
    ensures NegationsBoolean(UnaryOp(Bang, x), env) ==> NegationsBoolean(x, env)
    ensures ArgsFit(UnaryOp(Bang, x), env) <==> ArgsFit(x, env)
    ensures SelectorsRight(UnaryOp(Bang, x), env) <==> SelectorsRight(x, env)
    ensures HasQuotient(UnaryOp(Bang, x), env) <==> HasQuotient(x, env)
  {
  }

  lemma CompareParts(x: Expr, env: Env)
    requires x.Compare?
    ensures NegationsBoolean(x, env) <==> NegationsBoolean(x.left, env) && NegationsBoolean(x.right, env)
    ensures ArgsFit(x, env) <==> ArgsFit(x.left, env) && ArgsFit(x.right, env)
    ensures SelectorsRight(x, env) <==> SelectorsRight(x.left, env) && SelectorsRight(x.right, env)
    ensures HasQuotient(x, env) <==> HasQuotient(x.left, env) || HasQuotient(x.right, env)
  {
  }

  lemma MemoryBoilerplateKeeps(e: Expr, env: Env)
    ensures Keeps(e, MemoryBoilerplate(e), env)
  {
  }

  /** The composition of all passes but selector extraction. */
  function OtherPasses(e: Expr): Expr {
    MemoryBoilerplate(ComparisonNormalize(CalldataArgs(
      AddressMask(ZeroMultiplication(DoubleNegation(ConstantFold(e)))))))
  }

  /** It keeps the value of every sane expression, dispatcher code included. */
  lemma {:induction false} OtherPassesKeep(e: Expr, env: Env)
    requires Sane(e, env) && Consistent(env)
    ensures Keeps(e, OtherPasses(e), env)
  {
    var e4 := EarlyPassesKeep(e, env);
    LatePassesKeep(e4, env);
  }

  /** The passes before selector extraction. */
  lemma EarlyPassesKeep(e: Expr, env: Env) returns (r: Expr)
    requires Sane(e, env) && Consistent(env)
    ensures r == AddressMask(ZeroMultiplication(DoubleNegation(ConstantFold(e)))) && Keeps(e, r, env)
  {
    hide NegationsBoolean, ArgsFit, SelectorsRight, Eval, HasQuotient;
    hide ConstantFold, DoubleNegation, ZeroMultiplication, AddressMask;
    var e1 := ConstantFold(e);
    ConstantFoldKeeps(e, env);
    var e2 := DoubleNegation(e1);
    DoubleNegationKeeps(e1, env);
    var e3 := ZeroMultiplication(e2);
    ZeroMultiplicationKeeps(e2, env);
    r := AddressMask(e3);
    AddressMaskKeeps(e3, env);
  }

  /** The passes after it. */
  lemma LatePassesKeep(e: Expr, env: Env)
    requires ArgsAreMasked(env)
    ensures Keeps(e, MemoryBoilerplate(ComparisonNormalize(CalldataArgs(e))), env)
  {
    hide NegationsBoolean, ArgsFit, SelectorsRight, Eval, HasQuotient;
    hide CalldataArgs, ComparisonNormalize, MemoryBoilerplate;
    CalldataArgsKeeps(e, env);
    ComparisonNormalizeKeeps(CalldataArgs(e), env);
    MemoryBoilerplateKeeps(ComparisonNormalize(CalldataArgs(e)), env);
  }

  /** So a round of all passes keeps the value exactly when selector extraction keeps the value of what it is given. */
  lemma {:induction false} RoundKeepsIff(e: Expr, env: Env)
    requires Sane(e, env) && Consistent(env)
    ensures var given := AddressMask(ZeroMultiplication(DoubleNegation(ConstantFold(e))));
      Eval(ApplyAllPasses(e), env) == Eval(e, env) <==> Eval(SelectorExtraction(given), env) == Eval(e, env)
  {
    hide Eval, Sane, SelectorExtraction, CalldataArgs, ComparisonNormalize, MemoryBoilerplate;
    hide ConstantFold, DoubleNegation, ZeroMultiplication, AddressMask;
    var e4 := EarlyPassesKeep(e, env);
    LatePassesKeep(SelectorExtraction(e4), env);
  }

  lemma {:induction false} PassesKeep(e: Expr, env: Env)
    requires Sane(e, env) && Consistent(env) && SelectorsRight(e, env)
    ensures Keeps(e, ApplyAllPasses(e), env)
  {
    hide NegationsBoolean, ArgsFit, SelectorsRight, Eval, HasQuotient, ConstantFold, DoubleNegation;
    hide ZeroMultiplication, AddressMask, SelectorExtraction, CalldataArgs, ComparisonNormalize, MemoryBoilerplate;
    var e4 := EarlyPassesKeep(e, env);
    SelectorExtractionKeeps(e4, env);
    LatePassesKeep(SelectorExtraction(e4), env);
  }

  /** However many rounds are applied, the value is kept. */
  lemma {:induction false} SimplifyKeepsMeaning(e: Expr, env: Env, n: nat)
    requires Sane(e, env) && Consistent(env) && SelectorsRight(e, env)
    ensures Keeps(e, Settle(e, n), env)
    decreases n
  {
    hide NegationsBoolean, ArgsFit, SelectorsRight, Eval, HasQuotient, ApplyAllPasses, Repr;
    if n > 0 {
      PassesKeep(e, env);
      SimplifyKeepsMeaning(ApplyAllPasses(e), env, n - 1);
    }
  }

  /** Dropping a double negation is right exactly when the operand is 0 or 1. */
  lemma DoubleNegationNeedsBoolean(x: Expr, env: Env)
    requires NegationsBoolean(x, env) && !IsBang(x)
    ensures Eval(DoubleNegation(UnaryOp(Bang, UnaryOp(Bang, x))), env) == Eval(UnaryOp(Bang, UnaryOp(Bang, x)), env)
      <==> Eval(x, env) <= 1
  {
    DoubleNegationKeeps(x, env);
    DoubleNegationKeeps(DoubleNegation(x), env);
  }

  // ---- When the extracted selector is the selector ----

  /** The masked quotient that the dispatcher leaves behind, with the simulator's operand order. */
  function Dispatched(x: Expr, maskLeft: bool): Expr {
    var quotient := BinOp(Div, Const(SELECTOR_DIVISOR), x);
    if maskLeft then BinOp(And, Const(SELECTOR_MASK), quotient) else BinOp(And, quotient, Const(SELECTOR_MASK))
  }

  /** The same with the machine's operand order. */
  function DispatchedBack(x: Expr, maskLeft: bool): Expr {
    var quotient := BinOp(Div, x, Const(SELECTOR_DIVISOR));
    if maskLeft then BinOp(And, Const(SELECTOR_MASK), quotient) else BinOp(And, quotient, Const(SELECTOR_MASK))
  }

  lemma {:induction false} LowBits(x: nat, k: nat)
    ensures Pow(2, k) > 0 && BitAnd(x, Pow(2, k) - 1) == x % Pow(2, k) == BitAnd(Pow(2, k) - 1, x)
  {
    PowPositive(2, k);
    if k > 0 && x > 0 {
      PowPositive(2, k - 1);
      LowBits(x / 2, k - 1);
      OneBitMore(x, Pow(2, k - 1));
    }
  }

  lemma OneBitMore(x: nat, p: nat)
    requires x > 0 && p > 0 && BitAnd(x / 2, p - 1) == (x / 2) % p == BitAnd(p - 1, x / 2)
    ensures BitAnd(x, 2 * p - 1) == x % (2 * p) == BitAnd(2 * p - 1, x)
  {
    hide BitAnd;
    assert (2 * p - 1) / 2 == p - 1 && (2 * p - 1) % 2 == 1;
    BitAndStep(x, 2 * p - 1);
    BitAndStep(2 * p - 1, x);
    HalvedRemainder(x, p);
  }

  lemma BitAndStep(x: nat, y: nat)
    requires x > 0 && y > 0
    ensures BitAnd(x, y) == (if x % 2 == 1 && y % 2 == 1 then 1 else 0) + 2 * BitAnd(x / 2, y / 2)
  {
  }

  lemma HalvedRemainder(x: nat, p: nat)
    requires p > 0
    ensures x % (2 * p) == x % 2 + 2 * ((x / 2) % p)
  {
    var q := (x / 2) / p;
    assert x / 2 == q * p + (x / 2) % p;
    assert x == q * (2 * p) + (x % 2 + 2 * ((x / 2) % p));
    RemainderOf(x, q, 2 * p, x % 2 + 2 * ((x / 2) % p));
  }

  lemma RemainderOf(x: nat, q: nat, m: nat, r: nat)
    requires r < m && x == q * m + r
    ensures x % m == r
  {
    var d := x / m - q;
    assert d * m == r - x % m;
    Congruence.NoMultipleBetween(r - x % m, d, m);
  }

  lemma SelectorMaskBits(x: Word)
    ensures Evm.And(x, SELECTOR_MASK) == x % 0x1_0000_0000 == Evm.And(SELECTOR_MASK, x)
  {
    hide Pow;
    PowerOfTwo32();
    LowBits(x, 32);
  }

  lemma PowerOfTwo32()
    ensures Pow(2, 32) == 0x1_0000_0000
  {
    hide Pow;
    SmallPowers();
    PowSquare(2, 8, 0x100);
    PowSquare(2, 16, 0x1_0000);
  }

  /** The words whose extracted selector has the right value. */
  predicate ExtractsRight(x: Word) {
    x == 0 || x == SELECTOR_DIVISOR || (x < SELECTOR_DIVISOR && (SELECTOR_DIVISOR / x) % 0x1_0000_0000 == 0)
  }

  /**
   The pass replaces a masked quotient by the selector whatever is divided.
   Where the selector is the upper four bytes of a word, that keeps the value
   for these words only; with the operands the machine's way round, the
   selector is the value for every word.
   */
  lemma ExtractionRightIff(x: Expr, maskLeft: bool, env: Env)
    requires env.sig == Eval(x, env) / SELECTOR_DIVISOR
    ensures SelectorExtraction(Dispatched(x, maskLeft)) == MsgSig
    ensures Eval(MsgSig, env) == Eval(Dispatched(x, maskLeft), env) <==> ExtractsRight(Eval(x, env))
    ensures Eval(MsgSig, env) == Eval(DispatchedBack(x, maskLeft), env)
  {
    hide Eval, Evm.And, Evm.Divide, Dispatched, DispatchedBack, SelectorExtraction, ExtractsRight;
    var v := Eval(x, env);
    EvalDispatched(x, maskLeft, env);
    SelectorMaskBits(Evm.Divide(SELECTOR_DIVISOR, v));
    SelectorMaskBits(Evm.Divide(v, SELECTOR_DIVISOR));
    DividedSelector(v);
    DispatchedIsExtracted(x, maskLeft);
    SmallRemainder(v / SELECTOR_DIVISOR);
  }

  lemma SmallRemainder(x: nat)
    requires x < 0x1_0000_0000
    ensures x % 0x1_0000_0000 == x
  {
  }

  lemma EvalDispatched(x: Expr, maskLeft: bool, env: Env)
    ensures Eval(MsgSig, env) == env.sig
    ensures Eval(Dispatched(x, maskLeft), env) ==
      var q := Evm.Divide(SELECTOR_DIVISOR, Eval(x, env));
      if maskLeft then Evm.And(SELECTOR_MASK, q) else Evm.And(q, SELECTOR_MASK)
    ensures Eval(DispatchedBack(x, maskLeft), env) ==
      var q := Evm.Divide(Eval(x, env), SELECTOR_DIVISOR);
      if maskLeft then Evm.And(SELECTOR_MASK, q) else Evm.And(q, SELECTOR_MASK)
  {
    hide Evm.And, Evm.Divide;
    var d, m := Const(SELECTOR_DIVISOR), Const(SELECTOR_MASK);
    assert Eval(BinOp(Div, d, x), env) == Evm.Divide(SELECTOR_DIVISOR, Eval(x, env));
    assert Eval(BinOp(Div, x, d), env) == Evm.Divide(Eval(x, env), SELECTOR_DIVISOR);
    assert Eval(m, env) == SELECTOR_MASK;
  }

  lemma DispatchedIsExtracted(x: Expr, maskLeft: bool)
    ensures SelectorExtraction(Dispatched(x, maskLeft)) == MsgSig
  {
    assert IsSelectorQuotient(SelectorExtraction(BinOp(Div, Const(SELECTOR_DIVISOR), x)));
  }

  lemma DividedSelector(v: Word)
    ensures Evm.Divide(v, SELECTOR_DIVISOR) == v / SELECTOR_DIVISOR < 0x1_0000_0000
    ensures Evm.Divide(SELECTOR_DIVISOR, v) % 0x1_0000_0000 == v / SELECTOR_DIVISOR <==> ExtractsRight(v)
  {
    if v > SELECTOR_DIVISOR {
      SmallQuotient(SELECTOR_DIVISOR, v);
    }
  }

  lemma SmallQuotient(a: nat, b: nat)
    requires a < b
    ensures a / b == 0
  {
  }

  /** A selector other than 1 is never extracted right: for instance 0xa9059cbb. */
  lemma OrdinarySelectorsLost(x: Word)
    requires x / SELECTOR_DIVISOR > 1
    ensures !ExtractsRight(x)
  {
  }

  // ---- Every pass settles at once ----

  lemma {:induction false} ConstantFoldIdempotent(e: Expr)
    ensures ConstantFold(ConstantFold(e)) == ConstantFold(e)
  {
    hide FoldConst;
    match e
    case BinOp(_, l, r) =>
      ConstantFoldIdempotent(l);
      ConstantFoldIdempotent(r);
    case UnaryOp(_, x) =>
      ConstantFoldIdempotent(x);
    case _ =>
  }

  lemma {:induction false} DoubleNegationIdempotent(e: Expr)
    ensures DoubleNegation(DoubleNegation(e)) == DoubleNegation(e)
    decreases Size(e)
  {
    match e
    case UnaryOp(Bang, x) =>
      DoubleNegationIdempotent(x);
      var inner := DoubleNegation(x);
      if IsBang(inner) {
        DoubleNegationIdempotent(inner.operand);
      }
    case BinOp(_, l, r) =>
      DoubleNegationIdempotent(l);
      DoubleNegationIdempotent(r);
    case Compare(_, l, r) =>
      DoubleNegationIdempotent(l);
      DoubleNegationIdempotent(r);
    case _ =>
  }

  lemma {:induction false} ZeroMultiplicationIdempotent(e: Expr)
    ensures ZeroMultiplication(ZeroMultiplication(e)) == ZeroMultiplication(e)
  {
    match e
    case BinOp(_, l, r) =>
      ZeroMultiplicationIdempotent(l);
      ZeroMultiplicationIdempotent(r);
    case _ =>
  }

  lemma {:induction false} AddressMaskIdempotent(e: Expr)
    ensures AddressMask(AddressMask(e)) == AddressMask(e)
  {
    match e
    case BinOp(_, l, r) =>
      AddressMaskIdempotent(l);
      AddressMaskIdempotent(r);
    case _ =>
  }

  lemma {:induction false} SelectorExtractionIdempotent(e: Expr)
    ensures SelectorExtraction(SelectorExtraction(e)) == SelectorExtraction(e)
  {
    match e
    case BinOp(_, l, r) =>
      SelectorExtractionIdempotent(l);
      SelectorExtractionIdempotent(r);
    case _ =>
  }

  lemma {:induction false} CalldataArgsIdempotent(e: Expr)
    ensures CalldataArgs(CalldataArgs(e)) == CalldataArgs(e)
  {
    if e.BinOp? && e.op.And? {
      CalldataArgsIdempotent(e.left);
      CalldataArgsIdempotent(e.right);
    }
  }

  lemma TopLevelPassesIdempotent(e: Expr)
    ensures ComparisonNormalize(ComparisonNormalize(e)) == ComparisonNormalize(e)
    ensures MemoryBoilerplate(MemoryBoilerplate(e)) == MemoryBoilerplate(e)
  {
  }

  // ---- Enough rounds converge ----

  /** A pass changes nothing, or makes the tree smaller. */
  predicate Shrinks(e: Expr, r: Expr) {
    r == e || Size(r) < Size(e)
  }

  lemma {:induction false} ConstantFoldShrinks(e: Expr)
    ensures Shrinks(e, ConstantFold(e))
  {
    hide FoldConst;
    match e
    case BinOp(_, l, r) =>
      ConstantFoldShrinks(l);
      ConstantFoldShrinks(r);
    case UnaryOp(_, x) => ConstantFoldShrinks(x);
    case _ =>
  }

  lemma {:induction false} DoubleNegationShrinks(e: Expr)
    ensures Shrinks(e, DoubleNegation(e))
    decreases Size(e)
  {
    match e
    case UnaryOp(Bang, x) => DoubleNegationShrinks(x);
    case BinOp(_, l, r) =>
      DoubleNegationShrinks(l);
      DoubleNegationShrinks(r);
    case Compare(_, l, r) =>
      DoubleNegationShrinks(l);
      DoubleNegationShrinks(r);
    case _ =>
  }

  lemma {:induction false} ZeroMultiplicationShrinks(e: Expr)
    ensures Shrinks(e, ZeroMultiplication(e))
  {
    if e.BinOp? {
      ZeroMultiplicationShrinks(e.left);
      ZeroMultiplicationShrinks(e.right);
    }
  }

  lemma {:induction false} AddressMaskShrinks(e: Expr)
    ensures Shrinks(e, AddressMask(e))
  {
    if e.BinOp? {
      AddressMaskShrinks(e.left);
      AddressMaskShrinks(e.right);
    }
  }

  lemma {:induction false} SelectorExtractionShrinks(e: Expr)
    ensures Shrinks(e, SelectorExtraction(e))
  {
    if e.BinOp? {
      SelectorExtractionShrinks(e.left);
      SelectorExtractionShrinks(e.right);
    }
  }

  lemma {:induction false} CalldataArgsShrinks(e: Expr)
    ensures Shrinks(e, CalldataArgs(e))
  {
    if e.BinOp? && e.op.And? {
      CalldataArgsShrinks(e.left);
      CalldataArgsShrinks(e.right);
    }
  }

  lemma TopLevelPassesShrink(e: Expr)
    ensures Shrinks(e, MemoryBoilerplate(ComparisonNormalize(e)))
  {
    if e.UnaryOp? && e.operand.Compare? {
      assert Size(e) == 1 + Size(e.operand);
      assert Size(e.operand) == 1 + Size(e.operand.left) + Size(e.operand.right);
    }
  }

  /** One round of all passes changes nothing, or makes the tree smaller. */
  lemma PassesShrink(e: Expr)
    ensures Shrinks(e, ApplyAllPasses(e))
  {
    hide ConstantFold, DoubleNegation, ZeroMultiplication, AddressMask, SelectorExtraction, CalldataArgs,
      ComparisonNormalize, MemoryBoilerplate, Size;
    var e1 := ConstantFold(e);
    ConstantFoldShrinks(e);
    var e2 := DoubleNegation(e1);
    DoubleNegationShrinks(e1);
    var e3 := ZeroMultiplication(e2);
    ZeroMultiplicationShrinks(e2);
    var e4 := AddressMask(e3);
    AddressMaskShrinks(e3);
    var e5 := SelectorExtraction(e4);
    SelectorExtractionShrinks(e4);
    CalldataArgsShrinks(e5);
    TopLevelPassesShrink(CalldataArgs(e5));
  }

  function Rounds(e: Expr, n: nat): Expr
    decreases n
  {
    if n == 0 then e else Rounds(ApplyAllPasses(e), n - 1)
  }

  lemma {:induction false} FixedStaysFixed(e: Expr, n: nat)
    requires ApplyAllPasses(e) == e
    ensures Rounds(e, n) == e
  {
    hide ApplyAllPasses;
    if n > 0 {
      FixedStaysFixed(e, n - 1);
    }
  }

  /** As many rounds as the tree has nodes beyond its root always reach an expression that no pass changes. */
  lemma {:induction false} PassesConverge(e: Expr, n: nat)
    requires n + 1 >= Size(e)
    ensures ApplyAllPasses(Rounds(e, n)) == Rounds(e, n)
    decreases n
  {
    hide ApplyAllPasses, Size;
    PassesShrink(e);
    if ApplyAllPasses(e) == e {
      FixedStaysFixed(e, n);
    } else {
      PassesConverge(ApplyAllPasses(e), n - 1);
    }
  }

  // ---- The printed form tells whether a round changed anything ----

  lemma {:induction false} ConstantFoldRewrites(e: Expr)
    ensures Rewrites(e, ConstantFold(e))
  {
    hide FoldConst;
    match e
    case BinOp(_, l, r) =>
      ConstantFoldRewrites(l);
      ConstantFoldRewrites(r);
    case UnaryOp(_, x) => ConstantFoldRewrites(x);
    case _ =>
  }

  lemma {:induction false} DoubleNegationRewrites(e: Expr)
    ensures Rewrites(e, DoubleNegation(e))
    decreases Size(e)
  {
    match e
    case UnaryOp(Bang, x) =>
      DoubleNegationRewrites(x);
      var inner := DoubleNegation(x);
      if IsBang(inner) {
        OperandIsDone(x);
      }
    case BinOp(_, l, r) =>
      DoubleNegationRewrites(l);
      DoubleNegationRewrites(r);
    case Compare(_, l, r) =>
      DoubleNegationRewrites(l);
      DoubleNegationRewrites(r);
    case _ =>
  }

  lemma OperandIsDone(x: Expr)
    requires IsBang(DoubleNegation(x))
    ensures DoubleNegation(DoubleNegation(x).operand) == DoubleNegation(x).operand
  {
    DoubleNegationIdempotent(x);
  }

  lemma {:induction false} ZeroMultiplicationRewrites(e: Expr)
    ensures Rewrites(e, ZeroMultiplication(e))
  {
    if e.BinOp? {
      ZeroMultiplicationRewrites(e.left);
      ZeroMultiplicationRewrites(e.right);
    }
  }

  lemma {:induction false} AddressMaskRewrites(e: Expr)
    ensures Rewrites(e, AddressMask(e))
  {
    if e.BinOp? {
      AddressMaskRewrites(e.left);
      AddressMaskRewrites(e.right);
    }
  }

  lemma {:induction false} SelectorExtractionRewrites(e: Expr)
    ensures Rewrites(e, SelectorExtraction(e))
  {
    if e.BinOp? {
      SelectorExtractionRewrites(e.left);
      SelectorExtractionRewrites(e.right);
    }
  }

  lemma {:induction false} CalldataArgsRewrites(e: Expr)
    ensures Rewrites(e, CalldataArgs(e))
  {
    if e.BinOp? && e.op.And? {
      CalldataArgsRewrites(e.left);
      CalldataArgsRewrites(e.right);
    }
  }

  /** What the passes that walk the tree do. */
  function WalkingPasses(e: Expr): Expr {
    CalldataArgs(SelectorExtraction(AddressMask(ZeroMultiplication(DoubleNegation(ConstantFold(e))))))
  }

  lemma WalkingPassesRewrite(e: Expr)
    ensures Rewrites(e, WalkingPasses(e))
  {
    hide Rewrites, ConstantFold, DoubleNegation, ZeroMultiplication, AddressMask, SelectorExtraction, CalldataArgs;
    var e1 := ConstantFold(e);
    ConstantFoldRewrites(e);
    var e2 := DoubleNegation(e1);
    DoubleNegationRewrites(e1);
    RewritesTransitive(e, e1, e2);
    var e3 := ZeroMultiplication(e2);
    ZeroMultiplicationRewrites(e2);
    RewritesTransitive(e, e2, e3);
    var e4 := AddressMask(e3);
    AddressMaskRewrites(e3);
    RewritesTransitive(e, e3, e4);
    var e5 := SelectorExtraction(e4);
    SelectorExtractionRewrites(e4);
    RewritesTransitive(e, e4, e5);
    CalldataArgsRewrites(e5);
    RewritesTransitive(e, e5, CalldataArgs(e5));
  }

  /** The two passes at the root change the first character. */
  lemma RootPassesShow(e: Expr, f: Expr)
    requires Rewrites(e, f)
    ensures var r := MemoryBoilerplate(ComparisonNormalize(f));
      r == f || (r != e && Repr(r) != "" && Repr(e) != "" && Repr(r)[0] != Repr(e)[0])
  {
  }

  /** A round leaves the printed form alone exactly when it leaves the expression alone. */
  lemma {:induction false} ReprTells(e: Expr)
    ensures Repr(e) == Repr(ApplyAllPasses(e)) <==> ApplyAllPasses(e) == e
  {
    var f := WalkingPasses(e);
    WalkingPassesRewrite(e);
    RootPassesShow(e, f);
    assert ApplyAllPasses(e) == MemoryBoilerplate(ComparisonNormalize(f));
    hide *;
    if ApplyAllPasses(e) == f && Repr(e) == Repr(f) {
      SameRepr(e, f);
    }
  }

  lemma SameRepr(e: Expr, f: Expr)
    requires Rewrites(e, f) && Repr(e) == Repr(f)
    ensures e == f
  {
    hide Repr, Rewrites;
    assert "" + Repr(e) + "" == Repr(f) + "";
    SameText("", e, f, "", "");
  }

  /** So `simplify` does all the rounds it is allowed, as far as they change anything. */
  lemma {:induction false} SettleIsRounds(e: Expr, n: nat)
    ensures Settle(e, n) == Rounds(e, n)
    decreases n
  {
    hide ApplyAllPasses, Repr;
    if n > 0 {
      ReprTells(e);
      if ApplyAllPasses(e) == e {
        FixedStaysFixed(e, n);
      } else {
        SettleIsRounds(ApplyAllPasses(e), n - 1);
      }
    }
  }

  /** How many rounds change the expression. */
  function RoundsNeeded(e: Expr): (n: nat)
    ensures n < Size(e)
    decreases Size(e)
  {
    PassesShrink(e);
    if ApplyAllPasses(e) == e then 0 else 1 + RoundsNeeded(ApplyAllPasses(e))
  }

  lemma {:induction false} RoundsFixedIff(e: Expr, n: nat)
    ensures ApplyAllPasses(Rounds(e, n)) == Rounds(e, n) <==> RoundsNeeded(e) <= n
    decreases n
  {
    hide ApplyAllPasses, Size;
    if n > 0 {
      if ApplyAllPasses(e) == e {
        FixedStaysFixed(e, n);
      } else {
        RoundsFixedIff(ApplyAllPasses(e), n - 1);
      }
    }
  }

  /**
   `simplify` ends at an expression that no pass changes exactly when its limit
   allows all the rounds that change something, which are fewer than the nodes.
   */
  lemma SettledIff(e: Expr, n: nat)
    ensures ApplyAllPasses(Settle(e, n)) == Settle(e, n) <==> RoundsNeeded(e) <= n
    ensures n + 1 >= Size(e) ==> ApplyAllPasses(Settle(e, n)) == Settle(e, n)
  {
    hide ApplyAllPasses, Settle, Rounds;
    SettleIsRounds(e, n);
    RoundsFixedIff(e, n);
  }

  /** And exactly then another call, with any limit, changes nothing. */
  lemma SimplifyAgainIff(e: Expr, n: nat, m: nat)
    requires m > 0
    ensures Settle(Settle(e, n), m) == Settle(e, n) <==> RoundsNeeded(e) <= n
  {
    hide ApplyAllPasses, Settle, RoundsNeeded;
    var r := Settle(e, n);
    SettledIff(e, n);
    SettleIsRounds(r, m);
    PassesShrink(r);
    RoundsShrink(ApplyAllPasses(r), m - 1);
    if ApplyAllPasses(r) == r {
      FixedStaysFixed(r, m);
    }
  }

  lemma {:induction false} RoundsShrink(e: Expr, n: nat)
    ensures Size(Rounds(e, n)) <= Size(e)
    decreases n
  {
    hide ApplyAllPasses, Size;
    if n > 0 {
      PassesShrink(e);
      RoundsShrink(ApplyAllPasses(e), n - 1);
    }
  }

  // ---- The composition does not settle within its five rounds ----

  /** `k` nested terms of the form (... + 0) * sender around a zero. */
  function Nested(k: nat): Expr {
    if k == 0 then Const(0) else BinOp(Mul, BinOp(Add, Nested(k - 1), Const(0)), MsgSender)
  }

  /** The same after constant folding, which reaches only the innermost sum. */
  function NestedFolded(k: nat): Expr
    requires k >= 1
  {
    if k == 1 then BinOp(Mul, Const(0), MsgSender)
    else BinOp(Mul, BinOp(Add, NestedFolded(k - 1), Const(0)), MsgSender)
  }

  lemma {:induction false} FoldOfNested(k: nat)
    requires k >= 1
    ensures ConstantFold(Nested(k)) == NestedFolded(k)
  {
    if k == 1 {
      assert Nested(0) == Const(0);
      assert ConstantFold(BinOp(Add, Const(0), Const(0))) == Const(0);
    } else {
      FoldOfNested(k - 1);
    }
  }

  lemma {:induction false} DoubleNegationOfFolded(k: nat)
    requires k >= 1
    ensures DoubleNegation(NestedFolded(k)) == NestedFolded(k)
  {
    if k > 1 {
      DoubleNegationOfFolded(k - 1);
    }
  }

  lemma {:induction false} ZeroMultiplicationOfFolded(k: nat)
    requires k >= 1
    ensures ZeroMultiplication(NestedFolded(k)) == Nested(k - 1)
  {
    if k > 1 {
      ZeroMultiplicationOfFolded(k - 1);
    }
  }

  lemma {:induction false} LaterPassesOfNested(k: nat)
    ensures AddressMask(Nested(k)) == Nested(k)
    ensures SelectorExtraction(Nested(k)) == Nested(k)
    ensures CalldataArgs(Nested(k)) == Nested(k)
    ensures ComparisonNormalize(Nested(k)) == Nested(k) && MemoryBoilerplate(Nested(k)) == Nested(k)
  {
    if k > 0 {
      LaterPassesOfNested(k - 1);
    }
  }

  /** One round of all passes removes one level. */
  lemma RoundOfNested(k: nat)
    requires k >= 1
    ensures ApplyAllPasses(Nested(k)) == Nested(k - 1)
  {
    hide Nested, NestedFolded, ConstantFold, DoubleNegation, ZeroMultiplication, AddressMask;
    hide SelectorExtraction, CalldataArgs, ComparisonNormalize, MemoryBoilerplate;
    FoldOfNested(k);
    DoubleNegationOfFolded(k);
    ZeroMultiplicationOfFolded(k);
    LaterPassesOfNested(k - 1);
  }

  lemma ReprOfNested(k: nat)
    requires k >= 1
    ensures Repr(Nested(k)) != Repr(Nested(k - 1))
  {
    assert |Repr(Nested(k))| > |Repr(BinOp(Add, Nested(k - 1), Const(0)))| > |Repr(Nested(k - 1))|;
  }

  /** `n` rounds remove `n` levels, no more. */
  lemma {:induction false} SettleOfNested(k: nat, n: nat)
    ensures n <= k ==> Settle(Nested(k), n) == Nested(k - n)
    decreases n
  {
    hide Nested, ApplyAllPasses, Repr;
    if 0 < n <= k {
      RoundOfNested(k);
      ReprOfNested(k);
      SettleOfNested(k - 1, n - 1);
    }
  }

  /** Every level needs a round of its own. */
  lemma {:induction false} NestedNeeds(k: nat)
    ensures RoundsNeeded(Nested(k)) == k
  {
    hide Nested, ApplyAllPasses, Repr;
    if k == 0 {
      LaterPassesOfNested(0);
      ZeroIsDone();
    } else {
      RoundOfNested(k);
      ReprOfNested(k);
      NestedNeeds(k - 1);
    }
  }

  lemma ZeroIsDone()
    ensures ApplyAllPasses(Nested(0)) == Nested(0)
  {
  }

  /** Six nested terms are enough: simplifying the simplified expression changes it again. */
  lemma SimplifyNotIdempotent(k: nat)
    requires k >= 6
    ensures MAX_PASSES == 5
    ensures Settle(Settle(Nested(k), MAX_PASSES), 1) != Settle(Nested(k), MAX_PASSES)
  {
    hide Settle;
    SettleOfNested(k, MAX_PASSES);
    SettleOfNested(k - MAX_PASSES, 1);
    ReprOfNested(k - MAX_PASSES);
  }
}
