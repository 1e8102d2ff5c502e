/** Normal forms. */
module NormalForm {
  // Which trees the passes leave alone, said of the trees.

  import opened Words
  import opened ExprIr
  import opened Simplifier

  // ---- The patterns ----

  /** Division by zero, exponentiation, unknown operators and left shifts beyond any memory are not folded. */
  predicate Foldable(op: BinaryOp, l: Expr, r: Expr) {
    && l.Const? && r.Const?
    && (op.Add? || op.Sub? || op.Mul? || op.And? || op.Or? || op.Xor? || op.Shr?
        || ((op.Div? || op.Mod?) && r.value > 0)
        || (op.Shl? && (l.value == 0 || r.value < 0x3_C0000000_00000000)))
  }

  predicate IsMask(e: Expr, mask: nat) {
    e.Const? && e.value == mask
  }

  /** Sender and arguments are addresses already. */
  predicate IsAddress(e: Expr) {
    e.MsgSender? || e.CalldataArg?
  }

  /** Something masked on the right. */
  predicate IsMasked(e: Expr) {
    e.BinOp? && e.op.And? && IsMask(e.right, ADDRESS_MASK)
  }

  /** A calldata word where an argument stands. */
  ghost predicate IsArgumentWord(e: Expr) {
    e.CalldataLoad? && e.offset.Const? && exists i: nat :: e.offset.value == 4 + 32 * i
  }

  predicate DividesSelectorConstant(e: Expr) {
    e.BinOp? && e.op.Div? && IsMask(e.left, SELECTOR_DIVISOR)
  }

  /** A negated comparison that has an inverse. */
  predicate IsNegatedComparison(e: Expr) {
    e.UnaryOp? && e.uop.Bang? && e.operand.Compare? && !e.operand.cop.OtherCompare?
  }

  predicate IsFreeMemoryPointer(e: Expr) {
    e.MemoryLoad? && IsMask(e.address, 0x40)
  }

  // ---- Trees without them, as far down as each pass looks ----

  predicate NothingToFold(e: Expr) {
    match e
    case BinOp(op, l, r) => NothingToFold(l) && NothingToFold(r) && !Foldable(op, l, r)
    case UnaryOp(op, x) => NothingToFold(x) && !(x.Const? && (op.Bang? || op.Tilde?))
    case _ => true
  }

  predicate NoDoubleNegation(e: Expr) {
    match e
    case BinOp(_, l, r) => NoDoubleNegation(l) && NoDoubleNegation(r)
    case Compare(_, l, r) => NoDoubleNegation(l) && NoDoubleNegation(r)
    case UnaryOp(Bang, x) => NoDoubleNegation(x) && !(x.UnaryOp? && x.uop.Bang?)
    case _ => true
  }

  predicate NoZeroProduct(e: Expr) {
    match e
    case BinOp(op, l, r) =>
      NoZeroProduct(l) && NoZeroProduct(r) && !(op.Mul? && (IsMask(l, 0) || IsMask(r, 0)))
    case _ => true
  }

  predicate NoMaskedAddress(e: Expr) {
    match e
    case BinOp(op, l, r) =>
      && NoMaskedAddress(l) && NoMaskedAddress(r)
      && (op.And? && IsMask(r, ADDRESS_MASK) ==> !IsAddress(l) && !IsMasked(l))
      && (op.And? && IsMask(l, ADDRESS_MASK) ==> !IsAddress(r))
    case _ => true
  }

  predicate NoMaskedQuotient(e: Expr) {
    match e
    case BinOp(op, l, r) =>
      && NoMaskedQuotient(l) && NoMaskedQuotient(r)
      && (op.And? && IsMask(r, SELECTOR_MASK) ==> !DividesSelectorConstant(l))
      && (op.And? && IsMask(l, SELECTOR_MASK) ==> !DividesSelectorConstant(r))
    case _ => true
  }

  ghost predicate NoMaskedArgument(e: Expr) {
    match e
    case BinOp(And, l, r) =>
      NoMaskedArgument(l) && NoMaskedArgument(r) && !(IsMask(r, ADDRESS_MASK) && IsArgumentWord(l))
    case _ => true
  }

  /** Nowhere that a pass looks is there anything left to rewrite. */
  ghost predicate Normal(e: Expr) {
    && NothingToFold(e) && NoDoubleNegation(e) && NoZeroProduct(e)
    && NoMaskedAddress(e) && NoMaskedQuotient(e) && NoMaskedArgument(e)
    && !IsNegatedComparison(e) && !IsFreeMemoryPointer(e)
  }

  // ---- Every pass against its pattern ----

  lemma FoldsIff(op: BinaryOp, l: Word, r: Word)
    ensures FoldConst(op, l, r).Some? <==> Foldable(op, Expr.Const(l), Expr.Const(r))
  {
    hide Pow;
  }

  lemma FoldsConstants(op: BinaryOp, l: Expr, r: Expr)
    ensures Foldable(op, l, r) ==> l.Const? && r.Const?
  {
  }

  lemma {:induction false} FoldStopsIff(e: Expr)
    ensures ConstantFold(e) == e <==> NothingToFold(e)
  {
    hide FoldConst, Foldable;
    match e
    case BinOp(op, l, r) =>
      FoldStopsIff(l);
      FoldStopsIff(r);
      if l.Const? && r.Const? {
        FoldsIff(op, l.value, r.value);
        assert l == Expr.Const(l.value) && r == Expr.Const(r.value);
      } else {
        FoldsConstants(op, l, r);
      }
    case UnaryOp(_, x) => FoldStopsIff(x);
    case _ =>
  }

  lemma {:induction false} NegationStopsIff(e: Expr)
    ensures DoubleNegation(e) == e <==> NoDoubleNegation(e)
  {
    match e
    case BinOp(_, l, r) =>
      NegationStopsIff(l);
      NegationStopsIff(r);
    case Compare(_, l, r) =>
      NegationStopsIff(l);
      NegationStopsIff(r);
    case UnaryOp(Bang, x) => NegationStopsIff(x);
    case _ =>
  }

  lemma {:induction false} ZeroStopsIff(e: Expr)
    ensures ZeroMultiplication(e) == e <==> NoZeroProduct(e)
  {
    if e.BinOp? {
      ZeroStopsIff(e.left);
      ZeroStopsIff(e.right);
    }
  }

  lemma {:induction false} MaskStopsIff(e: Expr)
    ensures AddressMask(e) == e <==> NoMaskedAddress(e)
  {
    if e.BinOp? {
      MaskStopsIff(e.left);
      MaskStopsIff(e.right);
      AddressMaskShrinks(e.left);
      AddressMaskShrinks(e.right);
    }
  }

  lemma {:induction false} SelectorStopsIff(e: Expr)
    ensures SelectorExtraction(e) == e <==> NoMaskedQuotient(e)
  {
    if e.BinOp? {
      SelectorStopsIff(e.left);
      SelectorStopsIff(e.right);
    }
  }

  /** The argument at an offset, and the offset of an argument. */
  lemma ArgumentWordIff(e: Expr)
    ensures IsArgumentWord(e) <==> e.CalldataLoad? && ArgIndex(e.offset).Some?
    ensures IsArgumentWord(e) ==> 4 + 32 * ArgIndex(e.offset).value == e.offset.value
  {
    if e.CalldataLoad? && ArgIndex(e.offset).Some? {
      assert e.offset.value == 4 + 32 * ArgIndex(e.offset).value;
    }
  }

  lemma {:induction false} ArgumentStopsIff(e: Expr)
    ensures CalldataArgs(e) == e <==> NoMaskedArgument(e)
  {
    hide ArgIndex, IsArgumentWord;
    if e.BinOp? && e.op.And? {
      ArgumentStopsIff(e.left);
      ArgumentStopsIff(e.right);
      ArgumentWordIff(e.left);
    }
  }

  lemma RootStopsIff(e: Expr)
    ensures ComparisonNormalize(e) == e <==> !IsNegatedComparison(e)
    ensures MemoryBoilerplate(e) == e <==> !IsFreeMemoryPointer(e)
  {
  }

  // ---- All passes ----

  /** No pass can undo another, so a round changes nothing only if no pass does. */
  lemma EachStops(e: Expr)
    ensures ApplyAllPasses(e) == e <==>
      && ConstantFold(e) == e && DoubleNegation(e) == e && ZeroMultiplication(e) == e && AddressMask(e) == e
      && SelectorExtraction(e) == e && CalldataArgs(e) == e && ComparisonNormalize(e) == e && MemoryBoilerplate(e) == e
  {
    hide ConstantFold, DoubleNegation, ZeroMultiplication, AddressMask, SelectorExtraction, CalldataArgs,
      ComparisonNormalize, MemoryBoilerplate, Size;
    var e1 := ConstantFold(e);
    ConstantFoldShrinks(e);
    var e2 := DoubleNegation(e1);
    DoubleNegationShrinks(e1);
    var e3 := ZeroMultiplication(e2);
    ZeroMultiplicationShrinks(e2);
    var e4 := AddressMask(e3);
    AddressMaskShrinks(e3);
    var e5 := SelectorExtraction(e4);
    SelectorExtractionShrinks(e4);
    var e6 := CalldataArgs(e5);
    CalldataArgsShrinks(e5);
    var e7 := ComparisonNormalize(e6);
    RootPassesShrink(e6);
    RootPassesShrink(e7);
  }

  lemma RootPassesShrink(e: Expr)
    ensures Shrinks(e, ComparisonNormalize(e)) && Shrinks(e, MemoryBoilerplate(e))
  {
    if e.UnaryOp? && e.operand.Compare? {
      assert Size(e) == 1 + Size(e.operand);
      assert Size(e.operand) == 1 + Size(e.operand.left) + Size(e.operand.right);
    }
  }

  /** The passes leave alone exactly the trees with nothing left to rewrite. */
  lemma NormalIff(e: Expr)
    ensures ApplyAllPasses(e) == e <==> Normal(e)
  {
    hide ConstantFold, DoubleNegation, ZeroMultiplication, AddressMask, SelectorExtraction, CalldataArgs,
      ComparisonNormalize, MemoryBoilerplate, ApplyAllPasses, NothingToFold, NoDoubleNegation, NoZeroProduct,
      NoMaskedAddress, NoMaskedQuotient, NoMaskedArgument, IsNegatedComparison, IsFreeMemoryPointer;
    EachStops(e);
    FoldStopsIff(e);
    NegationStopsIff(e);
    ZeroStopsIff(e);
    MaskStopsIff(e);
    SelectorStopsIff(e);
    ArgumentStopsIff(e);
    RootStopsIff(e);
  }

  /** `simplify` ends at a normal form exactly if its limit allows all the rounds that change something. */
  lemma SettlesToNormalIff(e: Expr, n: nat)
    ensures Normal(Settle(e, n)) <==> RoundsNeeded(e) <= n
    ensures n + 1 >= Size(e) ==> Normal(Settle(e, n))
  {
    hide Normal, ApplyAllPasses, Settle, RoundsNeeded, Size;
    SettledIff(e, n);
    NormalIff(Settle(e, n));
  }

  // ---- What the recognised patterns become ----

  /** The masked calldata word of argument `i` becomes that argument, an address read at its offset. */
  lemma ArgumentRecognised(i: nat)
    requires 4 + 32 * i < MODULUS
    ensures var word := BinOp(And, CalldataLoad(Expr.Const(4 + 32 * i)), Expr.Const(ADDRESS_MASK));
      CalldataArgs(word) == CalldataArg(i, Some("address"), Some(4 + 32 * i))
  {
  }
}
