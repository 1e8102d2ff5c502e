/** The abstract stack simulator. */
module StackSim {
  // Constant propagation over one basic block, and how far its constants can be
  // trusted.

  import opened Words
  import opened Opcodes
  import opened Disassembler
  import opened Exchange
  import opened InstructionTable
  import Blocks
  import Evm
  import PowerExchange

  /** The text of an expression is not kept. */
  datatype StackValue = Const(value: Word) | Expr | Unknown

  /** A recorded memory or storage access; reads have no value. */
  datatype AccessKind = MemoryAccess | StorageAccess
  datatype Access = Access(kind: AccessKind, offset: nat, place: StackValue, value: Option<StackValue>)

  datatype BlockTrace = BlockTrace(
    entryStack: seq<StackValue>,
    exitStack: seq<StackValue>,
    branchCondition: Option<StackValue>,
    branchTrueTarget: Option<Word>,
    branchFalseTarget: Option<nat>,
    accesses: seq<Access>)

  // ---- One instruction ----

  /** Two's complement wrap of a folded operation on `a`, the second word, and `b`, the top. */
  function FoldBinary(op: Op, a: Word, b: Word): Option<Word> {
    match op
    case ADD => Some(Wrap(a + b))
    case SUB => Some(Wrap(a - b))
    case MUL => Some(Wrap(a * b))
    case DIV => Some(if b != 0 then a / b else 0)
    case MOD => Some(if b != 0 then a % b else 0)
    case EXP => Some(Wrap(Pow(a, b)))
    case AND => Some(Evm.And(a, b))
    case OR => Some(Evm.Or(a, b))
    case XOR => Some(Evm.Xor(a, b))
    case LT => Some(if b < a then 1 else 0)
    case GT => Some(if b > a then 1 else 0)
    case EQ => Some(if b == a then 1 else 0)
    case SHL => Some(if a >= 256 then 0 else Wrap(b * Pow(2, a)))
    case SHR => Some(if a >= 256 then 0 else Evm.Halve(b, a))
    case _ => None
  }

  function FoldUnary(op: Op, a: Word): Option<Word> {
    match op
    case ISZERO => Some(if a == 0 then 1 else 0)
    case NOT => Some(MODULUS - 1 - a)
    case _ => None
  }

  /** Instructions without a branch of their own: their result is unknown rather than an expression. */
  predicate HasNoRule(op: Op) {
    op.SDIV? || op.SMOD? || op.CALLCODE? || op.BLOBHASH? || op.BLOBBASEFEE?
  }

  /** What an instruction with enough operands pushes, other than a PUSH, DUP or SWAP. */
  function Result(op: Op, offset: nat, stack: seq<StackValue>): (r: seq<StackValue>)
    requires |stack| >= StackIn(op) && !op.PUSH? && !op.DUP? && !op.SWAP?
    ensures |r| == StackOut(op)
  {
    if StackOut(op) == 0 then []
    else if op.PC? then [Const(Wrap(offset))]
    else if StackIn(op) == 2 && Top(stack, 1).Const? && Top(stack, 0).Const?
      && FoldBinary(op, Top(stack, 1).value, Top(stack, 0).value).Some?
    then [Const(FoldBinary(op, Top(stack, 1).value, Top(stack, 0).value).value)]
    else if StackIn(op) == 1 && Top(stack, 0).Const? && FoldUnary(op, Top(stack, 0).value).Some?
    then [Const(FoldUnary(op, Top(stack, 0).value).value)]
    else [if HasNoRule(op) then Unknown else Expr]
  }

  /** The `k`-th value from the top. */
  function Top(stack: seq<StackValue>, k: nat): StackValue
    requires k < |stack|
  {
    stack[|stack| - 1 - k]
  }

  function SimStep(inst: Instruction, stack: seq<StackValue>): seq<StackValue> {
    var op := inst.op;
    if op.PUSH? then stack + [Const(Wrap(inst.operandValue.GetOr(0)))]
    else if op.DUP? then
      stack + [if 1 <= op.n <= |stack| then Top(stack, op.n - 1) else Unknown]
    else if op.SWAP? then
      if |stack| >= op.n + 1 then
        stack[|stack| - 1 := Top(stack, op.n)][|stack| - 1 - op.n := Top(stack, 0)]
      else stack
    else if op.JUMPI? && |stack| < 2 then stack
    else if |stack| >= StackIn(op) then
      stack[..|stack| - StackIn(op)] + Result(op, inst.offset, stack)
    else seq(StackOut(op), _ => Unknown)
  }

  /** The accesses an instruction adds to the trace. MSTORE and SSTORE take the value first, then the place. */
  function Accesses(inst: Instruction, stack: seq<StackValue>): seq<Access> {
    match inst.op
    case MLOAD => if |stack| >= 1 then [Access(MemoryAccess, inst.offset, Top(stack, 0), None)] else []
    case SLOAD => if |stack| >= 1 then [Access(StorageAccess, inst.offset, Top(stack, 0), None)] else []
    case MSTORE | MSTORE8 =>
      if |stack| >= 2 then [Access(MemoryAccess, inst.offset, Top(stack, 1), Some(Top(stack, 0)))] else []
    case SSTORE =>
      if |stack| >= 2 then [Access(StorageAccess, inst.offset, Top(stack, 1), Some(Top(stack, 0)))] else []
    case _ => []
  }

  /** `next` is the offset of the instruction behind it, if the block has one. */
  function TraceStep(t: BlockTrace, inst: Instruction, next: Option<nat>): BlockTrace {
    var stack := t.exitStack;
    var jumpi := inst.op.JUMPI? && |stack| >= 2;
    var jumps := jumpi || (inst.op.JUMP? && |stack| >= 1);
    t.(exitStack := SimStep(inst, stack),
       branchCondition := if jumpi then Some(Top(stack, 1)) else t.branchCondition,
       branchTrueTarget :=
         if !jumps then t.branchTrueTarget
         else if Top(stack, 0).Const? then Some(Top(stack, 0).value) else None,
       branchFalseTarget := if jumpi && next.Some? then next else t.branchFalseTarget,
       accesses := t.accesses + Accesses(inst, stack))
  }

  /** The trace after the first `k` instructions. */
  function TraceOf(instrs: seq<Instruction>, entry: seq<StackValue>, k: nat): BlockTrace
    requires k <= |instrs|
  {
    if k == 0 then BlockTrace(entry, entry, None, None, None, [])
    else TraceStep(TraceOf(instrs, entry, k - 1), instrs[k-1], NextOffset(instrs, k))
  }

  function NextOffset(instrs: seq<Instruction>, k: nat): Option<nat> {
    if k < |instrs| then Some(instrs[k].offset) else None
  }

  /** Pop up to `n` values. */
  method PopValues(stack0: seq<StackValue>, n: nat) returns (stack: seq<StackValue>, popped: seq<StackValue>)
    ensures |popped| == if n <= |stack0| then n else |stack0|
    ensures stack == stack0[..|stack0| - |popped|]
    ensures forall k :: 0 <= k < |popped| ==> popped[k] == Top(stack0, k)
  {
    stack, popped := stack0, [];
    while |popped| < n && stack != []
      invariant |popped| <= n && |popped| <= |stack0|
      invariant stack == stack0[..|stack0| - |popped|]
      invariant forall k :: 0 <= k < |popped| ==> popped[k] == Top(stack0, k)
      decreases n - |popped|
    {
      popped := popped + [stack[|stack|-1]];
      stack := stack[..|stack|-1];
    }
  }

  /** What is pushed for the popped operands, the first of them the former top. */
  method Evaluate(op: Op, offset: nat, popped: seq<StackValue>, ghost stack: seq<StackValue>) returns (v: StackValue)
    requires !op.PUSH? && !op.DUP? && !op.SWAP? && StackOut(op) == 1 && |stack| >= StackIn(op)
    requires |popped| == StackIn(op) && forall k :: 0 <= k < |popped| ==> popped[k] == Top(stack, k)
    ensures [v] == Result(op, offset, stack)
  {
    hide FoldBinary, FoldUnary;
    if op.PC? {
      return Const(Wrap(offset));
    }
    if |popped| == 2 && popped[0].Const? && popped[1].Const? {
      var folded := FoldBinary(op, popped[1].value, popped[0].value);
      if folded.Some? {
        return Const(folded.value);
      }
    } else if |popped| == 1 && popped[0].Const? {
      var folded := FoldUnary(op, popped[0].value);
      if folded.Some? {
        return Const(folded.value);
      }
    }
    v := if HasNoRule(op) then Unknown else Expr;
  }

  method SimulateInstruction(inst: Instruction, stack0: seq<StackValue>) returns (stack: seq<StackValue>)
    requires inst.op.DUP? || inst.op.SWAP? ==> inst.op.n >= 1
    ensures stack == SimStep(inst, stack0)
  {
    hide FoldBinary, FoldUnary, Result;
    stack := stack0;
    var op := inst.op;
    if op.PUSH? {
      stack := stack + [Const(Wrap(inst.operandValue.GetOr(0)))];
    } else if op.DUP? {
      if |stack| >= op.n {
        stack := stack + [stack[|stack| - op.n]];
      } else {
        stack := stack + [Unknown];
      }
    } else if op.SWAP? {
      if |stack| >= op.n + 1 {
        var top := |stack| - 1;
        var other := |stack| - 1 - op.n;
        stack := stack[top := stack[other]][other := stack[top]];
      }
    } else if op.JUMPI? && |stack| < 2 {
    } else {
      var enough := |stack| >= StackIn(op);
      var popped;
      stack, popped := PopValues(stack, StackIn(op));
      if StackOut(op) == 1 {
        if enough {
          var v := Evaluate(op, inst.offset, popped, stack0);
          stack := stack + [v];
        } else {
          stack := stack + [Unknown];
          assert stack == seq(StackOut(op), _ => Unknown);
        }
      } else {
        OutputsAtMostOne(op);
        assert enough ==> Result(op, inst.offset, stack0) == [];
        assert !enough ==> stack == seq(StackOut(op), _ => Unknown);
      }
    }
  }

  lemma OutputsAtMostOne(op: Op)
    requires !op.DUP? && !op.SWAP?
    ensures StackOut(op) <= 1
  {
  }

  method SimulateBlock(instrs: seq<Instruction>, entry: seq<StackValue>) returns (trace: BlockTrace)
    requires forall i :: 0 <= i < |instrs| && (instrs[i].op.DUP? || instrs[i].op.SWAP?) ==> instrs[i].op.n >= 1
    ensures trace == TraceOf(instrs, entry, |instrs|)
  {
    hide SimStep;
    var stack := entry;
    var branchCondition: Option<StackValue> := None;
    var branchTrue: Option<Word> := None;
    var branchFalse: Option<nat> := None;
    var accesses: seq<Access> := [];
    for idx := 0 to |instrs|
      invariant BlockTrace(entry, stack, branchCondition, branchTrue, branchFalse, accesses)
             == TraceOf(instrs, entry, idx)
    {
      var inst := instrs[idx];
      if inst.op.JUMP? && |stack| >= 1 {
        branchTrue := if Top(stack, 0).Const? then Some(Top(stack, 0).value) else None;
      } else if inst.op.JUMPI? && |stack| >= 2 {
        branchCondition := Some(Top(stack, 1));
        branchTrue := if Top(stack, 0).Const? then Some(Top(stack, 0).value) else None;
        if idx + 1 < |instrs| {
          branchFalse := Some(instrs[idx + 1].offset);
        }
      }
      accesses := accesses + Accesses(inst, stack);
      stack := SimulateInstruction(inst, stack);
    }
    trace := BlockTrace(entry, stack, branchCondition, branchTrue, branchFalse, accesses);
  }

  // ---- Soundness ----

  /** The abstract value allows the concrete word. */
  predicate Allows(v: StackValue, w: Word) {
    v.Const? ==> v.value == w
  }

  /** Same height, and every constant is the true word. */
  ghost predicate Abstracts(stack: seq<StackValue>, words: seq<Word>) {
    |stack| == |words| && forall i :: 0 <= i < |stack| ==> Allows(stack[i], words[i])
  }

  /** Folding at this point would use a reversed instruction on operands that may not be exchanged. */
  predicate WrongFold(op: Op, stack: seq<StackValue>) {
    && Reversed(op) && |stack| >= 2 && Top(stack, 0).Const? && Top(stack, 1).Const?
    && !MayExchange(op, Top(stack, 0).value, Top(stack, 1).value)
  }

  /** What the machine does to the stack at this instruction, whether or not it halts afterwards. */
  ghost predicate ConcreteStep(code: seq<Byte>, inst: Instruction, words: seq<Word>, after: seq<Word>) {
    && |words| >= Evm.Table(inst.op).removed
    && if inst.op.PUSH? || inst.op.DUP? || inst.op.SWAP? then
         && (inst.op.PUSH? ==> inst.op.n <= 32)
         && (inst.op.DUP? ==> 1 <= inst.op.n <= |words|)
         && (inst.op.SWAP? ==> 1 <= inst.op.n < |words|)
         && after == Evm.Shuffle(code, inst.offset, inst.op, words)
       else
         Evm.StackStep(inst.op, inst.offset, words, after)
  }

  lemma BitwiseCommute(x: nat, y: nat)
    ensures BitAnd(x, y) == BitAnd(y, x) && BitOr(x, y) == BitOr(y, x) && BitXor(x, y) == BitXor(y, x)
    decreases x + y
  {
    if x > 0 && y > 0 {
      BitwiseCommute(x / 2, y / 2);
    }
  }

  /** A fold computes the machine's instruction with the operands exchanged, so it is right unless the order matters. */
  lemma {:induction false} FoldIsSwapped(op: Op, second: Word, top: Word)
    ensures Reversed(op) ==> FoldBinary(op, second, top) == Evm.Binary(op, second, top)
    ensures !Reversed(op) ==> FoldBinary(op, second, top) == Evm.Binary(op, top, second)
  {
    hide FoldBinary, Evm.Binary;
    if op.AND? || op.OR? || op.XOR? {
      BitwiseFold(op, second, top);
    } else {
      WordFold(op, second, top);
    }
  }

  lemma BitwiseFold(op: Op, second: Word, top: Word)
    requires op.AND? || op.OR? || op.XOR?
    ensures FoldBinary(op, second, top) == Evm.Binary(op, top, second)
  {
    hide BitAnd, BitOr, BitXor, Wrap, Pow;
    BitwiseCommute(second, top);
  }

  lemma WordFold(op: Op, second: Word, top: Word)
    requires !op.AND? && !op.OR? && !op.XOR?
    ensures FoldBinary(op, second, top) == if Reversed(op) then Evm.Binary(op, second, top) else Evm.Binary(op, top, second)
  {
    hide Pow, Evm.Halve, Evm.And, Evm.Or, Evm.Xor, Wrap;
    if op.MUL? {
      MulCommutes(second, top);
    }
  }

  /** So a fold is the machine's instruction exactly when its operands may be exchanged or need not be. */
  lemma FoldIsRight(op: Op, second: Word, top: Word)
    ensures FoldBinary(op, second, top) == Evm.Binary(op, top, second) <==> Reversed(op) ==> MayExchange(op, top, second)
  {
    hide FoldBinary, Evm.Binary, MayExchange;
    FoldIsSwapped(op, second, top);
    if Reversed(op) {
      PowerExchange.ExchangeIff(op, top, second);
    }
  }

  lemma MulCommutes(x: nat, y: nat)
    ensures x * y == y * x
  {
  }

  lemma UnaryFold(op: Op, x: Word)
    ensures FoldUnary(op, x) == Evm.Unary(op, x)
  {
  }

  /** An ordinary instruction keeps the abstraction unless it folds in the wrong order. */
  lemma {:induction false} ResultSound(op: Op, offset: nat, stack: seq<StackValue>, words: seq<Word>, after: seq<Word>)
    requires !op.PUSH? && !op.DUP? && !op.SWAP?
    requires Abstracts(stack, words) && |stack| >= StackIn(op) && |words| >= Evm.Table(op).removed
    requires Evm.StackStep(op, offset, words, after) && !WrongFold(op, stack)
    ensures Abstracts(stack[..|stack| - StackIn(op)] + Result(op, offset, stack), after)
  {
    EffectsAre(op);
    hide Result, Evm.Binary, Evm.Unary, Evm.Table, WrongFold, StackIn, StackOut;
    var n := |stack| - StackIn(op);
    OutputsAtMostOne(op);
    if StackOut(op) == 1 {
      ResultAllowed(op, offset, stack, words, after);
    }
    forall i | 0 <= i < n ensures Allows(stack[i], after[i]) {
      assert after[i] == Evm.Drop(words, StackIn(op))[i];
    }
  }

  lemma {:induction false} ResultAllowed(op: Op, offset: nat, stack: seq<StackValue>, words: seq<Word>, after: seq<Word>)
    requires !op.PUSH? && !op.DUP? && !op.SWAP? && StackOut(op) == 1
    requires Abstracts(stack, words) && |stack| >= StackIn(op) && |words| >= Evm.Table(op).removed
    requires Evm.StackStep(op, offset, words, after) && !WrongFold(op, stack)
    ensures after != [] && Allows(Result(op, offset, stack)[0], after[|after|-1])
  {
    EffectsAre(op);
    hide FoldBinary, FoldUnary, Evm.Binary, Evm.Unary, Evm.Table, MayExchange, Reversed, HasNoRule, StackIn, StackOut, Abstracts;
    assert after[|after|-1] == Evm.Peek(after, 0);
    SameHeight(stack, words);
    if StackIn(op) == 2 && Top(stack, 1).Const? && Top(stack, 0).Const? {
      FoldIsRight(op, Top(stack, 1).value, Top(stack, 0).value);
      OperandAllowed(stack, words, 0);
      OperandAllowed(stack, words, 1);
    } else if StackIn(op) == 1 && Top(stack, 0).Const? {
      UnaryFold(op, Top(stack, 0).value);
      OperandAllowed(stack, words, 0);
    }
  }

  lemma SameHeight(stack: seq<StackValue>, words: seq<Word>)
    requires Abstracts(stack, words)
    ensures |stack| == |words|
  {
  }

  lemma OperandAllowed(stack: seq<StackValue>, words: seq<Word>, k: nat)
    requires Abstracts(stack, words) && k < |stack| && k < |words|
    ensures Allows(Top(stack, k), Evm.Peek(words, k))
  {
  }

  /** DUP, SWAP and a PUSH with its true operand keep the abstraction. */
  lemma {:induction false} ShuffleSound(code: seq<Byte>, inst: Instruction, stack: seq<StackValue>, words: seq<Word>)
    requires inst.op.PUSH? || inst.op.DUP? || inst.op.SWAP?
    requires inst.op.PUSH? ==> inst.op.n <= 32 && inst.operandValue == Some(Evm.PushWord(code, inst.offset, inst.op.n) as nat)
    requires inst.op.DUP? || inst.op.SWAP? ==> inst.op.n >= 1
    requires Abstracts(stack, words) && |words| >= StackIn(inst.op)
    ensures Abstracts(SimStep(inst, stack), Evm.Shuffle(code, inst.offset, inst.op, words))
  {
    hide Evm.PushWord;
    if inst.op.PUSH? {
      WrapIsIdentity(Evm.PushWord(code, inst.offset, inst.op.n));
    }
  }

  lemma WrapIsIdentity(w: Word)
    ensures Wrap(w) == w
  {
  }

  /** One instruction keeps the abstraction. */
  lemma StepSound(code: seq<Byte>, inst: Instruction, stack: seq<StackValue>, words: seq<Word>, after: seq<Word>)
    requires Abstracts(stack, words) && ConcreteStep(code, inst, words, after) && !WrongFold(inst.op, stack)
    requires inst.op.PUSH? ==> inst.operandValue == Some(Evm.PushWord(code, inst.offset, inst.op.n) as nat)
    ensures Abstracts(SimStep(inst, stack), after)
  {
    hide Result, Evm.StackStep, Evm.Shuffle, WrongFold;
    if inst.op.PUSH? || inst.op.DUP? || inst.op.SWAP? {
      ShuffleSound(code, inst, stack, words);
    } else {
      ResultSound(inst.op, inst.offset, stack, words, after);
    }
  }

  /** A step of the machine at an instruction that the code does not cut off is such a step. */
  lemma MachineStepIsConcrete(code: seq<Byte>, s: Evm.Machine, t: Evm.Machine)
    requires Evm.Step(code, s, t) && t.pc < |code|
    ensures var inst := InstructionAt(code, s.pc);
      && ConcreteStep(code, inst, s.stack, t.stack)
      && (inst.op.PUSH? ==> inst.operandValue == Some(Evm.PushWord(code, inst.offset, inst.op.n) as nat))
  {
    ShuffleRemoves(Decode(code[s.pc]));
    StepIs(code, s, t);
    hide Decode, Evm.StackStep, Evm.Step, Evm.Table, Evm.Stands, Evm.Shuffle, Evm.PushWord;
    if Decode(code[s.pc]).PUSH? {
      NextStartIs(s.pc, code[s.pc]);
      PushedWord(code, s.pc);
    }
  }

  lemma ShuffleRemoves(op: Op)
    ensures op.DUP? ==> Evm.Table(op).removed == op.n
    ensures op.SWAP? ==> Evm.Table(op).removed == op.n + 1
  {
  }

  /** Words before and after every instruction of a block, with PUSH operands not cut off. */
  ghost predicate Executes(code: seq<Byte>, instrs: seq<Instruction>, words: seq<seq<Word>>) {
    && |words| == |instrs| + 1
    && forall i, j :: 0 <= i && j == i + 1 && j < |words| ==>
         && ConcreteStep(code, instrs[i], words[i], words[j])
         && (instrs[i].op.PUSH? ==> instrs[i].operandValue == Some(Evm.PushWord(code, instrs[i].offset, instrs[i].op.n) as nat))
  }

  /**
   From an entry stack of the true height whose constants are true, a block
   ends at the true height with true constants, as long as no instruction
   folds operands in the wrong order.
   */
  lemma {:induction false} BlockSound(
    code: seq<Byte>, instrs: seq<Instruction>, entry: seq<StackValue>, words: seq<seq<Word>>, k: nat)
    requires Executes(code, instrs, words) && Abstracts(entry, words[0]) && k <= |instrs|
    requires forall i :: 0 <= i < k ==> !WrongFold(instrs[i].op, TraceOf(instrs, entry, i).exitStack)
    ensures Abstracts(TraceOf(instrs, entry, k).exitStack, words[k])
  {
    hide SimStep, ConcreteStep, WrongFold, Evm.PushWord;
    if k > 0 {
      BlockSound(code, instrs, entry, words, k - 1);
      var stack := TraceOf(instrs, entry, k - 1).exitStack;
      assert ConcreteStep(code, instrs[k-1], words[k-1], words[k]);
      StepSound(code, instrs[k-1], stack, words[k-1], words[k]);
    }
  }

  // ---- Completeness ----

  /** The machine computes the pushed word from its operands alone. */
  predicate Computes(op: Op) {
    op.PC? || ComputesUnary(op) || ComputesBinary(op)
  }

  predicate ComputesUnary(op: Op) {
    op.ISZERO? || op.NOT?
  }

  predicate ComputesBinary(op: Op) {
    || op.ADD? || op.MUL? || op.SUB? || op.DIV? || op.MOD? || op.EXP? || op.LT? || op.GT? || op.EQ?
    || op.AND? || op.OR? || op.XOR? || op.SHL? || op.SHR?
  }

  lemma ComputesOne(op: Op)
    ensures ComputesUnary(op) ==> StackIn(op) == 1 && StackOut(op) == 1
    ensures ComputesBinary(op) ==> StackIn(op) == 2 && StackOut(op) == 1
    ensures op.PC? ==> StackIn(op) == 0 && StackOut(op) == 1
  {
  }

  lemma ComputedHasValue(op: Op, x: Word, y: Word)
    ensures Evm.Unary(op, x).Some? <==> ComputesUnary(op)
    ensures Evm.Binary(op, x, y).Some? <==> ComputesBinary(op)
  {
    hide Pow, Evm.ShiftRight, Evm.ShiftLeft, Evm.Divide, Evm.Modulo, Evm.And, Evm.Or, Evm.Xor, Wrap;
  }

  /** The operands the instruction takes are known. */
  predicate OperandsKnown(op: Op, stack: seq<StackValue>)
    requires |stack| >= StackIn(op)
  {
    forall k :: 0 <= k < StackIn(op) ==> Top(stack, k).Const?
  }

  lemma FoldsComputed(op: Op, second: Word, top: Word)
    ensures FoldBinary(op, second, top).Some? <==> ComputesBinary(op)
    ensures FoldUnary(op, top).Some? <==> ComputesUnary(op)
  {
    hide FoldBinary, FoldUnary, Evm.Binary, Evm.Unary;
    FoldIsSwapped(op, second, top);
    UnaryFold(op, top);
    ComputedHasValue(op, top, second);
    ComputedHasValue(op, second, top);
  }

  lemma BinaryKnown(op: Op, offset: nat, stack: seq<StackValue>)
    requires !op.PUSH? && !op.DUP? && !op.SWAP? && StackOut(op) == 1 && |stack| >= StackIn(op) == 2
    ensures Result(op, offset, stack)[0].Const? <==>
      op.PC? || (ComputesBinary(op) && Top(stack, 0).Const? && Top(stack, 1).Const?)
  {
    hide StackIn, StackOut, FoldBinary, FoldUnary, ComputesBinary, HasNoRule;
    if Top(stack, 0).Const? && Top(stack, 1).Const? {
      FoldsComputed(op, Top(stack, 1).value, Top(stack, 0).value);
    }
  }

  lemma UnaryKnown(op: Op, offset: nat, stack: seq<StackValue>)
    requires !op.PUSH? && !op.DUP? && !op.SWAP? && StackOut(op) == 1 && |stack| >= StackIn(op) == 1
    ensures Result(op, offset, stack)[0].Const? <==> op.PC? || (ComputesUnary(op) && Top(stack, 0).Const?)
  {
    hide StackIn, StackOut, FoldBinary, FoldUnary, ComputesUnary, HasNoRule;
    if Top(stack, 0).Const? {
      FoldsComputed(op, Top(stack, 0).value, Top(stack, 0).value);
    }
  }

  lemma OperandsKnownAre(op: Op, stack: seq<StackValue>)
    requires |stack| >= StackIn(op)
    ensures StackIn(op) == 0 ==> OperandsKnown(op, stack)
    ensures StackIn(op) == 1 ==> (OperandsKnown(op, stack) <==> Top(stack, 0).Const?)
    ensures StackIn(op) == 2 ==> (OperandsKnown(op, stack) <==> Top(stack, 0).Const? && Top(stack, 1).Const?)
  {
    hide StackIn, Top;
    assert StackIn(op) == 2 && Top(stack, 0).Const? && Top(stack, 1).Const? ==>
      forall k :: 0 <= k < 2 ==> Top(stack, k).Const?;
  }

  /** A pushed word is known exactly if the machine computes it from operands that are known. */
  lemma {:induction false} ResultKnownIff(op: Op, offset: nat, stack: seq<StackValue>)
    requires !op.PUSH? && !op.DUP? && !op.SWAP? && StackOut(op) == 1 && |stack| >= StackIn(op)
    ensures Result(op, offset, stack)[0].Const? <==> Computes(op) && OperandsKnown(op, stack)
  {
    ComputesOne(op);
    OperandsKnownAre(op, stack);
    hide StackIn, StackOut, ComputesUnary, ComputesBinary, OperandsKnown, Top;
    if StackIn(op) == 2 {
      hide Result;
      BinaryKnown(op, offset, stack);
    } else if StackIn(op) == 1 {
      hide Result;
      UnaryKnown(op, offset, stack);
    }
  }

  /** The five instructions with a word that the simulator has no rule for. */
  lemma UnknownIff(b: Byte, offset: nat, stack: seq<StackValue>)
    requires var op := Decode(b);
      !op.PUSH? && !op.DUP? && !op.SWAP? && StackOut(op) == 1 && |stack| >= StackIn(op)
    ensures Result(Decode(b), offset, stack)[0].Unknown? <==> b == 0x05 || b == 0x07 || b == 0xF2 || b == 0x49 || b == 0x4A
  {
    NoRuleIff(b);
    NoRuleComputes(Decode(b));
    ComputesOne(Decode(b));
    if |stack| >= 2 && Top(stack, 0).Const? && Top(stack, 1).Const? {
      FoldsComputed(Decode(b), Top(stack, 1).value, Top(stack, 0).value);
    }
    if |stack| >= 1 && Top(stack, 0).Const? {
      FoldsComputed(Decode(b), Top(stack, 0).value, Top(stack, 0).value);
    }
    hide Decode, HasNoRule, StackIn, StackOut, FoldBinary, FoldUnary, ComputesUnary, ComputesBinary;
  }

  lemma NoRuleIff(b: Byte)
    ensures HasNoRule(Decode(b)) <==> b == 0x05 || b == 0x07 || b == 0xF2 || b == 0x49 || b == 0x4A
  {
    forall op | HasNoRule(op) ensures op == Decode(b) <==> Evm.Stands(b, op) {
      DecodeIff(b, op);
    }
    hide Decode;
  }

  lemma NoRuleComputes(op: Op)
    ensures HasNoRule(op) ==> !Computes(op)
  {
  }

  predicate AllKnown(stack: seq<StackValue>) {
    forall i :: 0 <= i < |stack| ==> stack[i].Const?
  }

  /** From known words this instruction makes known words only. */
  predicate KeepsKnown(op: Op) {
    op.PUSH? || op.DUP? || op.SWAP? || StackOut(op) == 0 || Computes(op)
  }

  lemma StepKnown(inst: Instruction, stack: seq<StackValue>)
    requires KeepsKnown(inst.op) && AllKnown(stack) && |stack| >= StackIn(inst.op)
    requires inst.op.DUP? ==> 1 <= inst.op.n <= |stack|
    requires inst.op.SWAP? ==> 1 <= inst.op.n < |stack|
    ensures AllKnown(SimStep(inst, stack))
  {
    hide StackIn, StackOut, Result, Computes;
    if !inst.op.PUSH? && !inst.op.DUP? && !inst.op.SWAP? {
      OutputsAtMostOne(inst.op);
      if StackOut(inst.op) == 1 {
        ResultKnownIff(inst.op, inst.offset, stack);
      }
    }
  }

  function Consts(words: seq<Word>): seq<StackValue> {
    seq(|words|, i requires 0 <= i < |words| => Const(words[i]))
  }

  /**
   Where every operand is pushed, moved or computed, the simulator ends with
   exactly the machine's stack, as long as it folds no operands in the wrong order.
   */
  lemma {:induction false} BlockComplete(code: seq<Byte>, instrs: seq<Instruction>, words: seq<seq<Word>>, k: nat)
    requires Executes(code, instrs, words) && k <= |instrs|
    requires forall i :: 0 <= i < k ==> KeepsKnown(instrs[i].op)
    requires forall i :: 0 <= i < k ==> !WrongFold(instrs[i].op, TraceOf(instrs, Consts(words[0]), i).exitStack)
    ensures TraceOf(instrs, Consts(words[0]), k).exitStack == Consts(words[k])
  {
    hide SimStep, ConcreteStep, WrongFold, Evm.PushWord, KeepsKnown;
    BlockSound(code, instrs, Consts(words[0]), words, k);
    if k > 0 {
      BlockComplete(code, instrs, words, k - 1);
      assert ConcreteStep(code, instrs[k-1], words[k-1], words[k]);
      EnoughWords(code, instrs[k-1], words[k-1], words[k]);
      StepKnown(instrs[k-1], Consts(words[k-1]));
    }
  }

  lemma EnoughWords(code: seq<Byte>, inst: Instruction, words: seq<Word>, after: seq<Word>)
    requires ConcreteStep(code, inst, words, after)
    ensures |words| >= StackIn(inst.op)
    ensures inst.op.DUP? ==> 1 <= inst.op.n <= |words|
    ensures inst.op.SWAP? ==> 1 <= inst.op.n < |words|
  {
    EffectsAre(inst.op);
    hide Evm.Table, StackIn;
  }

  /** DUP and SWAP move every value, known or not, along with the word it stands for. */
  lemma ShuffleMoves(code: seq<Byte>, inst: Instruction, stack: seq<StackValue>, words: seq<Word>)
    requires |stack| == |words|
    requires inst.op.DUP? ==> 1 <= inst.op.n <= |words|
    requires inst.op.SWAP? ==> 1 <= inst.op.n < |words|
    requires inst.op.DUP? || inst.op.SWAP?
    ensures var moved, after := SimStep(inst, stack), Evm.Shuffle(code, inst.offset, inst.op, words);
      && |moved| == |after|
      && forall i :: 0 <= i < |moved| ==>
           exists k :: 0 <= k < |words| && moved[i] == stack[k] && after[i] == words[k]
  {
    hide StackIn, StackOut;
    var moved := SimStep(inst, stack);
    var n := |stack|;
    forall i | 0 <= i < |moved|
      ensures exists k ::
        0 <= k < n && moved[i] == stack[k] && Evm.Shuffle(code, inst.offset, inst.op, words)[i] == words[k]
    {
      var k := if inst.op.DUP? then (if i == n then n - inst.op.n else i)
        else if i == n - 1 then n - 1 - inst.op.n else if i == n - 1 - inst.op.n then n - 1 else i;
      assert moved[i] == stack[k];
    }
  }

  /** A folded reversed instruction reports the true word if and only if its operands may be exchanged. */
  lemma {:induction false} ReversedFoldRightIff(
    op: Op, offset: nat, stack: seq<StackValue>, words: seq<Word>, after: seq<Word>)
    requires Reversed(op) && Abstracts(stack, words) && |stack| >= 2
    requires Top(stack, 0).Const? && Top(stack, 1).Const?
    requires |words| >= Evm.Table(op).removed && Evm.StackStep(op, offset, words, after)
    ensures StackIn(op) == 2 && |Result(op, offset, stack)| == 1 && after != []
    ensures Allows(Result(op, offset, stack)[0], after[|after|-1]) <==> !WrongFold(op, stack)
  {
    EffectsAre(op);
    hide MayExchange, FoldBinary, Evm.Binary, Evm.Table;
    OutputsAtMostOne(op);
    FoldIsRight(op, Top(stack, 1).value, Top(stack, 0).value);
    BinaryHasValue(op, Top(stack, 0).value, Top(stack, 1).value);
    assert Evm.Peek(words, 0) == Top(stack, 0).value && Evm.Peek(words, 1) == Top(stack, 1).value;
    assert after[|after|-1] == Evm.Peek(after, 0);
  }

  lemma BinaryHasValue(op: Op, x: Word, y: Word)
    requires Reversed(op)
    ensures Evm.Binary(op, x, y).Some? && FoldBinary(op, y, x).Some?
  {
    hide Pow, Evm.ShiftRight, Evm.ShiftLeft, Evm.Divide, Evm.Modulo;
  }

  /** The reported target is the word the machine jumps to, and the reported condition allows the one it tests. */
  ghost predicate BranchAgrees(op: Op, t: BlockTrace, words: seq<Word>) {
    && |words| >= 1 && (t.branchTrueTarget.Some? ==> t.branchTrueTarget.value == Evm.Peek(words, 0))
    && (op.JUMPI? ==> |words| >= 2 && t.branchCondition.Some? && Allows(t.branchCondition.value, Evm.Peek(words, 1)))
  }

  lemma {:induction false} BranchSound(
    code: seq<Byte>, instrs: seq<Instruction>, entry: seq<StackValue>, words: seq<seq<Word>>)
    requires Executes(code, instrs, words) && Abstracts(entry, words[0]) && instrs != []
    requires forall i :: 0 <= i < |instrs| ==> !WrongFold(instrs[i].op, TraceOf(instrs, entry, i).exitStack)
    requires instrs[|instrs|-1].op.JUMP? || instrs[|instrs|-1].op.JUMPI?
    ensures BranchAgrees(instrs[|instrs|-1].op, TraceOf(instrs, entry, |instrs|), words[|instrs|-1])
  {
    hide SimStep, WrongFold, ConcreteStep, Executes, Accesses, TraceOf;
    var n := |instrs| - 1;
    BlockSound(code, instrs, entry, words, n);
    LastTrace(instrs, entry);
    LastOperands(code, instrs, words);
  }

  lemma LastTrace(instrs: seq<Instruction>, entry: seq<StackValue>)
    requires instrs != []
    ensures TraceOf(instrs, entry, |instrs|) == TraceStep(TraceOf(instrs, entry, |instrs| - 1), instrs[|instrs|-1], None)
  {
  }

  lemma LastOperands(code: seq<Byte>, instrs: seq<Instruction>, words: seq<seq<Word>>)
    requires Executes(code, instrs, words) && instrs != []
    ensures |words[|instrs|-1]| >= StackIn(instrs[|instrs|-1].op)
  {
    EffectsAre(instrs[|instrs|-1].op);
    assert ConcreteStep(code, instrs[|instrs|-1], words[|instrs|-1], words[|instrs|]);
  }

  /** The false target of a JUMPI is looked for inside its own block, where nothing can stand behind it. */
  lemma {:induction false} FalseTargetNeverSet(instrs: seq<Instruction>, entry: seq<StackValue>, k: nat)
    requires Blocks.IsBlock(instrs) && k <= |instrs|
    ensures TraceOf(instrs, entry, k).branchFalseTarget == None
  {
    hide SimStep, Accesses;
    if k > 0 {
      FalseTargetNeverSet(instrs, entry, k - 1);
    }
  }

  /**
   A recorded store has its two fields exchanged: the recorded value is the
   machine's place, and the recorded place is the machine's value.
   */
  lemma StoresAreExchanged(code: seq<Byte>, inst: Instruction, stack: seq<StackValue>, words: seq<Word>,
      after: seq<Word>)
    requires Abstracts(stack, words) && ConcreteStep(code, inst, words, after)
    requires inst.op.MSTORE? || inst.op.MSTORE8? || inst.op.SSTORE?
    ensures var place, value := Evm.Peek(words, 0), Evm.Peek(words, 1);
      && |Accesses(inst, stack)| == 1
      && var a := Accesses(inst, stack)[0];
      && a.offset == inst.offset && (a.kind.StorageAccess? <==> inst.op.SSTORE?)
      && a.value.Some? && Allows(a.value.value, place) && Allows(a.place, value)
      && (a.value.value.Const? <==> Top(stack, 0).Const?) && (a.place.Const? <==> Top(stack, 1).Const?)
      && (a.place.Const? && a.value.value.Const? ==>
            ((a.place.value == place && a.value.value.value == value) <==> place == value))
  {
  }

  /** A recorded load has the machine's place; nothing but loads and stores is recorded. */
  lemma LoadsAreRecorded(code: seq<Byte>, inst: Instruction, stack: seq<StackValue>, words: seq<Word>,
      after: seq<Word>)
    requires Abstracts(stack, words) && ConcreteStep(code, inst, words, after)
    requires !inst.op.MSTORE? && !inst.op.MSTORE8? && !inst.op.SSTORE?
    ensures inst.op.MLOAD? || inst.op.SLOAD? ==>
      && |words| >= 1 && |Accesses(inst, stack)| == 1
      && var a := Accesses(inst, stack)[0];
      && a.offset == inst.offset && (a.kind.StorageAccess? <==> inst.op.SLOAD?)
      && a.value == None && Allows(a.place, Evm.Peek(words, 0)) && (a.place.Const? <==> Top(stack, 0).Const?)
    ensures !inst.op.MLOAD? && !inst.op.SLOAD? ==> Accesses(inst, stack) == []
  {
  }
}
