/** A rewritten expression never prints like the expression it came from. */
module Printed {
  // Leaves, types and operator names may be any text, so the printed form does
  // not determine an expression. It does tell a rewrite from no rewrite.

  import opened Words
  import opened ExprIr
  import opened Numerals

  predicate IsFresh(e: Expr) {
    e.Const? || e.MsgSender? || e.MsgSig? || e.CalldataArg?
  }

  /**
   `r` comes from `e` by rewriting subtrees: to a fresh leaf, to a left operand
   that is an operation, or by dropping a double negation.
   */
  predicate Rewrites(e: Expr, r: Expr)
    decreases e
  {
    || r == e
    || match e
       case BinOp(op, left, right) =>
         || (r.BinOp? && r.op == op && Rewrites(left, r.left) && Rewrites(right, r.right))
         || IsFresh(r)
         || (r.BinOp? && Rewrites(left, r))
       case UnaryOp(op, x) =>
         || (r.UnaryOp? && r.uop == op && Rewrites(x, r.operand))
         || ((op.Bang? || op.Tilde?) && IsFresh(r))
         || (op.Bang? && Rewrites(x, UnaryOp(Bang, r)))
       case Compare(op, left, right) =>
         r.Compare? && r.cop == op && Rewrites(left, r.left) && Rewrites(right, r.right)
       case _ => false
  }

  lemma {:induction false} RewritesTransitive(e: Expr, m: Expr, r: Expr)
    requires Rewrites(e, m) && Rewrites(m, r)
    ensures Rewrites(e, r)
    decreases e, 1
  {
    if m != e && r != m {
      match e
      case BinOp(op, left, right) =>
        if m.BinOp? && m.op == op && Rewrites(left, m.left) && Rewrites(right, m.right) {
          BinaryTransitive(e, m, r);
        } else if m.BinOp? && Rewrites(left, m) {
          RewritesTransitive(left, m, r);
        }
      case UnaryOp(op, x) =>
        if m.UnaryOp? && m.uop == op && Rewrites(x, m.operand) {
          if r.UnaryOp? && r.uop == op && Rewrites(m.operand, r.operand) {
            RewritesTransitive(x, m.operand, r.operand);
          } else if op.Bang? && Rewrites(m.operand, UnaryOp(Bang, r)) {
            RewritesTransitive(x, m.operand, UnaryOp(Bang, r));
          }
        } else if op.Bang? && Rewrites(x, UnaryOp(Bang, m)) {
          RewritesTransitive(x, UnaryOp(Bang, m), UnaryOp(Bang, r));
        }
      case Compare(_, left, right) =>
        RewritesTransitive(left, m.left, r.left);
        RewritesTransitive(right, m.right, r.right);
      case _ =>
    }
  }

  lemma {:induction false} BinaryTransitive(e: Expr, m: Expr, r: Expr)
    requires e.BinOp? && m.BinOp? && m.op == e.op && Rewrites(e.left, m.left) && Rewrites(e.right, m.right)
    requires Rewrites(m, r)
    ensures Rewrites(e, r)
    decreases e, 0
  {
    if r.BinOp? && r.op == m.op && Rewrites(m.left, r.left) && Rewrites(m.right, r.right) {
      RewritesTransitive(e.left, m.left, r.left);
      RewritesTransitive(e.right, m.right, r.right);
    } else if r.BinOp? && r != m && Rewrites(m.left, r) {
      RewritesTransitive(e.left, m.left, r);
    }
  }

  // ---- Texts ----

  predicate IsOpening(c: char) {
    c == '(' || c == '!'
  }

  /** Nothing but opening characters. */
  predicate Opening(p: string) {
    forall i :: 0 <= i < |p| ==> IsOpening(p[i])
  }

  /** What stands behind a printed operand. */
  predicate Closing(w: string) {
    w == "" || !IsOpening(w[0])
  }

  lemma {:induction false} OpeningAt(p: string, n: string, a: string, b: string, i: nat)
    requires Opening(p) && p != "" && p + n + a == n + b && i < |n|
    ensures IsOpening(n[i])
  {
    var s := p + n + a;
    assert s[i] == (n + b)[i] == n[i];
    if i >= |p| {
      assert s[i] == n[i - |p|];
      OpeningAt(p, n, a, b, i - |p|);
    } else {
      assert s[i] == p[i];
    }
  }

  /** A prefix of opening characters can be moved behind a common text. */
  lemma Rotate(p: string, n: string, a: string, b: string) returns (q: string)
    requires Opening(p) && p + n + a == n + b
    ensures |q| == |p| && Opening(q) && q + a == b
  {
    var s := p + n + a;
    q := (p + n)[|n|..];
    assert s[|n|..] == q + a;
    assert (n + b)[|n|..] == b;
    if p != "" {
      forall i | 0 <= i < |q| ensures IsOpening(q[i]) {
        if |n| + i < |p| {
          assert q[i] == p[|n| + i];
        } else {
          assert q[i] == n[|n| + i - |p|];
          OpeningAt(p, n, a, b, |n| + i - |p|);
        }
      }
    }
  }

  lemma Shifted(p: string, n: string, w: string, z: string)
    requires Opening(p) && Closing(z) && p + n + w == n + z
    ensures p == ""
  {
    var q := Rotate(p, n, w, z);
  }

  lemma CancelPrefix(n: string, a: string, b: string)
    requires n + a == n + b
    ensures a == b
  {
    assert (n + a)[|n|..] == a && (n + b)[|n|..] == b;
  }

  lemma FreshFirst(e: Expr)
    requires IsFresh(e)
    ensures |Repr(e)| > 0 && (Repr(e)[0] == '0' || Repr(e)[0] == 'm' || Repr(e)[0] == 'a')
  {
  }

  lemma FreshIsNew(p: string, e: Expr, r: Expr, w: string, z: string)
    requires Opening(p) && IsFresh(r) && (e.BinOp? || (e.UnaryOp? && (e.uop.Bang? || e.uop.Tilde?)))
    ensures p + Repr(e) + w != Repr(r) + z
  {
    FreshFirst(r);
    assert (Repr(r) + z)[0] == Repr(r)[0];
    if p == "" {
      assert |Repr(e)| > 0 && (Repr(e)[0] == '(' || Repr(e)[0] == '!' || Repr(e)[0] == '~');
      assert (p + Repr(e) + w)[0] == Repr(e)[0];
    } else {
      assert (p + Repr(e) + w)[0] == p[0];
    }
  }

  /** A printed operation: its operands around a text that starts with a space. */
  function Pair(left: string, middle: string, right: string): string {
    "(" + left + middle + right + ")"
  }

  function Middle(e: Expr): (m: string)
    requires e.BinOp? || e.Compare?
    ensures m != "" && m[0] == ' '
  {
    " " + (if e.BinOp? then ReprBinary(e.op) else ReprCompare(e.cop)) + " "
  }

  lemma PairText(e: Expr)
    requires e.BinOp? || e.Compare?
    ensures Repr(e) == Pair(Repr(e.left), Middle(e), Repr(e.right))
  {
    var name := if e.BinOp? then ReprBinary(e.op) else ReprCompare(e.cop);
    assert Repr(e) == "(" + Repr(e.left) + " " + name + " " + Repr(e.right) + ")";
    Joined("(" + Repr(e.left), " ", name, " ");
  }

  lemma Joined(a: string, b: string, c: string, d: string)
    ensures a + b + c + d == a + (b + c + d)
  {
  }

  function Mark(op: UnaryOpKind): string {
    match op
    case Bang => "!" case Tilde => "~"
    case OtherUnary(name) => name
  }

  lemma UnaryText(e: Expr)
    requires e.UnaryOp?
    ensures Repr(e) == Mark(e.uop) + Repr(e.operand)
  {
  }

  /** Equal texts of two operations: from the left operand on, with the prefix moved inside. */
  lemma PairApart(p: string, left: string, left2: string, middle: string, right: string, right2: string,
      w: string, z: string) returns (q: string)
    requires Opening(p) && p + Pair(left, middle, right) + w == Pair(left2, middle, right2) + z
    ensures |q| == |p| && Opening(q)
    ensures q + left + (middle + (right + (")" + w))) == left2 + (middle + (right2 + (")" + z)))
  {
    hide Opening;
    var a, b := middle + (right + (")" + w)), middle + (right2 + (")" + z));
    PairOpens(p, left, middle, right, w);
    PairOpens("", left2, middle, right2, z);
    assert "" + "(" + (left2 + b) == "(" + (left2 + b);
    assert "" + Pair(left2, middle, right2) == Pair(left2, middle, right2);
    q := Rotate(p, "(", left + a, left2 + b);
    assert q + left + a == q + (left + a);
  }

  lemma PairOpens(p: string, left: string, middle: string, right: string, w: string)
    ensures p + Pair(left, middle, right) + w == p + "(" + (left + (middle + (right + (")" + w))))
  {
  }

  lemma NothingAhead(q: string, n: string, middle: string, a: string, b: string)
    requires q == "" && q + n + (middle + a) == n + (middle + b)
    ensures a == b
  {
    assert q + n == n;
    CancelPrefix(n, middle + a, middle + b);
    CancelPrefix(middle, a, b);
  }

  lemma UnaryApart(p: string, mark: string, x: string, x2: string, w: string, z: string) returns (q: string)
    requires Opening(p) && p + (mark + x) + w == (mark + x2) + z
    ensures |q| == |p| && Opening(q) && q + x + w == x2 + z
  {
    assert p + mark + (x + w) == p + (mark + x) + w;
    assert mark + (x2 + z) == (mark + x2) + z;
    q := Rotate(p, mark, x + w, x2 + z);
    assert q + x + w == q + (x + w);
  }

  lemma TwoMarks(p: string, x: string, r: string, w: string, z: string)
    requires p + ("!" + x) + w == r + z
    ensures ("!" + p + "!") + x + w == ("!" + r) + z
  {
    assert ("!" + p + "!") + x + w == "!" + (p + ("!" + x) + w);
    assert ("!" + r) + z == "!" + (r + z);
  }

  /**
   With opening characters in front and closing ones behind, a rewritten
   expression prints like its origin only if it is its origin, with nothing in
   front.
   */
  lemma {:induction false} SameText(p: string, e: Expr, r: Expr, w: string, z: string)
    requires Opening(p) && Closing(w) && Closing(z) && Rewrites(e, r)
    requires p + Repr(e) + w == Repr(r) + z
    ensures p == "" && r == e
    decreases Size(e), 2
  {
    if r == e {
      Shifted(p, Repr(e), w, z);
    } else if e.BinOp? {
      SameBinary(p, e, r, w, z);
    } else if e.UnaryOp? {
      SameUnary(p, e, r, w, z);
    } else {
      hide Repr, Opening, Closing;
      PairText(e);
      PairText(r);
      SamePair(p, e.left, e.right, r.left, r.right, Middle(e), w, z);
    }
  }

  lemma {:induction false} SameBinary(p: string, e: Expr, r: Expr, w: string, z: string)
    requires Opening(p) && Closing(w) && Closing(z) && Rewrites(e, r) && e.BinOp?
    requires p + Repr(e) + w == Repr(r) + z
    ensures p == "" && r == e
    decreases Size(e), 1
  {
    hide Repr, Opening, Closing;
    PairText(e);
    if r.BinOp? && r.op == e.op && Rewrites(e.left, r.left) && Rewrites(e.right, r.right) {
      PairText(r);
      SamePair(p, e.left, e.right, r.left, r.right, Middle(e), w, z);
    } else if IsFresh(r) {
      FreshIsNew(p, e, r, w, z);
    } else {
      var behind := Middle(e) + (Repr(e.right) + (")" + w));
      PairOpens(p, Repr(e.left), Middle(e), Repr(e.right), w);
      assert (p + "(") + Repr(e.left) + behind == p + "(" + (Repr(e.left) + behind);
      MoreOpening(p, behind);
      SameText(p + "(", e.left, r, behind, z);
    }
  }

  lemma MoreOpening(p: string, behind: string)
    requires Opening(p)
    ensures Opening(p + "(") && Opening("!" + p + "!")
    ensures behind != "" && behind[0] == ' ' ==> Closing(behind)
  {
  }

  lemma {:induction false} SameUnary(p: string, e: Expr, r: Expr, w: string, z: string)
    requires Opening(p) && Closing(w) && Closing(z) && Rewrites(e, r) && e.UnaryOp?
    requires p + Repr(e) + w == Repr(r) + z
    ensures p == "" && r == e
    decreases Size(e), 1
  {
    hide Repr, Opening, Closing;
    UnaryText(e);
    if r.UnaryOp? && r.uop == e.uop && Rewrites(e.operand, r.operand) {
      UnaryText(r);
      var q := UnaryApart(p, Mark(e.uop), Repr(e.operand), Repr(r.operand), w, z);
      SameText(q, e.operand, r.operand, w, z);
    } else if (e.uop.Bang? || e.uop.Tilde?) && IsFresh(r) {
      FreshIsNew(p, e, r, w, z);
    } else {
      UnaryText(UnaryOp(Bang, r));
      TwoMarks(p, Repr(e.operand), Repr(r), w, z);
      MoreOpening(p, "");
      SameText("!" + p + "!", e.operand, UnaryOp(Bang, r), w, z);
    }
  }

  lemma {:induction false} SamePair(p: string, left: Expr, right: Expr, left2: Expr, right2: Expr,
      middle: string, w: string, z: string)
    requires Opening(p) && Closing(w) && Closing(z) && Rewrites(left, left2) && Rewrites(right, right2)
    requires middle != "" && middle[0] == ' '
    requires p + Pair(Repr(left), middle, Repr(right)) + w == Pair(Repr(left2), middle, Repr(right2)) + z
    ensures p == "" && left2 == left && right2 == right
    decreases Size(left) + Size(right), 3
  {
    hide Repr, Rewrites, Opening, Pair;
    var a, b := Repr(right) + (")" + w), Repr(right2) + (")" + z);
    var q := PairApart(p, Repr(left), Repr(left2), middle, Repr(right), Repr(right2), w, z);
    SameText(q, left, left2, middle + a, middle + b);
    NothingAhead(q, Repr(left), middle, a, b);
    assert "" + Repr(right) + (")" + w) == a;
    SameText("", right, right2, ")" + w, ")" + z) by { NothingOpens(); }
  }

  lemma NothingOpens()
    ensures Opening("")
  {
  }

  // ---- Texts ----

  /** The operator that the source writes as `text`. */
  function OperatorOf(text: string): BinaryOp {
    if text == "+" then Add else if text == "-" then Sub else if text == "*" then Mul else if text == "/" then Div
    else if text == "%" then Mod else if text == "**" then Exp else if text == "&" then And else if text == "|" then Or
    else if text == "^" then Xor else if text == "<<" then Shl else if text == ">>" then Shr else OtherBinary(text)
  }

  function ComparisonOf(text: string): CompareOp {
    if text == "<" then Lt else if text == ">" then Gt else if text == "==" then Eq else if text == "!=" then Ne
    else if text == ">=" then Ge else if text == "<=" then Le else OtherCompare(text)
  }

  function NegationOf(text: string): UnaryOpKind {
    if text == "!" then Bang else if text == "~" then Tilde else OtherUnary(text)
  }

  lemma BinaryText(text: string)
    ensures ReprBinary(OperatorOf(text)) == text
  {
  }

  lemma ComparisonText(text: string)
    ensures ReprCompare(ComparisonOf(text)) == text
  {
  }

  lemma NegationText(text: string, l: Expr)
    ensures Repr(UnaryOp(NegationOf(text), l)) == text + Repr(l)
  {
  }

  /** Every operator is printed as the text it is written with. */
  lemma OperatorTexts(text: string, l: Expr, r: Expr)
    ensures Repr(BinOp(OperatorOf(text), l, r)) == "(" + Repr(l) + " " + text + " " + Repr(r) + ")"
    ensures Repr(Compare(ComparisonOf(text), l, r)) == "(" + Repr(l) + " " + text + " " + Repr(r) + ")"
    ensures Repr(UnaryOp(NegationOf(text), l)) == text + Repr(l)
  {
    BinaryText(text);
    ComparisonText(text);
    NegationText(text, l);
    hide ReprBinary, ReprCompare, OperatorOf, ComparisonOf, NegationOf;
  }

  lemma SixteenPowers()
    ensures Pow(16, 2) == 0x100 && Pow(16, 4) == 0x1_0000 && Pow(16, 8) == 0x1_0000_0000
  {
    assert Pow(16, 2) == 0x100;
    PowSquare(16, 2, 0x100);
    PowSquare(16, 4, 0x1_0000);
  }

  /** A constant is printed in two, four or eight hexadecimal digits, or in as many as it needs. */
  lemma ConstantText(v: Word)
    ensures var s := Repr(Const(v));
      && |s| > 2 && s[..2] == "0x" && HexNumber(s[2..]) == v
      && (v > 0xFFFF_FFFF ==> s[2] != '0')
      && (v <= 0xFFFF_FFFF ==> |s| - 2 == if v <= 0xFF then 2 else if v <= 0xFFFF then 4 else 8)
  {
    hide Hex, HexNumber, Padded, Pow;
    SixteenPowers();
    var width := if v <= 0xFF then 2 else if v <= 0xFFFF then 4 else if v <= 0xFFFFFFFF then 8 else 1;
    HexReads(v, width);
    PaddedReads(Hex(v), width);
    assert Repr(Const(v)) == "0x" + Padded(Hex(v), width);
    assert ("0x" + Padded(Hex(v), width))[2..] == Padded(Hex(v), width);
  }

  /** An argument is printed with its number, and with its type if that is known. */
  lemma ArgumentText(i: nat, t: string, offset: Option<nat>)
    ensures Repr(CalldataArg(i, None, offset)) == "arg" + Decimal(i)
    ensures t != "" ==> Repr(CalldataArg(i, Some(t), offset)) == "arg" + Decimal(i) + ": " + t
  {
    assert "arg" + Decimal(i) + "" == "arg" + Decimal(i);
    assert "arg" + Decimal(i) + (": " + t) == "arg" + Decimal(i) + ": " + t;
  }
}
