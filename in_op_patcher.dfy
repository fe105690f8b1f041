/**
 * The rewrite rule for the membership operator: `a in b` becomes
 * `b.includes(a)` and `a not in b` becomes `!b.includes(a)`, either in place
 * (both operands pure) or with the left operand hoisted into a `needle`
 * temporary so that it runs once and before the right operand.
 */
module InOp {
  import opened TextEdits
  import Tokens

  /** The kinds of right operand the policy distinguishes; `Other` stands for every other node. */
  datatype Shape =
    | Identifier
    | MemberAccess
    | DynamicMemberAccess
    | FunctionApplication
    | ArrayInitialiser
    | StringLit
    | Other

  /**
   * A child operand as the rule sees it: whether evaluating it twice is safe,
   * its shape, the code its own patcher emits, and its span in the source.
   */
  datatype Operand = Operand(isPure: bool, shape: Shape, code: string, outerStart: nat, outerEnd: nat)

  /** An `InOp` node: both operands, the `not` flag of the original syntax, and where the node's content begins. */
  datatype InOpNode = InOpNode(left: Operand, right: Operand, isNot: bool, contentStart: nat)

  datatype Options = Options(looseIncludes: bool)

  /** The temporary name asked of `patchRepeatable`. */
  const Needle: string := "needle"

  /**
   * Spans of a parsed membership test: each operand covers at least one
   * character, the operator lies between them, and the node begins no later
   * than its left operand.
   */
  predicate WellFormed(n: InOpNode, size: nat)
  {
    n.contentStart <= n.left.outerStart < n.left.outerEnd < n.right.outerStart < n.right.outerEnd <= size
  }

  // ---------------------------------------------------------------------------
  // Policy

  /** `shouldWrapInArrayFrom`: convert the right operand unless told not to or it is an array literal. */
  function ShouldWrapInArrayFrom(options: Options, right: Operand): (wrap: bool)
    ensures options.looseIncludes ==> !wrap
    ensures !options.looseIncludes ==> (wrap <==> right.shape != ArrayInitialiser)
  {
    if options.looseIncludes then false else right.shape != ArrayInitialiser
  }

  /** `rhsNeedsParens`: parentheses are skipped only for six shapes known to bind tightly. */
  function RhsNeedsParens(right: Operand): (parens: bool)
    ensures parens <==> right.shape == Other
  {
    right.shape != Identifier &&
    right.shape != MemberAccess &&
    right.shape != DynamicMemberAccess &&
    right.shape != FunctionApplication &&
    right.shape != ArrayInitialiser &&
    right.shape != StringLit
  }

  /** The receiver of `.includes(...)`, built from the right operand's code as both paths do. */
  function Receiver(options: Options, right: Operand): string
  {
    if ShouldWrapInArrayFrom(options, right) then "Array.from(" + right.code + ")"
    else if RhsNeedsParens(right) then "(" + right.code + ")"
    else right.code
  }

  /** `statementNeedsParens`: a call expression is safe as a bare statement. */
  function StatementNeedsParens(): (parens: bool)
    ensures !parens
  {
    false
  }

  /** `operatorTokenPredicate`: the operator of an `in` node is its relational keyword token. */
  function OperatorTokenPredicate(token: Tokens.SourceToken): (accepted: bool)
    ensures accepted <==> token.kind == Tokens.Relation
  {
    token.kind.Relation?
  }

  /** `patchAsExpression` takes the extraction path exactly when some operand is impure. */
  predicate UsesExtraction(n: InOpNode)
  {
    !n.left.isPure || !n.right.isPure
  }

  // ---------------------------------------------------------------------------
  // Negation

  /** The `negated` flag after `flips` calls of `negate()` on a node whose `isNot` is given. */
  function NegatedAfter(isNot: bool, flips: nat): bool
  {
    if flips == 0 then isNot else !NegatedAfter(isNot, flips - 1)
  }

  /** Only the parity of the number of `negate()` calls matters. */
  lemma {:induction false} NegationParity(isNot: bool, flips: nat)
    ensures NegatedAfter(isNot, flips) == if flips % 2 == 0 then isNot else !isNot
  {
    if flips > 0 {
      NegationParity(isNot, flips - 1);
    }
  }

  // ---------------------------------------------------------------------------
  // The edits each path queues

  /** What a child's `patch()` amounts to: its code takes the place of its source span. */
  function ChildPatch(log: EditLog, op: Operand): EditLog
  {
    Then(Then(log, RemoveRange(op.outerStart, op.outerEnd)), InsertText(op.outerStart, op.code))
  }

  function InsertIf(log: EditLog, cond: bool, at: nat, text: string): EditLog
  {
    if cond then Then(log, InsertText(at, text)) else log
  }

  function Bang(negated: bool): string
  {
    if negated then "!" else ""
  }

  /** `log` followed by the edits of `patchAsExpression` when both operands are pure, in call order. */
  function InPlaceEdits(log: EditLog, n: InOpNode, options: Options, negated: bool): EditLog
  {
    var l, r := n.left, n.right;
    var rightPatched := ChildPatch(log, r);
    var operatorRemoved := Then(rightPatched, RemoveRange(l.outerEnd, r.outerEnd));
    var notInserted := InsertIf(operatorRemoved, negated, l.outerStart, "!");
    var callOpened := Then(notInserted, InsertText(l.outerStart, Receiver(options, r) + ".includes("));
    var leftPatched := ChildPatch(callOpened, l);
    Then(leftPatched, InsertText(l.outerEnd, ")"))
  }

  /** `log` followed by the edits of `patchWithLHSExtracted`, in call order. */
  function ExtractedEdits(log: EditLog, n: InOpNode, options: Options, negated: bool): EditLog
  {
    var l, r := n.left, n.right;
    var wrap := ShouldWrapInArrayFrom(options, r);
    var parens := wrap || RhsNeedsParens(r);
    var parenOpened := Then(log, InsertText(n.contentStart, "("));
    var needleBound := ChildPatch(Then(parenOpened, InsertText(l.outerStart, Needle + " = ")), l);
    var separated := Then(needleBound, InsertText(l.outerEnd, ", "));
    var operatorRemoved := Then(separated, RemoveRange(l.outerEnd, r.outerStart));
    var notInserted := InsertIf(operatorRemoved, negated, r.outerStart, "!");
    var wrapOpened := InsertIf(InsertIf(notInserted, wrap, r.outerStart, "Array.from"), parens, r.outerStart, "(");
    var rightPatched := ChildPatch(wrapOpened, r);
    var wrapClosed := InsertIf(rightPatched, parens, r.outerEnd, ")");
    Then(wrapClosed, InsertText(r.outerEnd, ".includes(" + Needle + "))"))
  }

  function RewriteEdits(log: EditLog, n: InOpNode, options: Options, negated: bool): EditLog
  {
    if UsesExtraction(n) then ExtractedEdits(log, n, options, negated) else InPlaceEdits(log, n, options, negated)
  }

  // ---------------------------------------------------------------------------
  // The text each path produces

  /** `[!]RECV.includes(L)`, replacing the span from the left operand's start to the right operand's end. */
  function InPlaceText(n: InOpNode, options: Options, negated: bool): string
  {
    Bang(negated) + Receiver(options, n.right) + ".includes(" + n.left.code + ")"
  }

  /** `(needle = L, [!]RECV.includes(needle))`, replacing the span from the node's start to the right operand's end. */
  function ExtractedText(source: string, n: InOpNode, options: Options, negated: bool): string
    requires n.contentStart <= n.left.outerStart <= |source|
  {
    "(" + source[n.contentStart..n.left.outerStart] + Needle + " = " + n.left.code + ", "
    + Bang(negated) + Receiver(options, n.right) + ".includes(" + Needle + "))"
  }

  /** The offset where the rewritten text begins. */
  function RewriteStart(n: InOpNode): nat
  {
    if UsesExtraction(n) then n.contentStart else n.left.outerStart
  }

  function RewrittenText(source: string, n: InOpNode, options: Options, negated: bool): string
    requires WellFormed(n, |source|)
  {
    if UsesExtraction(n) then ExtractedText(source, n, options, negated) else InPlaceText(n, options, negated)
  }

  // ---------------------------------------------------------------------------
  // Lemmas about the receiver

  /**
   * The receiver is the right operand's code bare, in one pair of parentheses,
   * or converted by `Array.from` — never more than one pair of parentheses —
   * and which form applies is decided by the two policies alone.
   */
  lemma ReceiverForms(options: Options, right: Operand)
    ensures var recv := Receiver(options, right);
      && (recv == "Array.from(" + right.code + ")" <==> !options.looseIncludes && right.shape != ArrayInitialiser)
      && (recv == "(" + right.code + ")" <==> (options.looseIncludes || right.shape == ArrayInitialiser) && right.shape == Other)
      && (recv == right.code <==> right.shape == ArrayInitialiser || (options.looseIncludes && right.shape != Other))
  {
  }

  /** An array literal on the right is used as the receiver as it is. */
  lemma ArrayLiteralIsNeverWrapped(options: Options, right: Operand)
    requires right.shape == ArrayInitialiser
    ensures !ShouldWrapInArrayFrom(options, right)
    ensures Receiver(options, right) == right.code
  {
  }

  // ---------------------------------------------------------------------------
  // Per-offset effect of each path

  /**
   * After a child's patch its code follows whatever was inserted at its start,
   * what was inserted inside or at the end of its span is gone, and so are the
   * characters of the span.
   */
  lemma ChildPatchAt(log: EditLog, op: Operand, p: nat)
    requires op.outerStart <= op.outerEnd
    ensures Pending(ChildPatch(log, op), p) ==
      if p == op.outerStart then Pending(log, p) + op.code
      else if op.outerStart < p <= op.outerEnd then ""
      else Pending(log, p)
    ensures Kept(ChildPatch(log, op), p) == (Kept(log, p) && !(op.outerStart <= p < op.outerEnd))
  {
  }

  lemma InsertIfAt(log: EditLog, cond: bool, at: nat, text: string, p: nat)
    ensures Pending(InsertIf(log, cond, at, text), p) == if cond && at == p then Pending(log, p) + text else Pending(log, p)
    ensures Kept(InsertIf(log, cond, at, text), p) == Kept(log, p)
  {
  }

  lemma InPlaceAt(n: InOpNode, options: Options, negated: bool, p: nat)
    requires n.left.outerStart < n.left.outerEnd < n.right.outerStart < n.right.outerEnd
    ensures var log := InPlaceEdits(NoEdits, n, options, negated);
      && Pending(log, p) == (
           if p == n.left.outerStart then Bang(negated) + (Receiver(options, n.right) + ".includes(") + n.left.code
           else if p == n.left.outerEnd then ")"
           else "")
      && Kept(log, p) == !(n.left.outerStart <= p < n.right.outerEnd)
  {
    var l, r := n.left, n.right;
    var ls, le, re := l.outerStart, l.outerEnd, r.outerEnd;
    var call := Receiver(options, r) + ".includes(";
    var rightPatched := ChildPatch(NoEdits, r);
    ChildPatchAt(NoEdits, r, p);
    var operatorRemoved := Then(rightPatched, RemoveRange(le, re));
    assert Pending(operatorRemoved, p) == "";
    assert Kept(operatorRemoved, p) == (!(r.outerStart <= p < re) && !(le <= p < re));
    var notInserted := InsertIf(operatorRemoved, negated, ls, "!");
    InsertIfAt(operatorRemoved, negated, ls, "!", p);
    assert Pending(notInserted, p) == if p == ls then Bang(negated) else "";
    var callOpened := Then(notInserted, InsertText(ls, call));
    var leftPatched := ChildPatch(callOpened, l);
    ChildPatchAt(callOpened, l, p);
    assert Pending(leftPatched, p) == if p == ls then Bang(negated) + call + l.code else "";
    assert Kept(leftPatched, p) == !(ls <= p < re);
  }

  /** The text the extraction path leaves in front of offset `p`. */
  function ExtractedPending(n: InOpNode, options: Options, negated: bool, p: nat): string
  {
    var l, r := n.left, n.right;
    var wrap := ShouldWrapInArrayFrom(options, r);
    var parens := wrap || RhsNeedsParens(r);
    if p == l.outerStart then (if n.contentStart == p then "(" else "") + (Needle + " = ") + l.code
    else if p == n.contentStart then "("
    else if p == l.outerEnd then ", "
    else if p == r.outerStart then
      Bang(negated) + (if wrap then "Array.from" else "") + (if parens then "(" else "") + r.code
    else if p == r.outerEnd then (if parens then ")" else "") + (".includes(" + Needle + "))")
    else ""
  }

  lemma ExtractedAt(n: InOpNode, options: Options, negated: bool, p: nat)
    requires n.contentStart <= n.left.outerStart < n.left.outerEnd < n.right.outerStart < n.right.outerEnd
    ensures var log := ExtractedEdits(NoEdits, n, options, negated);
      && Pending(log, p) == ExtractedPending(n, options, negated, p)
      && Kept(log, p) == !(n.left.outerStart <= p < n.right.outerEnd)
  {
    var l, r := n.left, n.right;
    var cs, ls, le, rs, re := n.contentStart, l.outerStart, l.outerEnd, r.outerStart, r.outerEnd;
    var wrap := ShouldWrapInArrayFrom(options, r);
    var parens := wrap || RhsNeedsParens(r);
    var open := if p == cs then "(" else "";
    var parenOpened := Then(NoEdits, InsertText(cs, "("));
    var needleNamed := Then(parenOpened, InsertText(ls, Needle + " = "));
    assert Pending(parenOpened, p) == open && Kept(parenOpened, p);
    assert Pending(needleNamed, p) == if p == ls then open + (Needle + " = ") else open;
    assert Kept(needleNamed, p);
    var needleBound := ChildPatch(needleNamed, l);
    ChildPatchAt(needleNamed, l, p);
    var separated := Then(needleBound, InsertText(le, ", "));
    var operatorRemoved := Then(separated, RemoveRange(le, rs));
    var leftPart := if p == ls then open + (Needle + " = ") + l.code else if p == le then ", " else if ls < p <= rs then "" else open;
    assert Pending(operatorRemoved, p) == leftPart;
    assert Kept(operatorRemoved, p) == !(ls <= p < rs);
    var notInserted := InsertIf(operatorRemoved, negated, rs, "!");
    InsertIfAt(operatorRemoved, negated, rs, "!", p);
    var arrayFrom := InsertIf(notInserted, wrap, rs, "Array.from");
    InsertIfAt(notInserted, wrap, rs, "Array.from", p);
    var wrapOpened := InsertIf(arrayFrom, parens, rs, "(");
    InsertIfAt(arrayFrom, parens, rs, "(", p);
    var af, po := if wrap then "Array.from" else "", if parens then "(" else "";
    if p == rs {
      assert Pending(notInserted, p) == Bang(negated);
      assert Pending(arrayFrom, p) == Bang(negated) + af;
      assert Pending(wrapOpened, p) == Bang(negated) + af + po;
    } else {
      assert Pending(wrapOpened, p) == leftPart;
    }
    var rightPatched := ChildPatch(wrapOpened, r);
    ChildPatchAt(wrapOpened, r, p);
    assert Kept(rightPatched, p) == !(ls <= p < re);
    var wrapClosed := InsertIf(rightPatched, parens, re, ")");
    InsertIfAt(rightPatched, parens, re, ")", p);
    if p == re {
      assert Pending(rightPatched, p) == "";
      assert Pending(wrapClosed, p) == (if parens then ")" else "");
    }
  }

  // ---------------------------------------------------------------------------
  // Concatenating the pieces each path leaves

  /** A stretch whose first piece is `t` and whose other pieces are empty. */
  lemma ConcatReplaced(parts: seq<string>, lo: nat, hi: nat, t: string)
    requires lo < hi <= |parts|
    requires parts[lo] == t
    requires forall p :: lo < p < hi ==> parts[p] == ""
    ensures Concat(parts, lo, hi) == t
  {
    ConcatOne(parts, lo);
    ConcatErased(parts, lo + 1, hi);
    ConcatJoin(parts, lo, lo + 1, hi, t, "");
    AppendEmpty(t);
  }

  /** The untouched rest of the source from `hi` on, followed by an empty last piece. */
  lemma ConcatTail(parts: seq<string>, source: string, hi: nat)
    requires hi <= |source| && |parts| == |source| + 1
    requires forall p :: hi <= p < |source| ==> parts[p] == [source[p]]
    requires parts[|source|] == ""
    ensures Concat(parts, hi, |parts|) == source[hi..]
  {
    var size := |source|;
    ConcatCopied(parts, source, hi, size);
    ConcatOne(parts, size);
    ConcatSplit(parts, hi, size, size + 1);
  }

  /** The text inserted at `re`, then the rest of the source. */
  lemma ConcatClosed(parts: seq<string>, source: string, re: nat, d: string)
    requires re <= |source| && |parts| == |source| + 1
    requires parts[re] == d + (if re < |source| then [source[re]] else [])
    requires forall p :: re < p < |source| ==> parts[p] == [source[p]]
    requires re < |source| ==> parts[|source|] == ""
    ensures Concat(parts, re, |parts|) == d + source[re..]
  {
    ConcatOne(parts, re);
    if re < |source| {
      var rest := source[re + 1..];
      ConcatTail(parts, source, re + 1);
      ConcatJoin(parts, re, re + 1, |parts|, d + [source[re]], rest);
      SliceCons(source, re, |source|);
      Associative(d, [source[re]], rest);
    } else {
      assert source[re..] == [];
    }
  }

  /** A stretch of untouched characters, the first of which carries text `t` in front of it. */
  lemma {:induction false} ConcatCopiedAfter(parts: seq<string>, source: string, t: string, lo: nat, hi: nat)
    requires lo < hi <= |source| && hi <= |parts|
    requires parts[lo] == t + [source[lo]]
    requires forall p :: lo < p < hi ==> parts[p] == [source[p]]
    ensures Concat(parts, lo, hi) == t + source[lo..hi]
    decreases hi - lo
  {
    if hi == lo + 1 {
      ConcatOne(parts, lo);
      assert source[lo..hi] == [source[lo]];
    } else {
      ConcatCopiedAfter(parts, source, t, lo, hi - 1);
      ConcatOne(parts, hi - 1);
      ConcatJoin(parts, lo, hi - 1, hi, t + source[lo..hi - 1], [source[hi - 1]]);
      SliceSnoc(source, lo, hi);
      Associative(t, source[lo..hi - 1], [source[hi - 1]]);
    }
  }

  /** An untouched prefix of the source, a middle and a tail. */
  lemma ConcatThreeParts(parts: seq<string>, source: string, lo: nat, hi: nat, middle: string, tail: string)
    requires lo <= hi <= |source| && |parts| == |source| + 1
    requires forall p :: 0 <= p < lo ==> parts[p] == [source[p]]
    requires Concat(parts, lo, hi) == middle
    requires Concat(parts, hi, |parts|) == tail
    ensures Concat(parts, 0, |parts|) == source[..lo] + middle + tail
  {
    ConcatCopied(parts, source, 0, lo);
    ConcatSplit(parts, lo, hi, |parts|);
    ConcatSplit(parts, 0, lo, |parts|);
    assert source[0..lo] == source[..lo];
    Associative(source[..lo], middle, tail);
  }

  /**
   * The layout the in-place path leaves: text `a` at x and `b` at y, every
   * other piece of [x, z) empty, the rest of the source untouched.
   */
  lemma ConcatTwoInserts(parts: seq<string>, source: string, x: nat, y: nat, z: nat, a: string, b: string)
    requires x < y < z <= |source| && |parts| == |source| + 1
    requires parts[x] == a && parts[y] == b
    requires forall p :: x < p < z && p != y ==> parts[p] == ""
    requires forall p :: 0 <= p < x || z <= p < |source| ==> parts[p] == [source[p]]
    requires parts[|source|] == ""
    ensures Concat(parts, 0, |parts|) == source[..x] + (a + b) + source[z..]
  {
    ConcatReplaced(parts, x, y, a);
    ConcatReplaced(parts, y, z, b);
    ConcatSplit(parts, x, y, z);
    ConcatTail(parts, source, z);
    ConcatThreeParts(parts, source, x, z, a + b, source[z..]);
  }

  /** From the node's start to the right operand's start: `(`, the kept prefix, and the texts at ls and le. */
  lemma ConcatExtractedLeft(parts: seq<string>, source: string, cs: nat, ls: nat, le: nat, rs: nat, a: string, b: string)
    requires cs <= ls < le < rs <= |source| && |parts| == |source| + 1
    requires cs < ls ==> parts[cs] == "(" + [source[cs]] && parts[ls] == a
    requires cs == ls ==> parts[ls] == "(" + a
    requires forall p :: cs < p < ls ==> parts[p] == [source[p]]
    requires parts[le] == b
    requires forall p :: ls < p < rs && p != le ==> parts[p] == ""
    ensures Concat(parts, cs, rs) == "(" + source[cs..ls] + a + b
  {
    if cs < ls {
      ConcatCopiedAfter(parts, source, "(", cs, ls);
      ConcatReplaced(parts, ls, le, a);
      ConcatSplit(parts, cs, ls, le);
    } else {
      ConcatReplaced(parts, ls, le, "(" + a);
      assert source[cs..ls] == [];
      assert "(" + source[cs..ls] == "(";
    }
    ConcatReplaced(parts, le, rs, b);
    ConcatSplit(parts, cs, le, rs);
  }

  /**
   * The layout the extraction path leaves: `(` at `cs`, the source kept up to
   * `ls`, texts at ls, le, rs and re, every other piece of [ls, re) empty and
   * the rest of the source untouched.
   */
  lemma ConcatExtracted(parts: seq<string>, source: string, cs: nat, ls: nat, le: nat, rs: nat, re: nat,
                        a: string, b: string, c: string, d: string)
    requires cs <= ls < le < rs < re <= |source| && |parts| == |source| + 1
    requires forall p :: 0 <= p < cs ==> parts[p] == [source[p]]
    requires cs < ls ==> parts[cs] == "(" + [source[cs]] && parts[ls] == a
    requires cs == ls ==> parts[ls] == "(" + a
    requires forall p :: cs < p < ls ==> parts[p] == [source[p]]
    requires parts[le] == b && parts[rs] == c
    requires forall p :: ls < p < re && p != le && p != rs ==> parts[p] == ""
    requires parts[re] == d + (if re < |source| then [source[re]] else [])
    requires forall p :: re < p < |source| ==> parts[p] == [source[p]]
    requires re < |source| ==> parts[|source|] == ""
    ensures Concat(parts, 0, |parts|) == source[..cs] + ("(" + source[cs..ls] + a + b + c + d) + source[re..]
  {
    var left := "(" + source[cs..ls] + a + b;
    ConcatExtractedLeft(parts, source, cs, ls, le, rs, a, b);
    ConcatReplaced(parts, rs, re, c);
    ConcatSplit(parts, cs, rs, re);
    ConcatClosed(parts, source, re, d);
    ConcatThreeParts(parts, source, cs, re, left + c, d + source[re..]);
    RegroupTail(source[..cs], left + c, d, source[re..]);
  }

  lemma RenderInPlace(source: string, n: InOpNode, options: Options, negated: bool)
    requires WellFormed(n, |source|)
    ensures Render(source, InPlaceEdits(NoEdits, n, options, negated))
         == source[..n.left.outerStart] + InPlaceText(n, options, negated) + source[n.right.outerEnd..]
  {
    var log := InPlaceEdits(NoEdits, n, options, negated);
    var parts := Pieces(source, log);
    var size := |source|;
    var ls, le, re := n.left.outerStart, n.left.outerEnd, n.right.outerEnd;
    var opening := Bang(negated) + (Receiver(options, n.right) + ".includes(") + n.left.code;
    forall p: nat | p < |parts|
      ensures parts[p] == if p == ls then opening else if p == le then ")"
                          else if ls <= p < re || p == size then "" else [source[p]]
    {
      InPlaceAt(n, options, negated, p);
    }
    ConcatTwoInserts(parts, source, ls, le, re, opening, ")");
    Associative(Bang(negated), Receiver(options, n.right), ".includes(");
    assert InPlaceText(n, options, negated) == opening + ")";
  }

  /** Away from the inserted texts, a log with the extraction path's effect leaves the source's characters or nothing. */
  lemma ExtractedPiecesBetween(source: string, log: EditLog, n: InOpNode, options: Options, negated: bool)
    requires WellFormed(n, |source|)
    requires forall p: nat :: Pending(log, p) == ExtractedPending(n, options, negated, p)
    requires forall p: nat :: Kept(log, p) == !(n.left.outerStart <= p < n.right.outerEnd)
    ensures var parts := Pieces(source, log);
      var cs, ls, le, rs, re := n.contentStart, n.left.outerStart, n.left.outerEnd, n.right.outerStart, n.right.outerEnd;
      && (forall p :: 0 <= p < cs || cs < p < ls || re < p < |source| ==> parts[p] == [source[p]])
      && (forall p :: ls < p < re && p != le && p != rs ==> parts[p] == "")
      && (re < |source| ==> parts[|source|] == "")
  {
    var cs, ls, le, rs, re := n.contentStart, n.left.outerStart, n.left.outerEnd, n.right.outerStart, n.right.outerEnd;
    forall p | 0 <= p < cs || cs < p < ls || re < p < |source|
      ensures Pieces(source, log)[p] == [source[p]]
    {
      PieceUntouched(source, log, p);
    }
    forall p | ls < p < re && p != le && p != rs
      ensures Pieces(source, log)[p] == ""
    {
      PieceRemoved(source, log, p, "");
    }
    if re < |source| {
      PieceRemoved(source, log, |source|, "");
    }
  }

  /** At the inserted texts, a log with the extraction path's effect leaves exactly those texts. */
  lemma ExtractedPiecesAt(source: string, log: EditLog, n: InOpNode, options: Options, negated: bool)
    requires WellFormed(n, |source|)
    requires forall p: nat :: Pending(log, p) == ExtractedPending(n, options, negated, p)
    requires forall p: nat :: Kept(log, p) == !(n.left.outerStart <= p < n.right.outerEnd)
    ensures var parts := Pieces(source, log);
      var l, r := n.left, n.right;
      var cs, ls, le, rs, re := n.contentStart, l.outerStart, l.outerEnd, r.outerStart, r.outerEnd;
      var wrap := ShouldWrapInArrayFrom(options, r);
      var parens := wrap || RhsNeedsParens(r);
      var binding := (Needle + " = ") + l.code;
      && (cs < ls ==> parts[cs] == "(" + [source[cs]] && parts[ls] == binding)
      && (cs == ls ==> parts[ls] == "(" + binding)
      && parts[le] == ", "
      && parts[rs] == Bang(negated) + (if wrap then "Array.from" else "") + (if parens then "(" else "") + r.code
      && parts[re] == (if parens then ")" else "") + (".includes(" + Needle + "))")
                      + (if re < |source| then [source[re]] else [])
  {
    var l, r := n.left, n.right;
    var cs, ls, le, rs, re := n.contentStart, l.outerStart, l.outerEnd, r.outerStart, r.outerEnd;
    var binding := (Needle + " = ") + l.code;
    if cs < ls {
      PieceKept(source, log, cs, "(");
      assert Pending(log, ls) == binding;
      PieceRemoved(source, log, ls, binding);
    } else {
      PieceRemoved(source, log, ls, "(" + binding);
    }
    PieceRemoved(source, log, le, ", ");
    PieceRemoved(source, log, rs, Pending(log, rs));
    if re < |source| {
      PieceKept(source, log, re, Pending(log, re));
    } else {
      PieceRemoved(source, log, re, Pending(log, re));
      assert Pending(log, re) + [] == Pending(log, re);
    }
  }

  /**
   * With the left operand extracted: the span from the node's start to the
   * right operand's end becomes `(needle = L, [!]RECV.includes(needle))`, with
   * the same receiver as the in-place path. The left code comes once and
   * before the right code, the operator between them is gone, and `!`
   * precedes `Array.from`.
   */
  lemma RenderExtracted(source: string, n: InOpNode, options: Options, negated: bool)
    requires WellFormed(n, |source|)
    ensures Render(source, ExtractedEdits(NoEdits, n, options, negated))
         == source[..n.contentStart] + ExtractedText(source, n, options, negated) + source[n.right.outerEnd..]
  {
    var log := ExtractedEdits(NoEdits, n, options, negated);
    forall p: nat
      ensures Pending(log, p) == ExtractedPending(n, options, negated, p)
      ensures Kept(log, p) == !(n.left.outerStart <= p < n.right.outerEnd)
    {
      ExtractedAt(n, options, negated, p);
    }
    RenderExtractedEffect(source, log, n, options, negated);
  }

  /** Any log with the extraction path's effect renders as `ExtractedText` in place of the node. */
  lemma RenderExtractedEffect(source: string, log: EditLog, n: InOpNode, options: Options, negated: bool)
    requires WellFormed(n, |source|)
    requires forall p: nat :: Pending(log, p) == ExtractedPending(n, options, negated, p)
    requires forall p: nat :: Kept(log, p) == !(n.left.outerStart <= p < n.right.outerEnd)
    ensures Render(source, log)
         == source[..n.contentStart] + ExtractedText(source, n, options, negated) + source[n.right.outerEnd..]
  {
    var parts := Pieces(source, log);
    var l, r := n.left, n.right;
    var cs, ls, le, rs, re := n.contentStart, l.outerStart, l.outerEnd, r.outerStart, r.outerEnd;
    var wrap := ShouldWrapInArrayFrom(options, r);
    var parens := wrap || RhsNeedsParens(r);
    var af, po, pc := if wrap then "Array.from" else "", if parens then "(" else "", if parens then ")" else "";
    var binding := (Needle + " = ") + l.code;
    var atRight := Bang(negated) + af + po + r.code;
    var atEnd := pc + (".includes(" + Needle + "))");
    ExtractedPiecesBetween(source, log, n, options, negated);
    ExtractedPiecesAt(source, log, n, options, negated);
    ConcatExtracted(parts, source, cs, ls, le, rs, re, binding, ", ", atRight, atEnd);
    ExtractedTextParts(source, n, options, negated);
  }

  /** `ExtractedText` cut where the extraction path's insertions fall. */
  lemma ExtractedTextParts(source: string, n: InOpNode, options: Options, negated: bool)
    requires n.contentStart <= n.left.outerStart <= |source|
    ensures var l, r := n.left, n.right;
      var wrap := ShouldWrapInArrayFrom(options, r);
      var parens := wrap || RhsNeedsParens(r);
      var af, po, pc := if wrap then "Array.from" else "", if parens then "(" else "", if parens then ")" else "";
      ExtractedText(source, n, options, negated)
      == "(" + source[n.contentStart..l.outerStart] + ((Needle + " = ") + l.code) + ", "
         + (Bang(negated) + af + po + r.code) + (pc + (".includes(" + Needle + "))"))
  {
    var l, r := n.left, n.right;
    var wrap := ShouldWrapInArrayFrom(options, r);
    var parens := wrap || RhsNeedsParens(r);
    var af, po, pc := if wrap then "Array.from" else "", if parens then "(" else "", if parens then ")" else "";
    var binding := (Needle + " = ") + l.code;
    var atRight := Bang(negated) + af + po + r.code;
    var atEnd := pc + (".includes(" + Needle + "))");
    var opening := "(" + source[n.contentStart..l.outerStart];
    var call := ".includes(" + Needle + "))";
    ReceiverParts(options, r);
    RegroupCall(Bang(negated), af, po, r.code, pc, call);
    assert atRight + atEnd == Bang(negated) + Receiver(options, r) + call;
    RegroupText(opening, Needle, " = ", l.code, ", ", Bang(negated), Receiver(options, r), ".includes(", "))");
    Associative(opening + binding + ", ", atRight, atEnd);
  }

  /** The receiver assembled from the pieces the extraction path inserts around the right operand. */
  lemma ReceiverParts(options: Options, right: Operand)
    ensures var wrap := ShouldWrapInArrayFrom(options, right);
      var parens := wrap || RhsNeedsParens(right);
      (if wrap then "Array.from" else "") + (if parens then "(" else "") + right.code + (if parens then ")" else "")
      == Receiver(options, right)
  {
    if ShouldWrapInArrayFrom(options, right) {
      assert "Array.from" + "(" == "Array.from(";
    }
  }

  /**
   * `not in` differs from `in` by a single `!`: in front of the whole call on
   * the in-place path, in front of the receiver (after the `needle`
   * assignment) on the extraction path.
   */
  lemma NegationAddsBang(source: string, n: InOpNode, options: Options)
    requires WellFormed(n, |source|)
    ensures InPlaceText(n, options, true) == "!" + InPlaceText(n, options, false)
    ensures var head := "(" + source[n.contentStart..n.left.outerStart] + Needle + " = " + n.left.code + ", ";
      var tail := Receiver(options, n.right) + ".includes(" + Needle + "))";
      && ExtractedText(source, n, options, false) == head + tail
      && ExtractedText(source, n, options, true) == head + "!" + tail
  {
    var recv := Receiver(options, n.right);
    var head := "(" + source[n.contentStart..n.left.outerStart] + Needle + " = " + n.left.code + ", ";
    RegroupBang("!", recv, ".includes(", n.left.code, ")");
    RegroupBang("", recv, ".includes(", n.left.code, ")");
    assert "" + recv == recv;
    RegroupBang(head + "!", recv, ".includes(", Needle, "))");
    RegroupBang(head + "", recv, ".includes(", Needle, "))");
    AppendEmpty(head);
  }

  /** The text the rule leaves in the buffer, whichever path it takes. */
  lemma RenderRewrite(source: string, n: InOpNode, options: Options, negated: bool)
    requires WellFormed(n, |source|)
    ensures Render(source, RewriteEdits(NoEdits, n, options, negated))
         == source[..RewriteStart(n)] + RewrittenText(source, n, options, negated) + source[n.right.outerEnd..]
  {
    if UsesExtraction(n) {
      RenderExtracted(source, n, options, negated);
    } else {
      RenderInPlace(source, n, options, negated);
    }
  }

  // ---------------------------------------------------------------------------
  // Sequence identities
  //
  // Dafny proves each of these without help. They are stated as lemmas so that
  // the rendering proofs above can use them without the whole concatenation in
  // their context, which keeps those proofs small.

  lemma AppendEmpty(t: string)
    ensures t + "" == t
  {
  }

  lemma SliceCons(s: string, i: nat, j: nat)
    requires i < j <= |s|
    ensures s[i..j] == [s[i]] + s[i + 1..j]
  {
  }

  lemma SliceSnoc(s: string, i: nat, j: nat)
    requires i < j <= |s|
    ensures s[i..j] == s[i..j - 1] + [s[j - 1]]
  {
  }

  lemma RegroupTail(prefix: string, middle: string, d: string, rest: string)
    ensures prefix + middle + (d + rest) == prefix + (middle + d) + rest
  {
  }

  lemma RegroupCall(bang: string, af: string, po: string, code: string, pc: string, call: string)
    ensures bang + af + po + code + (pc + call) == bang + (af + po + code + pc) + call
  {
  }

  lemma RegroupText(opening: string, needle: string, eq: string, left: string, comma: string,
                    bang: string, recv: string, includes: string, close: string)
    ensures opening + needle + eq + left + comma + bang + recv + includes + needle + close
         == opening + (needle + eq + left) + comma + (bang + recv + (includes + needle + close))
  {
  }

  lemma RegroupBang(front: string, recv: string, call: string, arg: string, close: string)
    ensures front + recv + call + arg + close == front + (recv + call + arg + close)
  {
  }

  // ---------------------------------------------------------------------------
  // The patcher

  class InOpPatcher {
    const node: InOpNode
    const options: Options
    const buffer: TextBuffer
    var negated: bool
    ghost var negations: nat  // how many times `negate()` has been called

    ghost predicate Valid()
      reads this
    {
      WellFormed(node, |buffer.source|) && negated == NegatedAfter(node.isNot, negations)
    }

    constructor (buffer: TextBuffer, node: InOpNode, options: Options)
      requires WellFormed(node, |buffer.source|)
      ensures Valid()
      ensures this.buffer == buffer && this.node == node && this.options == options
      ensures negated == node.isNot && negations == 0
    {
      this.buffer := buffer;
      this.node := node;
      this.options := options;
      negated := node.isNot;
      negations := 0;
    }

    method Negate()
      requires Valid()
      modifies this
      ensures Valid()
      ensures negated == !old(negated) && negations == old(negations) + 1
      ensures negated == if negations % 2 == 0 then node.isNot else !node.isNot
    {
      negated := !negated;
      negations := negations + 1;
      NegationParity(node.isNot, negations);
    }

    /** The child's `patch()`: its code takes the place of its source span. */
    method PatchChild(op: Operand)
      requires op.outerStart <= op.outerEnd <= |buffer.source|
      modifies buffer
      ensures buffer.log == ChildPatch(old(buffer.log), op)
      ensures forall p: nat :: Pending(buffer.log, p) == (
                if p == op.outerStart then Pending(old(buffer.log), p) + op.code
                else if op.outerStart < p <= op.outerEnd then ""
                else Pending(old(buffer.log), p))
      ensures forall p: nat :: Kept(buffer.log, p) == (Kept(old(buffer.log), p) && !(op.outerStart <= p < op.outerEnd))
    {
      buffer.Remove(op.outerStart, op.outerEnd);
      buffer.Insert(op.outerStart, op.code);
      forall p: nat
        ensures Pending(buffer.log, p) ==
          if p == op.outerStart then Pending(old(buffer.log), p) + op.code
          else if op.outerStart < p <= op.outerEnd then ""
          else Pending(old(buffer.log), p)
        ensures Kept(buffer.log, p) == (Kept(old(buffer.log), p) && !(op.outerStart <= p < op.outerEnd))
      {
        ChildPatchAt(old(buffer.log), op, p);
      }
    }

    /** The child's `patchRepeatable` with a forced fresh temporary: `needle = <code>` in place of the operand. */
    method PatchRepeatable(op: Operand) returns (ref: string)
      requires op.outerStart <= op.outerEnd <= |buffer.source|
      modifies buffer
      ensures ref == Needle
      ensures buffer.log == ChildPatch(Then(old(buffer.log), InsertText(op.outerStart, Needle + " = ")), op)
    {
      buffer.Insert(op.outerStart, Needle + " = ");
      PatchChild(op);
      ref := Needle;
    }

    method PatchAsExpression()
      requires Valid()
      modifies buffer
      ensures Valid()
      ensures buffer.log == RewriteEdits(old(buffer.log), node, options, negated)
      ensures old(buffer.log) == NoEdits ==>
        buffer.Text() == buffer.source[..RewriteStart(node)]
                         + RewrittenText(buffer.source, node, options, negated)
                         + buffer.source[node.right.outerEnd..]
    {
      if !node.left.isPure || !node.right.isPure {
        PatchWithLhsExtracted();
      } else {
        var l, r := node.left, node.right;
        PatchChild(r);
        var rightCode := r.code;
        if ShouldWrapInArrayFrom(options, r) {
          rightCode := "Array.from(" + rightCode + ")";
        } else if RhsNeedsParens(r) {
          rightCode := "(" + rightCode + ")";
        }
        buffer.Remove(l.outerEnd, r.outerEnd);
        if negated {
          buffer.Insert(l.outerStart, "!");
        }
        buffer.Insert(l.outerStart, rightCode + ".includes(");
        PatchChild(l);
        buffer.Insert(l.outerEnd, ")");
      }
      RenderRewrite(buffer.source, node, options, negated);
    }

    method PatchWithLhsExtracted()
      requires Valid()
      modifies buffer
      ensures Valid()
      ensures buffer.log == ExtractedEdits(old(buffer.log), node, options, negated)
      ensures old(buffer.log) == NoEdits ==>
        buffer.Text() == buffer.source[..node.contentStart]
                         + ExtractedText(buffer.source, node, options, negated)
                         + buffer.source[node.right.outerEnd..]
    {
      var l, r := node.left, node.right;
      buffer.Insert(node.contentStart, "(");
      var leftRef := PatchRepeatable(l);
      buffer.Insert(l.outerEnd, ", ");
      buffer.Remove(l.outerEnd, r.outerStart);
      if negated {
        buffer.Insert(r.outerStart, "!");
      }
      var wrapInArrayFrom := ShouldWrapInArrayFrom(options, r);
      var rhsNeedsParens := wrapInArrayFrom || RhsNeedsParens(r);
      if wrapInArrayFrom {
        buffer.Insert(r.outerStart, "Array.from");
      }
      if rhsNeedsParens {
        buffer.Insert(r.outerStart, "(");
      }
      PatchChild(r);
      if rhsNeedsParens {
        buffer.Insert(r.outerEnd, ")");
      }
      buffer.Insert(r.outerEnd, ".includes(" + leftRef + "))");
      RenderExtracted(buffer.source, node, options, negated);
    }
  }
}
