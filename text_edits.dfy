/**
 * The text-edit buffer the patchers write into: edits are queued against
 * offsets of the ORIGINAL source text and composed by position.
 *
 * Composition rule: the text inserted at offset `p` is attached to the
 * character just before `p`. Several insertions at the same offset
 * accumulate forward (each new one lands after the earlier ones), and a
 * removal of [start, stop) discards the original characters of the range
 * together with whatever was inserted EARLIER at offsets start < p <= stop;
 * text inserted at `start` itself, or inserted after the removal, survives.
 */
module TextEdits {

  /** One queued edit, as issued by `insert(offset, text)` and `remove(start, stop)`. */
  datatype Edit =
    | InsertText(at: nat, text: string)
    | RemoveRange(start: nat, stop: nat)

  /** The edits queued so far, most recent last. */
  datatype EditLog = NoEdits | Then(earlier: EditLog, last: Edit)

  /** The inserted text that stands in front of offset `p` once the logged edits have been applied in order. */
  function Pending(log: EditLog, p: nat): string
  {
    match log
    case NoEdits => ""
    case Then(earlier, InsertText(q, t)) => if q == p then Pending(earlier, p) + t else Pending(earlier, p)
    case Then(earlier, RemoveRange(s, e)) => if s < p <= e then "" else Pending(earlier, p)
  }

  /** Whether the original character at offset `p` survives the logged edits. */
  predicate Kept(log: EditLog, p: nat)
  {
    match log
    case NoEdits => true
    case Then(earlier, InsertText(_, _)) => Kept(earlier, p)
    case Then(earlier, RemoveRange(s, e)) => Kept(earlier, p) && !(s <= p < e)
  }

  /** What offset `p` contributes to the output: its pending text, then its character if kept. */
  function Piece(source: string, log: EditLog, p: nat): string
  {
    Pending(log, p) + (if p < |source| && Kept(log, p) then [source[p]] else [])
  }

  /** The contribution of every offset of the source, and of the one just past its end, in order. */
  function Pieces(source: string, log: EditLog): (parts: seq<string>)
    ensures |parts| == |source| + 1
    ensures forall p: nat :: p < |parts| ==> parts[p] == Piece(source, log, p)
  {
    seq(|source| + 1, p requires 0 <= p => Piece(source, log, p))
  }

  /** The concatenation of parts[lo], ..., parts[hi-1]. */
  function Concat(parts: seq<string>, lo: nat, hi: nat): string
    requires lo <= hi <= |parts|
    decreases hi - lo
  {
    if lo == hi then "" else Concat(parts, lo, hi - 1) + parts[hi - 1]
  }

  /** The final text: the pieces of all offsets, in order. */
  function Render(source: string, log: EditLog): string
  {
    var parts := Pieces(source, log);
    Concat(parts, 0, |parts|)
  }

  /** The piece of an offset whose character was removed is its pending text alone. */
  lemma PieceRemoved(source: string, log: EditLog, p: nat, t: string)
    requires p <= |source|
    requires Pending(log, p) == t && (p < |source| ==> !Kept(log, p))
    ensures Pieces(source, log)[p] == t
  {
    assert Piece(source, log, p) == t + [];
  }

  /** The piece of an offset whose character survives is its pending text, then the character. */
  lemma PieceKept(source: string, log: EditLog, p: nat, t: string)
    requires p < |source|
    requires Pending(log, p) == t && Kept(log, p)
    ensures Pieces(source, log)[p] == t + [source[p]]
  {
  }

  /** An offset with no pending text and a surviving character contributes just that character. */
  lemma PieceUntouched(source: string, log: EditLog, p: nat)
    requires p < |source|
    requires Pending(log, p) == "" && Kept(log, p)
    ensures Pieces(source, log)[p] == [source[p]]
  {
    assert Piece(source, log, p) == "" + [source[p]];
  }

  // ---------------------------------------------------------------------------
  // Composition

  /** Inserts at one offset come out in call order, each after the text inserted before it. */
  lemma InsertsAccumulateForward(log: EditLog, p: nat, first: string, second: string)
    ensures Pending(Then(Then(log, InsertText(p, first)), InsertText(p, second)), p) == Pending(log, p) + first + second
  {
  }

  /**
   * A removal discards the text inserted earlier strictly inside its range or
   * at its end, but not the text inserted at its start, nor text inserted
   * after it.
   */
  lemma RemoveKeepsInsertAtStart(log: EditLog, s: nat, e: nat, t: string)
    requires s < e
    ensures Pending(Then(Then(log, InsertText(s, t)), RemoveRange(s, e)), s) == Pending(log, s) + t
    ensures forall p :: s < p < e ==> Pending(Then(Then(log, InsertText(p, t)), RemoveRange(s, e)), p) == ""
    ensures Pending(Then(Then(log, InsertText(e, t)), RemoveRange(s, e)), e) == ""
    ensures Pending(Then(Then(log, RemoveRange(s, e)), InsertText(e, t)), e) == t
  {
  }

  // ---------------------------------------------------------------------------
  // Concatenating pieces

  lemma ConcatOne(parts: seq<string>, p: nat)
    requires p < |parts|
    ensures Concat(parts, p, p + 1) == parts[p]
  {
    assert Concat(parts, p, p) == "";
  }

  lemma {:induction false} ConcatSplit(parts: seq<string>, lo: nat, mid: nat, hi: nat)
    requires lo <= mid <= hi <= |parts|
    ensures Concat(parts, lo, hi) == Concat(parts, lo, mid) + Concat(parts, mid, hi)
    decreases hi - mid
  {
    if mid < hi {
      ConcatSplit(parts, lo, mid, hi - 1);
    }
  }

  lemma ConcatJoin(parts: seq<string>, lo: nat, mid: nat, hi: nat, u: string, v: string)
    requires lo <= mid <= hi <= |parts|
    requires Concat(parts, lo, mid) == u && Concat(parts, mid, hi) == v
    ensures Concat(parts, lo, hi) == u + v
  {
    ConcatSplit(parts, lo, mid, hi);
  }

  /** A stretch whose pieces are the source's own characters concatenates to that stretch of the source. */
  lemma {:induction false} ConcatCopied(parts: seq<string>, source: string, lo: nat, hi: nat)
    requires lo <= hi <= |source| && hi <= |parts|
    requires forall p :: lo <= p < hi ==> parts[p] == [source[p]]
    ensures Concat(parts, lo, hi) == source[lo..hi]
    decreases hi - lo
  {
    if lo < hi {
      ConcatCopied(parts, source, lo, hi - 1);
      assert source[lo..hi] == source[lo..hi - 1] + [source[hi - 1]];
    }
  }

  /** A stretch of empty pieces concatenates to nothing. */
  lemma {:induction false} ConcatErased(parts: seq<string>, lo: nat, hi: nat)
    requires lo <= hi <= |parts|
    requires forall p :: lo <= p < hi ==> parts[p] == ""
    ensures Concat(parts, lo, hi) == ""
    decreases hi - lo
  {
    if lo < hi {
      ConcatErased(parts, lo, hi - 1);
    }
  }

  // Dafny knows this identity; stating it as a lemma keeps the contexts of
  // the larger proofs that call it small.
  lemma Associative(a: string, b: string, c: string)
    ensures a + b + c == a + (b + c)
  {
  }

  /** With no edits queued, the buffer renders the source unchanged. */
  lemma RenderUnedited(source: string)
    ensures Render(source, NoEdits) == source
  {
    var parts := Pieces(source, NoEdits);
    var size := |source|;
    assert forall p :: 0 <= p < size ==> parts[p] == [source[p]];
    ConcatCopied(parts, source, 0, size);
    ConcatOne(parts, size);
    ConcatSplit(parts, 0, size, size + 1);
    assert source[0..size] == source;
  }

  /**
   * The buffer shared by all patchers of one file. The source is fixed; the
   * patchers only queue edits, and `Text()` is the result of applying them.
   */
  class TextBuffer {
    const source: string
    var log: EditLog

    constructor (source: string)
      ensures this.source == source && log == NoEdits
      ensures Text() == source
    {
      this.source := source;
      log := NoEdits;
      new;
      RenderUnedited(source);
    }

    function Text(): string
      reads this
    {
      Render(source, log)
    }

    method Insert(at: nat, text: string)
      requires at <= |source|
      modifies this
      ensures log == Then(old(log), InsertText(at, text))
    {
      log := Then(log, InsertText(at, text));
    }

    method Remove(start: nat, stop: nat)
      requires start <= stop <= |source|
      modifies this
      ensures log == Then(old(log), RemoveRange(start, stop))
    {
      log := Then(log, RemoveRange(start, stop));
    }
  }
}
