/**
 * The client helper `diffToAceDeltas` of the collaboration plugin.
 *
 * It turns the delta string of a diff (tab-separated tokens "=n", "+text",
 * "-n") into editor deltas: one "insertText" or "removeText" delta per
 * edit token, positioned by the 1-based row and column it tracks while
 * walking over the original text. The delta string is taken here as an
 * already split, decoded and parsed sequence of tokens.
 */
module AceDeltas {

  /** One token of the delta string after `split('\t')`, `decodeURI` and `parseInt`. */
  datatype Tok =
    | Eq(count: nat)      // "=n": n characters are unchanged
    | Ins(text: string)   // "+text": text is inserted
    | Del(count: nat)     // "-n": n characters are removed
    | Bad(tag: string)    // any other first character, or an empty token

  predicate IsEdit(t: Tok)
  {
    t.Ins? || t.Del?
  }

  datatype Action = InsertText | RemoveText

  /** A zero-based editor position. */
  datatype Point = Point(row: int, column: int)

  datatype AceDelta = AceDelta(action: Action, start: Point, end: Point, text: string)

  predicate NonNegative(d: AceDelta)
  {
    d.start.row >= 0 && d.start.column >= 0 && d.end.row >= 0 && d.end.column >= 0
  }

  /** The loop variables of the conversion: the offset into the original text and the 1-based row and column. */
  datatype Cursor = Cursor(offset: nat, row: int, col: int)

  const Start: Cursor := Cursor(0, 1, 1)

  // ---------------------------------------------------------------------
  // Text helpers
  // ---------------------------------------------------------------------

  /** The number of line feeds in s, that is `s.split("\n").length - 1`. */
  function NewlineCount(s: string): nat
  {
    NewlinesIn(s, |s|)
  }

  /** The number of line feeds among the first n characters of s. */
  function NewlinesIn(s: string, n: nat): nat
    requires n <= |s|
  {
    if n == 0 then 0 else NewlinesIn(s, n - 1) + (if s[n - 1] == '\n' then 1 else 0)
  }

  /** The length of the last segment of `s.split("\n")`. */
  function LastLineLen(s: string): nat
  {
    LastLineIn(s, |s|)
  }

  /** The length of the last segment of the first n characters of s. */
  function LastLineIn(s: string, n: nat): nat
    requires n <= |s|
  {
    if n == 0 then 0 else if s[n - 1] == '\n' then 0 else LastLineIn(s, n - 1) + 1
  }

  /** The zero-based editor position just after the text s. */
  function EndPoint(s: string): Point
  {
    Point(NewlineCount(s), LastLineLen(s))
  }

  /** JavaScript's `s.substring(from, to)` for `from <= to`: both ends are clamped to the length of s. */
  function Substring(s: string, from: nat, to: nat): (r: string)
    requires from <= to
    ensures to <= |s| ==> r == s[from..to]
    ensures |r| <= to - from
  {
    var a := if from <= |s| then from else |s|;
    var b := if to <= |s| then to else |s|;
    s[a..b]
  }

  function DigitChar(d: nat): char
    requires d < 10
  {
    "0123456789"[d]
  }

  /** The decimal rendering of n, the form in which the delta string carries counts. */
  function Decimal(n: nat): (r: string)
    ensures |r| >= 1
  {
    if n < 10 then [DigitChar(n)] else Decimal(n / 10) + [DigitChar(n % 10)]
  }

  /** The counts over a prefix of a + b that lies within a are those over a. */
  lemma {:induction false} CountsWithin(a: string, b: string, n: nat)
    requires n <= |a|
    ensures NewlinesIn(a + b, n) == NewlinesIn(a, n)
    ensures LastLineIn(a + b, n) == LastLineIn(a, n)
  {
    if n > 0 {
      CountsWithin(a, b, n - 1);
    }
  }

  /** The counts over a followed by the first k characters of b. */
  lemma {:induction false} CountsAcross(a: string, b: string, k: nat)
    requires k <= |b|
    ensures NewlinesIn(a + b, |a| + k) == NewlinesIn(a, |a|) + NewlinesIn(b, k)
    ensures LastLineIn(a + b, |a| + k) == if NewlinesIn(b, k) == 0 then LastLineIn(a, |a|) + k else LastLineIn(b, k)
  {
    if k == 0 {
      CountsWithin(a, b, |a|);
    } else {
      CountsAcross(a, b, k - 1);
      assert (a + b)[|a| + k - 1] == b[k - 1];
    }
  }

  /** Line feeds add up over a concatenation, and the last line of a + b runs into a only when b has no line feed. */
  lemma NewlineCountAppend(a: string, b: string)
    ensures NewlineCount(a + b) == NewlineCount(a) + NewlineCount(b)
    ensures LastLineLen(a + b) == if NewlineCount(b) == 0 then LastLineLen(a) + |b| else LastLineLen(b)
  {
    CountsAcross(a, b, |b|);
  }

  // ---------------------------------------------------------------------
  // The specification: a left-to-right fold over the tokens
  // ---------------------------------------------------------------------

  /**
   * Row and column after the "=" loop has stepped over n characters of the
   * original text from offset, one character at a time; a position past the
   * end of the text reads as a non-line-feed (`charAt` gives "").
   */
  function Walk(text: string, offset: nat, n: nat, row: int, col: int): (rc: (int, int))
    requires col >= 1
    ensures rc.0 >= row && rc.1 >= 1
  {
    if n == 0 then (row, col)
    else
      var (r, c) := Walk(text, offset, n - 1, row, col);
      if offset + n - 1 < |text| && text[offset + n - 1] == '\n' then (r + 1, 1) else (r, c + 1)
  }

  /** Row and column after moving over the text s, computed the way the "+" branch does from `s.split("\n")`. */
  function Advance(row: int, col: int, s: string): (rc: (int, int))
    ensures rc.0 >= row
    ensures col >= 1 ==> rc.1 >= 1
  {
    var k := NewlineCount(s);
    (row + k, if k <= 0 then col + |s| else LastLineLen(s) + 1)
  }

  /** The cursor after processing one token (tokens that end the conversion leave it unchanged). */
  function Step(text: string, c: Cursor, t: Tok): (c': Cursor)
    requires c.row >= 1 && c.col >= 1
    ensures c'.row >= 1 && c'.col >= 1
    ensures c'.offset == c.offset + Width(t)
    ensures t.Ins? ==> c'.offset == c.offset
    ensures !t.Eq? && !t.Ins? ==> c'.row == c.row && c'.col == c.col
  {
    match t
    case Eq(n) =>
      var (r, cl) := Walk(text, c.offset, n, c.row, c.col);
      Cursor(c.offset + n, r, cl)
    case Ins(s) =>
      var (r, cl) := Advance(c.row, c.col, s);
      Cursor(c.offset, r, cl)
    case Del(n) => Cursor(c.offset + n, c.row, c.col)
    case Bad(_) => c
  }

  /** The deltas one token pushes when the cursor is at c. */
  function Emit(text: string, c: Cursor, t: Tok): (ds: seq<AceDelta>)
    requires c.row >= 1 && c.col >= 1
    ensures |ds| == if IsEdit(t) then 1 else 0
    ensures forall d :: d in ds ==> NonNegative(d)
  {
    match t
    case Ins(s) =>
      [AceDelta(InsertText, Point(c.row - 1, c.col - 1), Point(c.row - 1, c.col - 1), s)]
    case Del(n) =>
      var removed := Substring(text, c.offset, c.offset + n);
      var k := NewlineCount(removed);
      var endRow := c.row + k;
      var endCol := if k <= 0 then c.col + n else LastLineLen(removed) + 1;
      [AceDelta(RemoveText, Point(c.row - 1, c.col - 1), Point(endRow - 1, endCol - 1), Decimal(n))]
    case _ => []
  }

  /** How much of the original text one token consumes. */
  function Width(t: Tok): nat
  {
    match t
    case Eq(n) => n
    case Del(n) => n
    case _ => 0
  }

  /** The sum of the counts of the "=" and "-" tokens among the first n: the part of the original text consumed. */
  function Consumed(toks: seq<Tok>, n: nat): nat
    requires n <= |toks|
  {
    if n == 0 then 0 else Consumed(toks, n - 1) + Width(toks[n - 1])
  }

  /** The number of "+" and "-" tokens among the first n. */
  function EditCount(toks: seq<Tok>, n: nat): nat
    requires n <= |toks|
  {
    if n == 0 then 0 else EditCount(toks, n - 1) + (if IsEdit(toks[n - 1]) then 1 else 0)
  }

  /** The cursor after processing the first n tokens in order. */
  function CursorAfter(text: string, toks: seq<Tok>, n: nat): (c: Cursor)
    requires n <= |toks|
    ensures c.offset == Consumed(toks, n)
    ensures c.row >= 1 && c.col >= 1
  {
    if n == 0 then Start else Step(text, CursorAfter(text, toks, n - 1), toks[n - 1])
  }

  /** The deltas pushed while processing the first n tokens in order. */
  function Emitted(text: string, toks: seq<Tok>, n: nat): (ds: seq<AceDelta>)
    requires n <= |toks|
    ensures |ds| == EditCount(toks, n)
    ensures forall d :: d in ds ==> NonNegative(d)
  {
    if n == 0 then []
    else Emitted(text, toks, n - 1) + Emit(text, CursorAfter(text, toks, n - 1), toks[n - 1])
  }

  predicate HasBad(toks: seq<Tok>)
  {
    exists i :: 0 <= i < |toks| && toks[i].Bad?
  }

  /** What the conversion returns: the pushed deltas, or none at all once a token is not understood. */
  function Deltas(toks: seq<Tok>, text: string): seq<AceDelta>
  {
    if HasBad(toks) then [] else Emitted(text, toks, |toks|)
  }

  // ---------------------------------------------------------------------
  // The conversion itself
  // ---------------------------------------------------------------------

  /** The character loop of the "=" branch: steps over n characters of the original text from offset. */
  method WalkUnchanged(originalText: string, offset: nat, n: nat, row0: int, col0: int) returns (row: int, col: int)
    requires col0 >= 1
    ensures (row, col) == Walk(originalText, offset, n, row0, col0)
  {
    row, col := row0, col0;
    var j := 0;
    while j < n
      invariant 0 <= j <= n
      invariant (row, col) == Walk(originalText, offset, j, row0, col0)
    {
      if offset + j < |originalText| && originalText[offset + j] == '\n' {
        row := row + 1;
        col := 1;
      } else {
        col := col + 1;
      }
      j := j + 1;
    }
  }

  /** One pass of the switch for a token it understands: moves the cursor and pushes the token's delta, if any. */
  method ApplyToken(originalText: string, offset: nat, row: int, col: int, aceDeltas: seq<AceDelta>, t: Tok)
    returns (offset': nat, row': int, col': int, aceDeltas': seq<AceDelta>)
    requires !t.Bad? && row >= 1 && col >= 1
    ensures Cursor(offset', row', col') == Step(originalText, Cursor(offset, row, col), t)
    ensures aceDeltas' == aceDeltas + Emit(originalText, Cursor(offset, row, col), t)
  {
    offset', row', col', aceDeltas' := offset, row, col, aceDeltas;
    match t
    case Eq(unchangedCharactersCount) =>
      row', col' := WalkUnchanged(originalText, offset, unchangedCharactersCount, row, col);
      offset' := offset + unchangedCharactersCount;
    case Ins(data) =>
      aceDeltas' := aceDeltas + [AceDelta(InsertText, Point(row - 1, col - 1), Point(row - 1, col - 1), data)];
      var innerRowsCount := NewlineCount(data);
      row' := row + innerRowsCount;
      if innerRowsCount <= 0 {
        col' := col + |data|;
      } else {
        col' := LastLineLen(data) + 1;
      }
    case Del(deletedCharactersCount) =>
      var removedData := Substring(originalText, offset, offset + deletedCharactersCount);
      var removedRowsCount := NewlineCount(removedData);
      var endRow := row + removedRowsCount;
      var endCol := col;
      if removedRowsCount <= 0 {
        endCol := col + deletedCharactersCount;
      } else {
        endCol := LastLineLen(removedData) + 1;
      }
      aceDeltas' := aceDeltas + [AceDelta(RemoveText, Point(row - 1, col - 1), Point(endRow - 1, endCol - 1),
                                          Decimal(deletedCharactersCount))];
      offset' := offset + deletedCharactersCount;
  }

  /** `diffToAceDeltas`: the loop over the tokens; the first token it does not understand makes the result empty. */
  method DiffToAceDeltas(toks: seq<Tok>, originalText: string) returns (aceDeltas: seq<AceDelta>)
    ensures aceDeltas == Deltas(toks, originalText)
    ensures HasBad(toks) ==> aceDeltas == []
    ensures !HasBad(toks) ==> |aceDeltas| == EditCount(toks, |toks|)
  {
    var offset: nat, row: int, col: int := 0, 1, 1;
    aceDeltas := [];
    var i := 0;
    while i < |toks|
      invariant 0 <= i <= |toks|
      invariant Cursor(offset, row, col) == CursorAfter(originalText, toks, i)
      invariant aceDeltas == Emitted(originalText, toks, i)
      invariant forall k :: 0 <= k < i ==> !toks[k].Bad?
    {
      if toks[i].Bad? {
        return [];
      }
      offset, row, col, aceDeltas := ApplyToken(originalText, offset, row, col, aceDeltas, toks[i]);
      assert CursorAfter(originalText, toks, i + 1) == Step(originalText, CursorAfter(originalText, toks, i), toks[i]);
      assert Emitted(originalText, toks, i + 1)
             == Emitted(originalText, toks, i) + Emit(originalText, CursorAfter(originalText, toks, i), toks[i]);
      i := i + 1;
    }
  }

  // ---------------------------------------------------------------------
  // Properties
  // ---------------------------------------------------------------------

  /**
   * The j-th token, when it is an edit, produces the delta numbered by the
   * edits before it: one delta per edit, in token order, and later tokens
   * leave it in place.
   */
  lemma {:induction false} EmittedAt(text: string, toks: seq<Tok>, n: nat, j: nat)
    requires j < n <= |toks| && IsEdit(toks[j])
    ensures EditCount(toks, j) < |Emitted(text, toks, n)|
    ensures Emitted(text, toks, n)[EditCount(toks, j)] == Emit(text, CursorAfter(text, toks, j), toks[j])[0]
  {
    if j < n - 1 {
      EmittedAt(text, toks, n - 1, j);
    }
  }

  /** The tokens consume more of the original text the further the conversion gets. */
  lemma {:induction false} ConsumedGrows(toks: seq<Tok>, j: nat, n: nat)
    requires j <= n <= |toks|
    ensures Consumed(toks, j) <= Consumed(toks, n)
  {
    if j < n {
      ConsumedGrows(toks, j, n - 1);
    }
  }

  /** The "=" loop moves over the characters it visits exactly as the split-based computation of the "+" branch would. */
  lemma {:induction false} WalkIsAdvance(text: string, offset: nat, n: nat, row: int, col: int)
    requires col >= 1 && offset + n <= |text|
    ensures Walk(text, offset, n, row, col) == Advance(row, col, text[offset..offset + n])
  {
    if n > 0 {
      var s := text[offset..offset + n - 1];
      WalkIsAdvance(text, offset, n - 1, row, col);
      assert text[offset..offset + n] == s + [text[offset + n - 1]];
      var ch := text[offset + n - 1];
      NewlineCountAppend(s, [ch]);
      assert [ch][0] == ch && NewlinesIn([ch], 0) == 0 && LastLineIn([ch], 0) == 0;
      assert NewlineCount([ch]) == if ch == '\n' then 1 else 0;
      assert LastLineLen([ch]) == if ch == '\n' then 0 else 1;
    }
  }

  /** Moving from the end of p over s lands on the end of p + s. */
  lemma AdvanceFromEnd(p: string, s: string)
    ensures Advance(NewlineCount(p) + 1, LastLineLen(p) + 1, s) == (NewlineCount(p + s) + 1, LastLineLen(p + s) + 1)
  {
    NewlineCountAppend(p, s);
  }

  /** The text one token adds to the new document when off characters of the original are consumed. */
  function Piece(text: string, off: nat, t: Tok): string
  {
    match t
    case Eq(n) => Substring(text, off, off + n)
    case Ins(s) => s
    case _ => []
  }

  /** The text the new document holds after the first n tokens: the unchanged slices and the insertions. */
  function Produced(text: string, toks: seq<Tok>, n: nat): string
    requires n <= |toks|
  {
    if n == 0 then [] else Produced(text, toks, n - 1) + Piece(text, Consumed(toks, n - 1), toks[n - 1])
  }

  /** The folds over the first n tokens, taken apart at the n-th. */
  lemma Unfold(text: string, toks: seq<Tok>, n: nat)
    requires 0 < n <= |toks|
    ensures Consumed(toks, n) == Consumed(toks, n - 1) + Width(toks[n - 1])
    ensures CursorAfter(text, toks, n) == Step(text, CursorAfter(text, toks, n - 1), toks[n - 1])
    ensures Produced(text, toks, n) == Produced(text, toks, n - 1) + Piece(text, Consumed(toks, n - 1), toks[n - 1])
  {
  }

  /** One token moves a cursor that sits at the end of p to the end of p and the token's piece. */
  lemma StepMeaning(text: string, p: string, off: nat, t: Tok)
    requires t.Eq? ==> off + t.count <= |text|
    ensures Step(text, Cursor(off, NewlineCount(p) + 1, LastLineLen(p) + 1), t)
            == Cursor(off + Width(t), NewlineCount(p + Piece(text, off, t)) + 1, LastLineLen(p + Piece(text, off, t)) + 1)
  {
    match t
    case Eq(n) =>
      WalkIsAdvance(text, off, n, NewlineCount(p) + 1, LastLineLen(p) + 1);
      AdvanceFromEnd(p, text[off..off + n]);
    case Ins(s) =>
      AdvanceFromEnd(p, s);
    case Del(_) =>
      assert p + [] == p;
    case Bad(_) =>
      assert p + [] == p;
  }

  /** StepMeaning, read as a relation between a cursor before and after a token. */
  lemma {:induction false} StepMeaningAt(text: string, t: Tok, before: Cursor, after: Cursor, p: string, p': string)
    requires t.Eq? ==> before.offset + t.count <= |text|
    requires before == Cursor(before.offset, NewlineCount(p) + 1, LastLineLen(p) + 1)
    requires before.row >= 1 && before.col >= 1 && after == Step(text, before, t)
    requires p' == p + Piece(text, before.offset, t)
    ensures after == Cursor(before.offset + Width(t), NewlineCount(p') + 1, LastLineLen(p') + 1)
  {
    StepMeaning(text, p, before.offset, t);
  }

  /**
   * What the cursor means: when the counts stay within the original text, the
   * offset is the length consumed from it and (row - 1, col - 1) is the editor
   * position of the end of the text produced so far.
   */
  lemma {:induction false} CursorMeaning(text: string, toks: seq<Tok>, n: nat)
    requires n <= |toks| && Consumed(toks, n) <= |text|
    ensures CursorAfter(text, toks, n)
            == Cursor(Consumed(toks, n), NewlineCount(Produced(text, toks, n)) + 1, LastLineLen(Produced(text, toks, n)) + 1)
  {
    if n > 0 {
      Unfold(text, toks, n);
      CursorMeaning(text, toks, n - 1);
      StepMeaningAt(text, toks[n - 1], CursorAfter(text, toks, n - 1), CursorAfter(text, toks, n),
                    Produced(text, toks, n - 1), Produced(text, toks, n));
    }
  }

  /** The delta of a "+" token at a cursor sitting at the end of p. */
  lemma InsertDeltaShape(text: string, p: string, off: nat, t: Tok)
    requires t.Ins?
    ensures Emit(text, Cursor(off, NewlineCount(p) + 1, LastLineLen(p) + 1), t)[0]
            == AceDelta(InsertText, EndPoint(p), EndPoint(p), t.text)
  {
  }

  /** The delta of a "-" token at a cursor sitting at the end of p, off characters into the original. */
  lemma RemoveDeltaShape(text: string, p: string, off: nat, t: Tok)
    requires t.Del? && off + t.count <= |text|
    ensures Emit(text, Cursor(off, NewlineCount(p) + 1, LastLineLen(p) + 1), t)[0]
            == AceDelta(RemoveText, EndPoint(p), EndPoint(p + text[off..off + t.count]), Decimal(t.count))
  {
    var removed := text[off..off + t.count];
    assert Substring(text, off, off + t.count) == removed;
    NewlineCountAppend(p, removed);
  }

  /** The j-th token consumes its width after the tokens before it, within what all of them consume. */
  lemma WidthWithin(toks: seq<Tok>, j: nat)
    requires j < |toks|
    ensures Consumed(toks, j) + Width(toks[j]) <= Consumed(toks, |toks|)
  {
    ConsumedGrows(toks, j + 1, |toks|);
  }

  /**
   * The delta an edit token should produce when the text produced so far is
   * p and off characters of the original are consumed: an insertion is an
   * empty range at the end of p carrying the inserted text; a removal spans
   * the removed characters as they would follow p, and carries their count.
   */
  function EditDelta(text: string, p: string, off: nat, t: Tok): AceDelta
    requires IsEdit(t) && off + Width(t) <= |text|
  {
    match t
    case Ins(s) => AceDelta(InsertText, EndPoint(p), EndPoint(p), s)
    case Del(n) => AceDelta(RemoveText, EndPoint(p), EndPoint(p + text[off..off + n]), Decimal(n))
  }

  /** The delta an edit token emits at a cursor sitting at the end of p is the one EditDelta describes. */
  lemma {:induction false} EditDeltaShape(text: string, t: Tok, c: Cursor, p: string, d: AceDelta)
    requires IsEdit(t) && c.offset + Width(t) <= |text|
    requires c == Cursor(c.offset, NewlineCount(p) + 1, LastLineLen(p) + 1)
    requires d == Emit(text, c, t)[0]
    ensures d == EditDelta(text, p, c.offset, t)
  {
    if t.Ins? {
      InsertDeltaShape(text, p, c.offset, t);
    } else {
      RemoveDeltaShape(text, p, c.offset, t);
    }
  }

  /** The delta of the edit token at j is the one EditDelta describes for the text produced before it. */
  lemma {:induction false} DeltaAt(text: string, toks: seq<Tok>, j: nat)
    requires Consumed(toks, |toks|) <= |text| && j < |toks| && IsEdit(toks[j])
    ensures Consumed(toks, j) + Width(toks[j]) <= |text|
    ensures EditCount(toks, j) < |Emitted(text, toks, |toks|)|
    ensures Emitted(text, toks, |toks|)[EditCount(toks, j)] == EditDelta(text, Produced(text, toks, j), Consumed(toks, j), toks[j])
  {
    WidthWithin(toks, j);
    EmittedAt(text, toks, |toks|, j);
    CursorMeaning(text, toks, j);
    EditDeltaShape(text, toks[j], CursorAfter(text, toks, j), Produced(text, toks, j),
                   Emitted(text, toks, |toks|)[EditCount(toks, j)]);
  }

  /** Every coordinate the conversion returns is at least zero. */
  lemma CoordinatesNonNegative(toks: seq<Tok>, text: string)
    ensures forall d :: d in Deltas(toks, text) ==> NonNegative(d)
  {
  }
}
