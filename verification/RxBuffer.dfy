/** Bit fields of the analog radio registers: a column of bytes across the words of a buffer. */
module RxBuffers {
  /** A 32-bit word, least significant bit first. */
  type Word = w: seq<bool> | |w| == 32 witness seq(32, _ => false)

  function Not(a: Word): Word { seq(32, k requires 0 <= k < 32 => !a[k]) }

  function And(a: Word, b: Word): Word { seq(32, k requires 0 <= k < 32 => a[k] && b[k]) }

  function Or(a: Word, b: Word): Word { seq(32, k requires 0 <= k < 32 => a[k] || b[k]) }

  function Xor(a: Word, b: Word): Word { seq(32, k requires 0 <= k < 32 => a[k] != b[k]) }

  /** Shifts drop the bits that leave the word. */
  function ShiftLeft(a: Word, n: nat): Word { seq(32, k requires 0 <= k < 32 => k >= n && a[k - n]) }

  function ShiftRight(a: Word, n: nat): Word { seq(32, k requires 0 <= k < 32 => k + n < 32 && a[k + n]) }

  /** (1 << n) - 1 */
  function Ones(n: nat): Word { seq(32, k requires 0 <= k < 32 => k < n) }

  /** The lowest n bits in opposite order. */
  function Reversal(val: Word, n: nat): Word
    requires n <= 32
  {
    seq(32, k requires 0 <= k < 32 => k < n && val[n - 1 - k])
  }

  /** Bit number p of a byte column, counted across words. */
  function ColumnBit(buf: seq<Word>, column: nat, p: nat): bool
    requires column < 4 && p / 8 < |buf|
  {
    buf[p / 8][8 * column + p % 8]
  }

  /** Put the lowest n bits of val at bit `start` of a column; nothing else changes. */
  function Put(buf: seq<Word>, column: nat, start: nat, n: nat, val: Word): (r: seq<Word>)
    requires column < 4 && n <= 32
    ensures |r| == |buf|
  {
    seq(|buf|, i requires 0 <= i < |buf| => PutWord(buf[i], column, 8 * i, start, n, val))
  }

  /** The word whose byte of the column holds the column bits from `base` on. */
  function PutWord(w: Word, column: nat, base: nat, start: nat, n: nat, val: Word): Word
    requires column < 4 && n <= 32
  {
    seq(32, k requires 0 <= k < 32 =>
      var p := base + k - 8 * column;
      if 8 * column <= k < 8 * column + 8 && start <= p < start + n then val[p - start] else w[k])
  }

  method ReverseBits(val: Word, n: nat) returns (r: Word)
    requires n <= 32
    ensures r == Reversal(val, n)
  {
    r := Ones(0);
    var v, i := val, 0;
    while i < n
      invariant i <= n && v == ShiftRight(val, i)
      invariant r == Reversal(val, i)
    {
      r := Or(ShiftLeft(r, 1), And(v, Ones(1)));
      v := ShiftRight(v, 1);
      i := i + 1;
    }
  }

  /** One word of the loop: under the mask the field's next bits, elsewhere the old word. */
  lemma MaskedWord(w: Word, tmp: Word, column: nat, from: nat, to: nat)
    requires column < 4 && from < 8 && from <= to <= 8
    ensures var mask := ShiftLeft(Xor(Ones(to), Ones(from)), column * 8);
            Or(And(w, Not(mask)), And(ShiftLeft(ShiftLeft(tmp, from), column * 8), mask)) ==
            PutWord(w, column, 0, from, to - from, tmp)
  {
  }

  lemma PutMore(w: Word, column: nat, base: nat, start: nat, done: nat, n: nat, val: Word, from: nat, to: nat)
    requires column < 4 && n <= 32 && done <= n && from < 8 && from < to <= 8
    requires start + done == base + from && (done > 0 ==> from == 0)
    requires to == if from + (n - done) > 8 then 8 else from + (n - done)
    ensures PutWord(PutWord(w, column, base, start, done, val), column, 0, from, to - from, ShiftRight(val, done)) ==
            PutWord(w, column, base, start, done + (to - from), val)
    ensures done + (to - from) <= n
  {
  }

  /** Words that the bits put so far or the next bits do not reach. */
  lemma PutElsewhere(w: Word, column: nat, base: nat, start: nat, done: nat, more: nat, val: Word)
    requires column < 4 && done + more <= 32
    requires start + done >= base + 8 || start + done + more <= base || more == 0
    ensures PutWord(w, column, base, start, done + more, val) == PutWord(w, column, base, start, done, val)
  {
  }

  method ModifyRxBuffer(rfBuf: array<Word>, reg32: Word, numBits: nat, firstBit: nat, column: nat)
    requires numBits <= 32 && firstBit >= 1 && column < 4 && firstBit - 1 + numBits <= 8 * rfBuf.Length
    modifies rfBuf
    ensures rfBuf[..] == Put(old(rfBuf[..]), column, firstBit - 1, numBits, Reversal(reg32, numBits))
  {
    hide PutWord, ShiftLeft, ShiftRight, Reversal;
    var tmp32 := ReverseBits(reg32, numBits);
    ghost var rev := tmp32;
    ghost var start, was, done := firstBit - 1, rfBuf[..], 0;
    var arrayEntry: nat, bitPosition: nat := (firstBit - 1) / 8, (firstBit - 1) % 8;
    var bitsLeft: int := numBits;
    PutNothing(was, column, start, rev);
    ShiftNothing(rev);
    while bitsLeft > 0
      invariant 0 <= done <= numBits && bitPosition < 8 && (done > 0 ==> bitPosition == 0)
      invariant bitsLeft == numBits - done || (bitsLeft <= 0 && done == numBits)
      invariant bitsLeft > 0 ==> start + done == 8 * arrayEntry + bitPosition && tmp32 == ShiftRight(rev, done)
      invariant rfBuf[..] == Put(was, column, start, done, rev)
      decreases bitsLeft
    {
      var lastBit: nat := if bitPosition + bitsLeft > 8 then 8 else bitPosition + bitsLeft;
      var mask := ShiftLeft(Xor(Ones(lastBit), Ones(bitPosition)), column * 8);
      ghost var before := rfBuf[..];
      MaskedWord(rfBuf[arrayEntry], tmp32, column, bitPosition, lastBit);
      rfBuf[arrayEntry] := And(rfBuf[arrayEntry], Not(mask));
      rfBuf[arrayEntry] := Or(rfBuf[arrayEntry], And(ShiftLeft(ShiftLeft(tmp32, bitPosition), column * 8), mask));
      PutStep(was, before, rfBuf[..], column, start, done, numBits, rev, arrayEntry, bitPosition, lastBit);
      done := done + (lastBit - bitPosition);
      bitsLeft := bitsLeft - (8 - bitPosition);
      ShiftMore(rev, done - (lastBit - bitPosition), 8 - bitPosition);
      tmp32 := ShiftRight(tmp32, 8 - bitPosition);
      bitPosition := 0;
      arrayEntry := arrayEntry + 1;
    }
  }

  lemma ShiftNothing(w: Word)
    ensures ShiftRight(w, 0) == w
  {
  }

  lemma ShiftMore(w: Word, a: nat, b: nat)
    ensures ShiftRight(ShiftRight(w, a), b) == ShiftRight(w, a + b)
  {
  }

  lemma PutNothing(buf: seq<Word>, column: nat, start: nat, val: Word)
    requires column < 4
    ensures Put(buf, column, start, 0, val) == buf
  {
    forall i | 0 <= i < |buf| ensures PutWord(buf[i], column, 8 * i, start, 0, val) == buf[i] {
    }
  }

  lemma PutStep(was: seq<Word>, before: seq<Word>, after: seq<Word>, column: nat, start: nat, done: nat, n: nat,
                val: Word, entry: nat, from: nat, to: nat)
    requires column < 4 && n <= 32 && done < n && from < to <= 8 && start + done == 8 * entry + from
    requires done > 0 ==> from == 0
    requires to == if from + (n - done) > 8 then 8 else from + (n - done)
    requires before == Put(was, column, start, done, val) && entry < |was|
    requires after == before[entry := PutWord(before[entry], column, 0, from, to - from, ShiftRight(val, done))]
    ensures after == Put(was, column, start, done + (to - from), val)
  {
    hide PutWord, ShiftRight;
    PutMore(was[entry], column, 8 * entry, start, done, n, val, from, to);
    forall i | 0 <= i < |was| && i != entry
      ensures after[i] == PutWord(was[i], column, 8 * i, start, done + (to - from), val)
    {
      PutElsewhere(was[i], column, 8 * i, start, done, to - from, val);
    }
  }

  // ---------- what a write means ----------

  /** After a write, the field holds the value's bits in opposite order, and no other bit has changed. */
  lemma WriteSetsField(buf: seq<Word>, reg32: Word, numBits: nat, firstBit: nat, column: nat)
    requires numBits <= 32 && firstBit >= 1 && column < 4 && firstBit - 1 + numBits <= 8 * |buf|
    ensures var after := Put(buf, column, firstBit - 1, numBits, Reversal(reg32, numBits));
            && (forall p :: firstBit - 1 <= p < firstBit - 1 + numBits ==>
                  ColumnBit(after, column, p) == reg32[numBits - 1 - (p - (firstBit - 1))])
            && (forall c, p ::
                  0 <= c < 4 && 0 <= p < 8 * |buf| && !(c == column && firstBit - 1 <= p < firstBit - 1 + numBits) ==>
                    ColumnBit(after, c, p) == ColumnBit(buf, c, p))
  {
  }

  /** Writes to fields that do not overlap can be done in either order. */
  lemma WritesCommute(buf: seq<Word>, a: Word, na: nat, sa: nat, ca: nat, b: Word, nb: nat, sb: nat, cb: nat)
    requires na <= 32 && nb <= 32 && ca < 4 && cb < 4
    requires ca != cb || sa + na <= sb || sb + nb <= sa
    ensures Put(Put(buf, ca, sa, na, a), cb, sb, nb, b) == Put(Put(buf, cb, sb, nb, b), ca, sa, na, a)
  {
    forall i | 0 <= i < |buf|
      ensures PutWord(PutWord(buf[i], ca, 8 * i, sa, na, a), cb, 8 * i, sb, nb, b) ==
              PutWord(PutWord(buf[i], cb, 8 * i, sb, nb, b), ca, 8 * i, sa, na, a)
    {
    }
  }

  /** Writing a field again leaves only the last value. */
  lemma LastWriteWins(buf: seq<Word>, column: nat, start: nat, n: nat, a: Word, b: Word)
    requires column < 4 && n <= 32
    ensures Put(Put(buf, column, start, n, a), column, start, n, b) == Put(buf, column, start, n, b)
  {
    forall i | 0 <= i < |buf|
      ensures PutWord(PutWord(buf[i], column, 8 * i, start, n, a), column, 8 * i, start, n, b) ==
              PutWord(buf[i], column, 8 * i, start, n, b)
    {
    }
  }
}
