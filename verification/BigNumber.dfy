/** Byte-string numbers and the slicing operations that work on them in place. */
module BigNumbers {
  import opened MachineWords
  import opened SnapResult
  import opened Numerals

  /** The value of a number object; a null number has none. */
  datatype Number = Null | Bytes(bytes: seq<bv8>)

  /** What cut_byte leaves of the bytes s. A sum that wraps around and still passes the check leads to an erase behind
      the end, which is undefined. */
  function CutBytes(s: seq<bv8>, from: u64, size: u64): Result<Number> {
    var end := Wrap64(from + size);
    if end > |s| then Err(CutOutOfRange)
    else if size == 0 then Ok(Null)
    else if size > end then Err(PastTheEnd)
    else Ok(Bytes(s[|s| - end..|s| - from]))
  }

  /** What cut_bit leaves of the bytes s: the slice of these bits. A cut of no bits is null if it lies on a byte
      boundary, and an empty number otherwise. A sum that wraps around may pass the check; then the bytes cut before
      the bits are counted from the wrong end, and nothing, no bits, or an undefined erase is left. */
  function CutBits(s: seq<bv8>, from: u64, size: u64): Result<Number> {
    var end := Wrap64(from + size);
    if end > 8 * |s| then Err(CutOutOfRange)
    else if from + size == end then if size == 0 && from % 8 == 0 then Ok(Null) else Ok(Bytes(Slice(s, from, size)))
    else if from / 8 > (end + 7) / 8 then Err(PastTheEnd)
    else if from / 8 == (end + 7) / 8 then Ok(Null)
    else Ok(Bytes([]))
  }

  /** Cutting whole bytes is cutting eight times as many bits, errors and null results included, exactly unless the sum
      of the bits wraps around and passes the check. */
  lemma CutBytesIsCutBits(s: seq<bv8>, from: u64, size: u64)
    requires 8 * from < 0x1_0000_0000_0000_0000 && 8 * size < 0x1_0000_0000_0000_0000
    ensures CutBytes(s, from, size) == CutBits(s, 8 * from, 8 * size) <==>
            (8 * (from + size) < 0x1_0000_0000_0000_0000 || Wrap64(8 * from + 8 * size) > 8 * |s|)
  {
    hide Slice, Wrap64, CutBits, CutBytes;
    WrappedSum(8 * from, 8 * size);
    PlainCut(s, from, size);
    if Wrap64(8 * from + 8 * size) > 8 * |s| {
      CutTooFar(s, 8 * from, 8 * size);
    } else {
      BytesToCut(s, 8 * from, 8 * size);
      if 8 * (from + size) < 0x1_0000_0000_0000_0000 {
        Eighths(from, from + size);
        MiddleIsSlice(s, from, size);
      } else {
        Eighths(from, from + size - 0x2000_0000_0000_0000);
      }
    }
  }

  lemma PlainCut(s: seq<bv8>, from: u64, size: u64)
    requires from + size < 0x1_0000_0000_0000_0000
    ensures CutBytes(s, from, size) ==
            if from + size > |s| then Err(CutOutOfRange)
            else if size == 0 then Ok(Null) else Ok(Bytes(s[|s| - (from + size)..|s| - from]))
  {
    WrappedSum(from, size);
    hide Wrap64;
  }

  lemma Eighths(a: nat, b: nat)
    ensures 8 * a / 8 == a && (8 * b + 7) / 8 == b
  {
  }

  /** A sum of two words that wraps around is smaller than both. */
  lemma WrappedSum(a: u64, b: u64)
    ensures Wrap64(a + b) == if a + b < 0x1_0000_0000_0000_0000 then a + b else a + b - 0x1_0000_0000_0000_0000
  {
  }

  class BigNumber {
    var number: seq<bv8>
    var isNull: bool

    ghost function State(): Number
      reads this
    {
      if isNull then Null else Bytes(number)
    }

    constructor (number: seq<bv8>, isNull: bool)
      ensures this.number == number && this.isNull == isNull
    {
      this.number, this.isNull := number, isNull;
    }

    /** The number as a machine word; numbers of more than eight bytes do not fit. */
    method ToSizeT() returns (r: Result<nat>)
      ensures r == if isNull then Err(NullNumber) else if |number| > 8 then Err(NumberTooBig) else Ok(Val(number))
    {
      hide Pow2, Val;
      if isNull {
        return Err(NullNumber);
      }
      if |number| > 8 {
        return Err(NumberTooBig);
      }
      var output, i: nat := 0, 0;
      ValOfNone();
      while i < |number|
        invariant i <= |number| && output == Val(number[..i]) * Pow2(8 * (|number| - i))
      {
        ShiftIn(number, i);
        output := output + number[i] as nat * Pow2(8 * (|number| - 1 - i));
        i := i + 1;
      }
      assert number[..i] == number;
      PowZero();
      return Ok(output);
    }

    /** Keep the bytes asked for. The last erase is undefined if it begins behind the end. */
    method CutByte(from: u64, size: u64) returns (r: Result<bool>)
      modifies this
      ensures r.Err? ==> number == old(number) && isNull == old(isNull)
      ensures !old(isNull) && from + size < 0x1_0000_0000_0000_0000 ==>
                (r == if from + size > |old(number)| then Err(CutOutOfRange) else Ok(true))
      ensures if old(isNull) then r == Err(NullNumber)
              else CutBytes(old(number), from, size) == if r.Ok? then Ok(State()) else Err(r.error)
    {
      if isNull {
        return Err(NullNumber);
      }
      var end := Wrap64(from + size);
      WrappedSum(from, size);
      if end > |number| {
        return Err(CutOutOfRange);
      }
      if size == 0 {
        isNull := true;
        return Ok(true);
      }
      if size > end {
        return Err(PastTheEnd);
      }
      number := number[|number| - end..];
      number := number[..size];
      assert number == old(number)[|old(number)| - end..|old(number)| - from];
      return Ok(true);
    }

    method CutBit(from: u64, size: u64) returns (r: Result<bool>)
      modifies this
      ensures r.Err? ==> number == old(number) && isNull == old(isNull)
      ensures !old(isNull) && from + size < 0x1_0000_0000_0000_0000 ==>
                (r == if from + size > 8 * |old(number)| then Err(CutOutOfRange) else Ok(true))
      ensures if old(isNull) then r == Err(NullNumber)
              else CutBits(old(number), from, size) == if r.Ok? then Ok(State()) else Err(r.error)
    {
      hide Pow2, Val, Slice, CutBits, CutBytes, Wrap64;
      if isNull {
        return Err(NullNumber);
      }
      var end := Wrap64(from + size);
      WrappedSum(from, size);
      if end > |number| * 8 {
        CutTooFar(number, from, size);
        return Err(CutOutOfRange);
      }
      var byteFrom := (from - from % 8) / 8;
      var byteSize := Wrap64((end - end % 8) / 8 - byteFrom + (if end % 8 > 0 then 1 else 0));
      ByteBounds(from, end);
      BytesToCut(number, from, size);
      CutBetween(number, byteFrom, (end + 7) / 8);
      var cut := CutByte(byteFrom, byteSize);
      if cut.Err? {
        return cut;
      }
      if isNull {
        return Ok(true);
      }
      var bitsAfter := from % 8;
      var bitsBefore := Wrap64(|number| * 8 - size - bitsAfter);
      ghost var left := |number|;
      BitsToCut(from, size, number, bitsBefore, bitsAfter);
      TrimBits(bitsBefore, bitsAfter);
      if from + size == end {
        CutBitsValue(old(number), byteFrom, left, from, size, bitsBefore, bitsAfter, number);
      }
      return Ok(true);
    }

    /** Remove bits at both ends, and drop the first byte if no bit of it is left. */
    method TrimBits(before: nat, after: nat)
      requires before < 8 && after < 8 && number != []
      modifies this`number
      ensures 8 * |old(number)| >= before + after ==>
                var size := 8 * |old(number)| - before - after;
                && |number| == (size + 7) / 8
                && Val(number) == Val(old(number)) % Pow2(size + after) / Pow2(after)
      ensures 8 * |old(number)| < before + after ==> number == []
    {
      hide Pow2, Val;
      ghost var was, size := number, 8 * |number| - before - after;
      MaskTop(before);
      ShiftRightBy(after);
      if size >= 0 {
        assert 8 * |number| - before == size + after;
        if before + after >= 8 {
          MaskShift(Val(was), after, size);
          assert after + size == size + after;
          TopByteIsZero(number, size);
        }
      }
      if before + after >= 8 {
        number := number[1..];
      }
    }

    /** Shift all bytes right, one bit at a time. */
    method ShiftRightBy(bits: nat)
      modifies this`number
      ensures |number| == |old(number)| && Val(number) == Val(old(number)) / Pow2(bits)
    {
      var i := 0;
      while i < bits
        invariant 0 <= i <= bits && |number| == |old(number)|
        invariant Val(number) == Val(old(number)) / Pow2(i)
      {
        ShiftRight();
        HalveAgain(Val(old(number)), i);
        i := i + 1;
      }
    }

    /** Clear the topmost bits of the first byte, one at a time. */
    method MaskTop(bits: nat)
      requires bits < 8 && number != []
      modifies this`number
      ensures |number| == |old(number)|
      ensures Val(number) == Val(old(number)) % Pow2(8 * |number| - bits)
    {
      ghost var top, rest := number[0], number[1..];
      ByteBelow256(top);
      var i := 0;
      while i < bits
        invariant 0 <= i <= bits && |number| == |old(number)|
        invariant number[1..] == rest
        invariant number[0] as nat == top as nat % Pow2(8 - i)
      {
        var block := number[0];
        ClearBit(block, i);
        MaskMask(top as nat, 7 - i, 8 - i);
        block := block & Mask(i);
        number := [block] + number[1..];
        i := i + 1;
      }
      MaskTopValue(old(number), number, bits);
    }

    /** Shift all bytes right by one bit, carrying from byte to byte. */
    method ShiftRight()
      modifies this`number
      ensures |number| == |old(number)| && Val(number) == Val(old(number)) / 2
    {
      hide Val;
      ghost var was := number;
      ValOfNone();
      var previousValue := false;
      var j := 0;
      while j < |number|
        invariant 0 <= j <= |number| == |was| && number[j..] == was[j..]
        invariant Val(number[..j]) == Val(was[..j]) / 2
        invariant previousValue <==> Val(was[..j]) % 2 == 1
      {
        var block := number[j];
        assert block == was[j..][0] == was[j];
        ghost var done := number[..j];
        ShiftStep(was, j, done, previousValue);
        var lastValue := block % 2 == 1;
        block := block >> 1;
        if previousValue {
          block := block | 0x80;
        } else {
          block := block & 0x7F;
        }
        number := number[j := block];
        assert number[..j + 1] == done + [block];
        previousValue := lastValue;
        j := j + 1;
      }
      assert number[..j] == number && was[..j] == was;
    }
  }

  lemma CutTooFar(s: seq<bv8>, from: u64, size: u64)
    requires Wrap64(from + size) > 8 * |s|
    ensures CutBits(s, from, size) == Err(CutOutOfRange)
  {
  }

  /** The number of the first whole byte to be kept, counted from the end, and of the first one before the slice. */
  lemma ByteBounds(from: u64, end: u64)
    ensures (from - from % 8) / 8 == from / 8 && from == 8 * (from / 8) + from % 8
    ensures (end - end % 8) / 8 - from / 8 + (if end % 8 > 0 then 1 else 0) == (end + 7) / 8 - from / 8
  {
  }

  lemma BoundOrder(from: u64, size: u64)
    ensures var end := Wrap64(from + size);
            if from + size == end then
              (end + 7) / 8 >= from / 8 && ((end + 7) / 8 == from / 8 <==> size == 0 && from % 8 == 0)
            else (end + 7) / 8 <= from / 8 + 1
  {
    WrappedSum(from, size);
    hide Wrap64;
  }

  /** Cutting the bytes between two places; if they are in the wrong order the number of bytes has wrapped around. */
  lemma CutBetween(s: seq<bv8>, low: u64, high: u64)
    requires high <= |s|
    ensures CutBytes(s, low, Wrap64(high - low)) ==
            if high == low then Ok(Null)
            else if high < low then Err(PastTheEnd) else Ok(Bytes(s[|s| - high..|s| - low]))
  {
    var size := Wrap64(high - low);
    assert size == if high >= low then high - low else 0x1_0000_0000_0000_0000 + high - low;
    WrappedSum(low, size);
  }

  lemma BytesHold(end: u64, n: nat)
    requires end <= 8 * n
    ensures (end + 7) / 8 <= n && (end + 7) / 8 < 0x1_0000_0000_0000_0000
  {
  }

  /** What the cut of the bytes means for the cut of the bits. */
  lemma BytesToCut(s: seq<bv8>, from: u64, size: u64)
    requires Wrap64(from + size) <= 8 * |s|
    ensures var end := Wrap64(from + size);
            var low, high := from / 8, (end + 7) / 8;
            && high <= |s| && high < 0x1_0000_0000_0000_0000
            && (from + size != end && high > low ==> high == low + 1)
            && CutBits(s, from, size) ==
               if high == low then Ok(Null)
               else if high < low then Err(PastTheEnd)
               else if from + size == end then Ok(Bytes(Slice(s, from, size))) else Ok(Bytes([]))
  {
    BoundOrder(from, size);
    BytesHold(Wrap64(from + size), |s|);
    hide Slice, Wrap64;
  }

  lemma BitsToCut(from: u64, size: u64, left: seq<bv8>, before: u64, after: nat)
    requires after == from % 8 && left != [] && before == Wrap64(|left| * 8 - size - after)
    requires |left| == (Wrap64(from + size) + 7) / 8 - from / 8
    requires from + size != Wrap64(from + size) ==> |left| == 1
    ensures before < 8
    ensures if from + size == Wrap64(from + size) then 8 * |left| == before + (size + after)
            else before + after > 8 * |left|
  {
    WrappedSum(from, size);
    var end := Wrap64(from + size);
    if from + size == end {
      TrimmedBits(from, size, |left|);
      NoWrap(8 * |left| - size - after);
    } else {
      assert 8 - size - after == 8 - end + from - after - 0x1_0000_0000_0000_0000;
      BitsOver(from, end);
      NoWrap(8 - end + from - after);
    }
  }

  lemma NoWrap(x: int)
    requires 0 <= x < 0x1_0000_0000_0000_0000
    ensures Wrap64(x) == x && Wrap64(x - 0x1_0000_0000_0000_0000) == x
  {
  }

  lemma TrimmedBits(from: u64, size: u64, n: nat)
    requires n == (from + size + 7) / 8 - from / 8
    ensures 0 <= 8 * n - size - from % 8 < 8
  {
  }

  lemma BitsOver(from: u64, end: u64)
    requires end < from && (end + 7) / 8 == from / 8 + 1
    ensures 0 <= 8 - end + from - from % 8 < 8 && 8 - end + from > 8
  {
  }

  lemma PowZero()
    ensures Pow2(0) == 1
  {
  }

  lemma ShiftIn(s: seq<bv8>, i: nat)
    requires i < |s|
    ensures Val(s[..i]) * Pow2(8 * (|s| - i)) + s[i] as nat * Pow2(8 * (|s| - 1 - i)) ==
            Val(s[..i + 1]) * Pow2(8 * (|s| - (i + 1)))
  {
    hide Val, Pow2;
    assert s[..i + 1] == s[..i] + [s[i]];
    ValPush(s[..i], s[i]);
    Pow2Add(8, 8 * (|s| - 1 - i));
    Pow2Small();
    var v, b, p := Val(s[..i]), s[i] as nat, Pow2(8 * (|s| - 1 - i));
    assert 8 * (|s| - i) == 8 + 8 * (|s| - 1 - i);
    Distribute(v, b, p);
  }

  lemma Distribute(v: nat, b: nat, p: nat)
    ensures v * (256 * p) + b * p == (v * 256 + b) * p
  {
  }

  lemma ValOfNone()
    ensures Val([]) == 0
  {
  }

  /** A byte shifted right by one bit, with the bit carried in from the left. */
  function ShiftByte(b: bv8, carry: bool): bv8 {
    if carry then (b >> 1) | 0x80 else (b >> 1) & 0x7F
  }

  lemma ShiftStep(was: seq<bv8>, j: nat, done: seq<bv8>, carry: bool)
    requires j < |was| && Val(done) == Val(was[..j]) / 2
    requires carry <==> Val(was[..j]) % 2 == 1
    ensures Val(done + [ShiftByte(was[j], carry)]) == Val(was[..j + 1]) / 2
    ensures was[j] % 2 == 1 <==> Val(was[..j + 1]) % 2 == 1
  {
    hide Val, ShiftByte;
    assert was[..j + 1] == was[..j] + [was[j]];
    ValPush(done, ShiftByte(was[j], carry));
    ValPush(was[..j], was[j]);
    ShiftByteValue(was[j], carry);
    CarryStep(Val(was[..j]), was[j] as nat);
  }

  lemma ShiftByteValue(b: bv8, carry: bool)
    ensures ShiftByte(b, carry) as nat == b as nat / 2 + (if carry then 128 else 0)
    ensures b % 2 == 1 <==> b as nat % 2 == 1
  {
    HalfByte(b);
  }

  // ---------- single bytes ----------

  function Mask(i: nat): bv8
    requires i < 8
  {
    !((1 as bv8) << (7 - i))
  }

  lemma ByteBelow256(b: bv8)
    ensures b as nat < Pow2(8) && b as nat % Pow2(8) == b as nat
  {
    Pow2Small();
  }

  lemma MaskIs(i: nat)
    requires i < 8
    ensures Mask(i) == [0x7F, 0xBF, 0xDF, 0xEF, 0xF7, 0xFB, 0xFD, 0xFE][i]
  {
  }

  lemma MaskEffect(b: bv8)
    ensures (b & 0x7F) as nat == b as nat % 128
    ensures b as nat < 128 ==> (b & 0xBF) as nat == b as nat % 64
    ensures b as nat < 64 ==> (b & 0xDF) as nat == b as nat % 32
    ensures b as nat < 32 ==> (b & 0xEF) as nat == b as nat % 16
    ensures b as nat < 16 ==> (b & 0xF7) as nat == b as nat % 8
    ensures b as nat < 8 ==> (b & 0xFB) as nat == b as nat % 4
    ensures b as nat < 4 ==> (b & 0xFD) as nat == b as nat % 2
    ensures b as nat < 2 ==> (b & 0xFE) as nat == b as nat % 1
  {
  }

  /** Clearing bit 7 - i of a byte whose higher bits are clear already. */
  lemma ClearBit(b: bv8, i: nat)
    requires i < 8 && b as nat < Pow2(8 - i)
    ensures (b & Mask(i)) as nat == b as nat % Pow2(7 - i)
  {
    hide Mask;
    Pow2Small();
    MaskEffect(b);
    MaskIs(i);
  }

  lemma HalfByte(b: bv8)
    ensures ((b >> 1) & 0x7F) as nat == b as nat / 2
    ensures ((b >> 1) | 0x80) as nat == b as nat / 2 + 128
    ensures b % 2 == 1 <==> b as nat % 2 == 1
  {
  }

  /** Halving a two-digit number: the carry becomes the top bit of the low digit. */
  lemma CarryStep(v: nat, b: nat)
    ensures (v * 256 + b) / 2 == v / 2 * 256 + (if v % 2 == 1 then 128 else 0) + b / 2
    ensures (v * 256 + b) % 2 == b % 2
  {
  }

  // ---------- whole numbers ----------

  lemma HalveAgain(w: nat, i: nat)
    ensures w / Pow2(i) / 2 == w / Pow2(i + 1)
  {
    ShiftShift(w, i, 1);
    Pow2Small();
  }

  lemma MaskTopValue(was: seq<bv8>, now: seq<bv8>, bits: nat)
    requires bits < 8 && was != [] && |now| == |was| && now[1..] == was[1..]
    requires now[0] as nat == was[0] as nat % Pow2(8 - bits)
    ensures Val(now) == Val(was) % Pow2(8 * |was| - bits)
  {
    hide Pow2, Val;
    var rest := was[1..];
    FirstDigit(was);
    FirstDigit(now);
    ValBound(rest);
    Pow2Add(8 - bits, 8 * |rest|);
    assert 8 - bits + 8 * |rest| == 8 * |was| - bits;
    MaskDigit(was[0] as nat, Pow2(8 - bits), Pow2(8 * |rest|), Val(rest));
  }

  lemma MaskDigit(a: nat, y: nat, x: nat, r: nat)
    requires r < x && y > 0
    ensures y * x > 0 && (a * x + r) % (y * x) == a % y * x + r
  {
    Regroup(a, x, y, a / y, a % y, r);
    DivUnique(a * x + r, y * x, a / y, a % y * x + r);
  }

  /** Byte cut and trimming together are the slice. */
  lemma CutBitsValue(s: seq<bv8>, byteFrom: nat, byteSize: nat, from: nat, size: nat, before: nat, after: nat,
                     r: seq<bv8>)
    requires byteFrom + byteSize <= |s| && 8 * byteSize == before + (size + after) && from == 8 * byteFrom + after
    requires |r| == (size + 7) / 8
    requires Val(r) == Val(s[|s| - (byteFrom + byteSize)..|s| - byteFrom]) % Pow2(size + after) / Pow2(after)
    ensures r == Slice(s, from, size)
  {
    hide Pow2, Val, Slice;
    MiddleIsSlice(s, byteFrom, byteSize);
    var v := Val(s[|s| - (byteFrom + byteSize)..|s| - byteFrom]);
    SliceSteps(Val(s), v, v % Pow2(size + after), byteFrom, from, size, before, after);
    SliceValue(s, from, size);
    SameValueSameBytes(r, Slice(s, from, size));
  }

  /** Byte cut, mask and shifts together extract exactly the wanted bits. */
  lemma SliceSteps(V: nat, v: nat, w: nat, byteFrom: nat, from: nat, size: nat, before: nat, after: nat)
    requires from == 8 * byteFrom + after
    requires v == Low(High(V, 8 * byteFrom), before + (size + after))
    requires w == Low(v, size + after)
    ensures High(w, after) == Low(High(V, from), size)
  {
    hide High, Low;
    var q := High(V, 8 * byteFrom);
    LowLow(q, size + after, before + (size + after));
    assert after + size == size + after;
    HighLow(q, after, size);
    HighHigh(V, 8 * byteFrom, after);
  }

  lemma TopByteIsZero(s: seq<bv8>, size: nat)
    requires s != [] && size <= 8 * (|s| - 1) && Val(s) < Pow2(size)
    ensures Val(s[1..]) == Val(s)
  {
    hide Pow2, Val;
    var rest, x := s[1..], Pow2(8 * (|s| - 1));
    Pow2Monotone(size, 8 * (|s| - 1));
    FirstDigit(s);
    if s[0] as nat > 0 {
      MulStep(0, s[0] as nat, x);
      ZeroTimes(x);
    } else {
      ZeroTimes(x);
    }
  }

  lemma ZeroTimes(x: nat)
    ensures 0 * x == 0
  {
  }

  lemma FirstDigit(s: seq<bv8>)
    requires s != []
    ensures Val(s) == s[0] as nat * Pow2(8 * (|s| - 1)) + Val(s[1..])
  {
    hide Pow2, Val;
    assert s == [s[0]] + s[1..] && [] + [s[0]] == [s[0]];
    ValConcat([s[0]], s[1..]);
    ValPush([], s[0]);
    ValOfNone();
  }
}
