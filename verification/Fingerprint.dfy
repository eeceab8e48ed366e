/** Evaluation of fingerprint programs over a decoded frame. */
module Fingerprints {
  import opened MachineWords
  import opened SnapResult
  import opened Numerals
  import opened BigNumbers
  import opened HexStrings

  datatype FunctionName = Sha256 | CutBit | CutByte

  /** A program tree. */
  datatype Node = Value(text: string) | Getter(field: string) | Function(name: FunctionName, args: seq<Node>)

  /** Field lookup in a decoded frame, and the hash function. */
  type Frame = string -> Result<Number>
  type Hash = string -> string

  /** What the loop over the arguments of a cut has collected. */
  datatype CutArgs = CutArgs(value: Number, first: u64, length: u64)

  /** Take in argument number i. */
  function TakeArg(st: CutArgs, i: nat, v: string): Result<CutArgs> {
    if i == 0 then
      var n :- FromHex(v);
      Ok(st.(value := n))
    else if i == 1 then
      var k :- Stoul(v);
      Ok(st.(first := k))
    else if i == 2 then
      var k :- Stoul(v);
      Ok(st.(length := k))
    else Err(TooManyArgs)
  }

  /** Evaluate and take in the first k arguments of a cut, in order. */
  function Gather(args: seq<Node>, k: nat, frame: Frame, sha: Hash): Result<CutArgs>
    requires k <= |args|
    decreases args, k
  {
    if k == 0 then Ok(CutArgs(Null, 0, 0))
    else
      var st :- Gather(args, k - 1, frame, sha);
      var v :- Eval(args[k - 1], frame, sha);
      TakeArg(st, k - 1, v)
  }

  /** The texts of the first k arguments, joined. */
  function Join(args: seq<Node>, k: nat, frame: Frame, sha: Hash): Result<string>
    requires k <= |args|
    decreases args, k
  {
    if k == 0 then Ok("")
    else
      var front :- Join(args, k - 1, frame, sha);
      var v :- Eval(args[k - 1], frame, sha);
      Ok(front + v)
  }

  function Show(n: Number): Result<string> {
    if n.Null? then Err(NullNumber) else Ok(HexString(n.bytes))
  }

  /** The end of a cut, once all arguments are in. */
  function Cut(name: FunctionName, st: CutArgs): Result<string> {
    if st.value.Null? then Ok("")
    else
      var cut :- if name == CutByte then CutBytes(st.value.bytes, st.first, st.length)
                 else CutBits(st.value.bytes, st.first, st.length);
      Show(cut)
  }

  /** get_value of the nodes. */
  function Eval(node: Node, frame: Frame, sha: Hash): Result<string>
    decreases node
  {
    match node
    case Value(text) => Ok(text)
    case Getter(field) =>
      var n :- frame(field);
      if n.Null? then Ok("") else Ok(HexString(n.bytes))
    case Function(Sha256, args) =>
      var data :- Join(args, |args|, frame, sha);
      Ok(sha(data))
    case Function(name, args) =>
      var st :- Gather(args, |args|, frame, sha);
      if |args| < 3 then Err(TooFewArgs) else Cut(name, st)
  }

  // ---------- fusion of nested cuts ----------

  /** A cut with a node and two number nodes as arguments. */
  function CutNode(name: FunctionName, x: Node, first: Node, length: Node): Node {
    Function(name, [x, first, length])
  }

  ghost predicate EvalsTo(node: Node, frame: Frame, sha: Hash, n: nat) {
    var v := Eval(node, frame, sha); v.Ok? && Stoul(v.value) == Ok(n)
  }

  /** Evaluation of a well-formed cut. */
  lemma EvalCut(name: FunctionName, x: Node, first: Node, length: Node, frame: Frame, sha: Hash, from: u64, size: u64)
    requires name != Sha256 && EvalsTo(first, frame, sha, from) && EvalsTo(length, frame, sha, size)
    ensures Eval(CutNode(name, x, first, length), frame, sha) ==
            var v :- Eval(x, frame, sha);
            var n :- FromHex(v);
            Cut(name, CutArgs(n, from, size))
  {
    hide Stoul, FromHex, Cut;
    var args := [x, first, length];
    assert args[0] == x && args[1] == first && args[2] == length;
    assert Gather(args, 0, frame, sha) == Ok(CutArgs(Null, 0, 0));
    var v := Eval(x, frame, sha);
    if v.Ok? && FromHex(v.value).Ok? {
      assert Gather(args, 1, frame, sha) == Ok(CutArgs(FromHex(v.value).value, 0, 0));
      assert Gather(args, 2, frame, sha) == Ok(CutArgs(FromHex(v.value).value, from, 0));
      assert Gather(args, 3, frame, sha) == Ok(CutArgs(FromHex(v.value).value, from, size));
    } else {
      assert Gather(args, 1, frame, sha).Err?;
      assert Gather(args, 2, frame, sha).Err?;
      assert Gather(args, 3, frame, sha).Err?;
    }
  }

  /** How the bits asked for lie in a number of n bytes: inside, or behind its end, or their sum wraps around past the
      check, which leads to an undefined erase, to the null number or to no bits. */
  datatype Reach = Fits | TooFar | Undefined | Nothing | NoBits

  function ReachOf(n: nat, from: u64, size: u64): Reach {
    var end := Wrap64(from + size);
    if end > 8 * n then TooFar
    else if end == from + size then Fits
    else if from / 8 > (end + 7) / 8 then Undefined
    else if from / 8 == (end + 7) / 8 then Nothing
    else NoBits
  }

  /** The outcome of a cut of bits. */
  lemma CutByReach(bytes: seq<bv8>, from: u64, size: u64)
    ensures Cut(CutBit, CutArgs(Bytes(bytes), from, size)) ==
            match ReachOf(|bytes|, from, size)
            case Fits => if size == 0 && from % 8 == 0 then Err(NullNumber) else Ok(HexString(Slice(bytes, from, size)))
            case TooFar => Err(CutOutOfRange)
            case Undefined => Err(PastTheEnd)
            case Nothing => Err(NullNumber)
            case NoBits => Ok("")
  {
    hide Slice, Wrap64;
    assert HexString([]) == "";
  }

  /** The outcome of a cut of bytes. */
  lemma ByteCutByReach(bytes: seq<bv8>, from: u64, size: u64)
    ensures Cut(CutByte, CutArgs(Bytes(bytes), from, size)) ==
            if (from + size) % 0x1_0000_0000_0000_0000 > |bytes| then Err(CutOutOfRange)
            else if size == 0 then Err(NullNumber)
            else if from + size >= 0x1_0000_0000_0000_0000 then Err(PastTheEnd)
            else Ok(HexString(bytes[|bytes| - (from + size)..|bytes| - from]))
  {
    WrappedSum(from, size);
    hide HexString;
  }

  /** The inner cut is inside of the number, or goes wrong in the same way as the single one. */
  ghost predicate Fusible(x: Node, frame: Frame, sha: Hash, from1: u64, size1: u64, from2: u64, size2: u64) {
    var v := Eval(x, frame, sha);
    v.Ok? && FromHex(v.value).Ok? && FromHex(v.value).value.Bytes? ==>
      var n := |FromHex(v.value).value.bytes|;
      ReachOf(n, from1, size1).Fits? || ReachOf(n, from1, size1) == ReachOf(n, from2, size2)
  }

  /** Two nested cuts of bits are one, same text or same error, exactly if the inner one is inside of the number or both
      go wrong in the same way. They differ, for one, where the inner cut runs over the end of the number although the
      bits finally wanted do not. */
  lemma CutsFuse(x: Node, a: Node, s1: Node, b: Node, s2: Node, ab: Node, frame: Frame, sha: Hash,
                 from1: u64, size1: u64, from2: u64, size2: u64)
    requires EvalsTo(a, frame, sha, from1) && EvalsTo(s1, frame, sha, size1)
    requires EvalsTo(b, frame, sha, from2) && EvalsTo(s2, frame, sha, size2)
    requires EvalsTo(ab, frame, sha, from1 + from2)
    requires from1 + from2 < 0x1_0000_0000_0000_0000 && from2 + size2 <= size1 && size2 > 0
    ensures Eval(CutNode(CutBit, CutNode(CutBit, x, a, s1), b, s2), frame, sha) ==
            Eval(CutNode(CutBit, x, ab, s2), frame, sha) <==>
            Fusible(x, frame, sha, from1, size1, from1 + from2, size2)
  {
    hide Eval, EvalsTo, CutNode, FromHex, Cut, Stoul, ReachOf;
    EvalCut(CutBit, CutNode(CutBit, x, a, s1), b, s2, frame, sha, from2, size2);
    EvalCut(CutBit, x, a, s1, frame, sha, from1, size1);
    EvalCut(CutBit, x, ab, s2, frame, sha, from1 + from2, size2);
    NullStaysNull(from1, size1);
    NullStaysNull(from2, size2);
    NullStaysNull(from1 + from2, size2);
    var v := Eval(x, frame, sha);
    if v.Ok? && FromHex(v.value).Ok? && FromHex(v.value).value.Bytes? {
      var bytes := FromHex(v.value).value.bytes;
      CutOfCut(bytes, from1, size1, from2, size2);
    }
  }

  lemma NullStaysNull(from: u64, size: u64)
    ensures FromHex("") == Ok(Null) && Cut(CutBit, CutArgs(Null, from, size)) == Ok("")
  {
  }

  /** Cutting the text that a cut prints. */
  function CutAgain(text: Result<string>, from: u64, size: u64): Result<string> {
    var v :- text;
    var n :- FromHex(v);
    Cut(CutBit, CutArgs(n, from, size))
  }

  /** A cut of a cut in all cases: the single cut if the inner one is inside of the number, else what goes wrong in the
      inner one. */
  lemma CutOfCut(bytes: seq<bv8>, from1: u64, size1: u64, from2: u64, size2: u64)
    requires from1 + from2 < 0x1_0000_0000_0000_0000 && from2 + size2 <= size1 && size2 > 0
    ensures var inner, reach := Cut(CutBit, CutArgs(Bytes(bytes), from1, size1)), ReachOf(|bytes|, from1, size1);
            var fused := Cut(CutBit, CutArgs(Bytes(bytes), from1 + from2, size2));
            && CutAgain(inner, from2, size2) == (if reach.Fits? then fused else inner)
            && (CutAgain(inner, from2, size2) == fused <==>
                  reach.Fits? || reach == ReachOf(|bytes|, from1 + from2, size2))
  {
    hide Slice, HexString, ParseHex, FromHex, Cut;
    CutByReach(bytes, from1, size1);
    CutByReach(bytes, from1 + from2, size2);
    NullStaysNull(from2, size2);
    if ReachOf(|bytes|, from1, size1).Fits? {
      InsideOfInside(|bytes|, from1, size1, from2, size2);
      HexRoundTrip(Slice(bytes, from1, size1));
      SliceOfSlice(bytes, from1, size1, from2, size2);
      CutByReach(Slice(bytes, from1, size1), from2, size2);
    } else {
      hide ReachOf;
      SomeBits(bytes, from1 + from2, size2);
    }
  }

  lemma InsideOfInside(n: nat, from1: u64, size1: u64, from2: u64, size2: u64)
    requires ReachOf(n, from1, size1).Fits? && from2 + size2 <= size1
    ensures from1 + from2 < 0x1_0000_0000_0000_0000 && ReachOf(n, from1 + from2, size2).Fits?
    ensures ReachOf((size1 + 7) / 8, from2, size2).Fits?
  {
    WrappedSum(from1, size1);
    WrappedSum(from2, size2);
    WrappedSum(from1 + from2, size2);
    hide Wrap64;
  }

  lemma SomeBits(bytes: seq<bv8>, from: u64, size: u64)
    requires size > 0
    ensures HexString(Slice(bytes, from, size)) != ""
  {
    var s := Slice(bytes, from, size);
    assert |s| > 0;
    hide Slice;
  }

  // ---------- cuts of bytes ----------

  /** Printing the outcome of a cut loses nothing. */
  lemma ShowInjective(a: Result<Number>, b: Result<Number>)
    requires a != Err(NullNumber) && b != Err(NullNumber)
    ensures (var n :- a; Show(n)) == (var n :- b; Show(n)) <==> a == b
  {
    hide HexString;
    if a.Ok? && a.value.Bytes? && b.Ok? && b.value.Bytes? && HexString(a.value.bytes) == HexString(b.value.bytes) {
      HexStringInjective(a.value.bytes, b.value.bytes);
    }
  }

  lemma CutErrors(bytes: seq<bv8>, from: u64, size: u64)
    ensures CutBytes(bytes, from, size) != Err(NullNumber) && CutBits(bytes, from, size) != Err(NullNumber)
  {
    hide Slice, Wrap64;
  }

  /** A Cut_byte node is the Cut_bit node of eight times its numbers, same text or same error, exactly unless it cuts a
      number for which the sum of the bits wraps around and passes the check. */
  lemma ByteCutIsBitCut(x: Node, first: Node, length: Node, first8: Node, length8: Node, frame: Frame, sha: Hash,
                        from: u64, size: u64)
    requires 8 * from < 0x1_0000_0000_0000_0000 && 8 * size < 0x1_0000_0000_0000_0000
    requires EvalsTo(first, frame, sha, from) && EvalsTo(length, frame, sha, size)
    requires EvalsTo(first8, frame, sha, 8 * from) && EvalsTo(length8, frame, sha, 8 * size)
    ensures Eval(Function(CutByte, [x, first, length]), frame, sha) ==
            Eval(Function(CutBit, [x, first8, length8]), frame, sha) <==>
            (8 * (from + size) >= 0x1_0000_0000_0000_0000 ==>
               var v := Eval(x, frame, sha);
               v.Ok? && FromHex(v.value).Ok? && FromHex(v.value).value.Bytes? ==>
                 Wrap64(8 * from + 8 * size) > 8 * |FromHex(v.value).value.bytes|)
  {
    EvalCut(CutByte, x, first, length, frame, sha, from, size);
    EvalCut(CutBit, x, first8, length8, frame, sha, 8 * from, 8 * size);
    hide Eval, EvalsTo, FromHex, Stoul, CutBytes, CutBits, Show, Wrap64;
    var v := Eval(x, frame, sha);
    if v.Ok? && FromHex(v.value).Ok? && FromHex(v.value).value.Bytes? {
      var bytes := FromHex(v.value).value.bytes;
      CutBytesIsCutBits(bytes, from, size);
      CutErrors(bytes, from, size);
      CutErrors(bytes, 8 * from, 8 * size);
      ShowInjective(CutBytes(bytes, from, size), CutBits(bytes, 8 * from, 8 * size));
    }
  }

  // ---------- arguments ----------

  /** The argument evaluates to what a cut expects at this place: a number in hexadecimal, or one in decimal. */
  ghost predicate GoodArg(args: seq<Node>, i: nat, frame: Frame, sha: Hash)
    requires i < |args|
  {
    var v := Eval(args[i], frame, sha);
    v.Ok? && if i == 0 then FromHex(v.value).Ok? else Stoul(v.value).Ok?
  }

  /** A cut takes exactly three arguments. */
  lemma CutArity(name: FunctionName, args: seq<Node>, frame: Frame, sha: Hash)
    requires name != Sha256 && forall i :: 0 <= i < |args| && i < 3 ==> GoodArg(args, i, frame, sha)
    ensures |args| < 3 ==> Eval(Function(name, args), frame, sha) == Err(TooFewArgs)
    ensures |args| > 3 && Eval(args[3], frame, sha).Ok? ==> Eval(Function(name, args), frame, sha) == Err(TooManyArgs)
  {
    hide FromHex, Stoul, Cut;
    var n := if |args| < 3 then |args| else 3;
    FirstArgsGood(args, n, frame, sha);
    if |args| > 3 && Eval(args[3], frame, sha).Ok? {
      assert Gather(args, 4, frame, sha) == Err(TooManyArgs);
      ErrorStays(args, 4, frame, sha);
    }
  }

  lemma {:induction false} FirstArgsGood(args: seq<Node>, n: nat, frame: Frame, sha: Hash)
    requires n <= |args| && n <= 3 && forall i :: 0 <= i < n ==> GoodArg(args, i, frame, sha)
    ensures Gather(args, n, frame, sha).Ok?
    decreases n
  {
    hide FromHex, Stoul;
    if n > 0 {
      FirstArgsGood(args, n - 1, frame, sha);
      assert GoodArg(args, n - 1, frame, sha);
    }
  }

  /** An error among the first arguments is the result of them all. */
  lemma {:induction false} ErrorStays(args: seq<Node>, k: nat, frame: Frame, sha: Hash)
    requires k <= |args| && Gather(args, k, frame, sha).Err?
    ensures Gather(args, |args|, frame, sha) == Gather(args, k, frame, sha)
    decreases |args| - k
  {
    hide TakeArg;
    if k < |args| {
      ErrorStays(args, k + 1, frame, sha);
    }
  }

  function Concat(parts: seq<string>): string {
    if parts == [] then "" else parts[0] + Concat(parts[1..])
  }

  lemma {:induction false} ConcatPush(parts: seq<string>, last: string)
    ensures Concat(parts + [last]) == Concat(parts) + last
  {
    if parts == [] {
      assert parts + [last] == [last] && [last][1..] == [];
    } else {
      assert (parts + [last])[1..] == parts[1..] + [last];
      ConcatPush(parts[1..], last);
    }
  }

  /** The hash is that of the texts of all arguments, first one first. */
  lemma HashOfParts(args: seq<Node>, parts: seq<string>, frame: Frame, sha: Hash)
    requires |parts| == |args| && forall i :: 0 <= i < |args| ==> Eval(args[i], frame, sha) == Ok(parts[i])
    ensures Eval(Function(Sha256, args), frame, sha) == Ok(sha(Concat(parts)))
  {
    JoinParts(args, parts, |args|, frame, sha);
    assert parts[..|args|] == parts;
  }

  lemma {:induction false} JoinParts(args: seq<Node>, parts: seq<string>, k: nat, frame: Frame, sha: Hash)
    requires |parts| == |args| && forall i :: 0 <= i < |args| ==> Eval(args[i], frame, sha) == Ok(parts[i])
    requires k <= |args|
    ensures Join(args, k, frame, sha) == Ok(Concat(parts[..k]))
    decreases k
  {
    if k > 0 {
      JoinParts(args, parts, k - 1, frame, sha);
      ConcatPush(parts[..k - 1], parts[k - 1]);
      assert parts[..k - 1] + [parts[k - 1]] == parts[..k];
    }
  }
}
