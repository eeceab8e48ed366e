/** The evaluation loops of the program tree, proved against the functions in Fingerprints. */
module Evaluators {
  import opened MachineWords
  import opened SnapResult
  import opened BigNumbers
  import opened HexStrings
  import opened Fingerprints

  /** hex_string */
  method HexStringOf(n: BigNumber) returns (r: Result<string>)
    ensures r == Show(n.State())
  {
    if n.isNull {
      return Err(NullNumber);
    }
    var output := "";
    var i := 0;
    while i < |n.number|
      invariant 0 <= i <= |n.number| && output == HexString(n.number[..i])
    {
      assert n.number[..i + 1][..i] == n.number[..i];
      output := output + HexByte(n.number[i]);
      i := i + 1;
    }
    assert n.number[..i] == n.number;
    return Ok(output);
  }

  /** from_hex_string */
  method FromHexString(s: string) returns (r: Result<BigNumber>)
    ensures r.Ok? ==> fresh(r.value) && Ok(r.value.State()) == FromHex(s)
    ensures r.Err? ==> FromHex(s) == Err(r.error)
  {
    if |s| == 0 {
      var n := new BigNumber([], true);
      return Ok(n);
    }
    var number: seq<bv8> := [];
    var i := 0;
    PrependNothing(s);
    while i < |s|
      invariant 0 <= i <= |s| + 1
      invariant ParseHex(s) == Prepend(number, ParseHex(if i < |s| then s[i..] else ""))
      decreases |s| + 1 - i
    {
      hide ParsePair;
      ParseStep(s, i, number);
      var byte := ParsePair(s[i], if i + 1 < |s| then s[i + 1] else '\0');
      if byte.Err? {
        return Err(byte.error);
      }
      number := number + [byte.value];
      i := i + 2;
    }
    assert number + [] == number;
    var n := new BigNumber(number, false);
    return Ok(n);
  }

  lemma PrependNothing(s: string)
    ensures s[0..] == s && Prepend([], ParseHex(s)) == ParseHex(s)
  {
    if ParseHex(s).Ok? {
      assert [] + ParseHex(s).value == ParseHex(s).value;
    }
  }

  lemma ParseStep(s: string, i: nat, number: seq<bv8>)
    requires i < |s|
    ensures var byte, next := ParsePair(s[i], if i + 1 < |s| then s[i + 1] else '\0'), i + 2;
            Prepend(number, ParseHex(s[i..])) ==
            if byte.Err? then Err(byte.error)
            else Prepend(number + [byte.value], ParseHex(if next < |s| then s[next..] else ""))
  {
    hide ParsePair;
    var t := s[i..];
    var rest := if |t| > 1 then t[2..] else "";
    assert rest == if i + 2 < |s| then s[i + 2..] else "";
    var byte := ParsePair(t[0], if |t| > 1 then t[1] else '\0');
    if byte.Ok? && ParseHex(rest).Ok? {
      assert number + ([byte.value] + ParseHex(rest).value) == number + [byte.value] + ParseHex(rest).value;
    }
  }

  /** get_value of a node: arguments are evaluated in order, and errors end the evaluation at once. */
  method GetValue(node: Node, frame: Frame, sha: Hash) returns (r: Result<string>)
    ensures r == Eval(node, frame, sha)
    decreases node, 1
  {
    match node
    case Value(text) => return Ok(text);
    case Getter(field) =>
      var n := frame(field);
      if n.Err? {
        return Err(n.error);
      }
      if n.value.Null? {
        return Ok("");
      }
      return Ok(HexString(n.value.bytes));
    case Function(name, args) =>
      if name == Sha256 {
        r := HashOfArgs(args, frame, sha);
      } else {
        r := CutOfArgs(name, args, frame, sha);
      }
  }

  /** Sha256::get_value */
  method HashOfArgs(args: seq<Node>, frame: Frame, sha: Hash) returns (r: Result<string>)
    ensures r == Eval(Function(Sha256, args), frame, sha)
    decreases args, 0
  {
    hide Eval, Join;
    EvalOfHash(args, frame, sha);
    var data := "";
    var i := 0;
    while i < |args|
      invariant 0 <= i <= |args| && Join(args, i, frame, sha) == Ok(data)
    {
      var v := GetValue(args[i], frame, sha);
      JoinNext(args, i, frame, sha);
      if v.Err? {
        JoinFails(args, i + 1, frame, sha);
        return v;
      }
      data := data + v.value;
      i := i + 1;
    }
    return Ok(sha(data));
  }

  /** Cut_bit::get_value and Cut_byte::get_value */
  method CutOfArgs(name: FunctionName, args: seq<Node>, frame: Frame, sha: Hash) returns (r: Result<string>)
    requires name != Sha256
    ensures r == Eval(Function(name, args), frame, sha)
    decreases args, 0
  {
    hide FromHex, Stoul, CutBytes, CutBits, HexString, TakeArg, Gather, Eval;
    EvalOfCut(name, args, frame, sha);
    var value := new BigNumber([], true);
    var first: u64, length: u64 := 0, 0;
    var i := 0;
    while i < |args|
      invariant 0 <= i <= |args| && fresh(value)
      invariant Gather(args, i, frame, sha) == Ok(CutArgs(value.State(), first, length))
    {
      var v := GetValue(args[i], frame, sha);
      GatherNext(args, i, frame, sha);
      if v.Err? {
        ErrorStays(args, i + 1, frame, sha);
        return v;
      }
      TakeArgCases(CutArgs(value.State(), first, length), v.value);
      if i == 0 {
        var n := FromHexString(v.value);
        if n.Err? {
          ErrorStays(args, i + 1, frame, sha);
          return Err(n.error);
        }
        value := n.value;
      } else if i == 1 || i == 2 {
        var k := Stoul(v.value);
        if k.Err? {
          ErrorStays(args, i + 1, frame, sha);
          return Err(k.error);
        }
        if i == 1 {
          first := k.value;
        } else {
          length := k.value;
        }
      } else {
        TakeArgTooMany(CutArgs(value.State(), first, length), i, v.value);
        ErrorStays(args, i + 1, frame, sha);
        return Err(TooManyArgs);
      }
      i := i + 1;
    }
    if i < 3 {
      return Err(TooFewArgs);
    }
    if value.isNull {
      return Ok("");
    }
    var done;
    if name == CutByte {
      done := value.CutByte(first, length);
    } else {
      done := value.CutBit(first, length);
    }
    if done.Err? {
      return Err(done.error);
    }
    r := HexStringOf(value);
  }

  lemma EvalOfHash(args: seq<Node>, frame: Frame, sha: Hash)
    ensures Join(args, 0, frame, sha) == Ok("")
    ensures Eval(Function(Sha256, args), frame, sha) == var data :- Join(args, |args|, frame, sha); Ok(sha(data))
  {
  }

  lemma JoinNext(args: seq<Node>, i: nat, frame: Frame, sha: Hash)
    requires i < |args| && Join(args, i, frame, sha).Ok?
    ensures Join(args, i + 1, frame, sha) ==
            var v :- Eval(args[i], frame, sha);
            Ok(Join(args, i, frame, sha).value + v)
  {
    hide Eval;
  }

  lemma EvalOfCut(name: FunctionName, args: seq<Node>, frame: Frame, sha: Hash)
    requires name != Sha256
    ensures Gather(args, 0, frame, sha) == Ok(CutArgs(Null, 0, 0))
    ensures Eval(Function(name, args), frame, sha) ==
            var st :- Gather(args, |args|, frame, sha);
            if |args| < 3 then Err(TooFewArgs) else Cut(name, st)
  {
    hide Cut;
  }

  lemma GatherNext(args: seq<Node>, i: nat, frame: Frame, sha: Hash)
    requires i < |args| && Gather(args, i, frame, sha).Ok?
    ensures Gather(args, i + 1, frame, sha) ==
            var v :- Eval(args[i], frame, sha);
            TakeArg(Gather(args, i, frame, sha).value, i, v)
  {
    hide Eval, TakeArg;
  }

  lemma TakeArgCases(st: CutArgs, v: string)
    ensures var n := FromHex(v);
            TakeArg(st, 0, v) == if n.Err? then Err(n.error) else Ok(st.(value := n.value))
    ensures var k := Stoul(v);
            && TakeArg(st, 1, v) == (if k.Err? then Err(k.error) else Ok(st.(first := k.value)))
            && TakeArg(st, 2, v) == (if k.Err? then Err(k.error) else Ok(st.(length := k.value)))
  {
  }

  lemma TakeArgTooMany(st: CutArgs, i: nat, v: string)
    requires i >= 3
    ensures TakeArg(st, i, v) == Err(TooManyArgs)
  {
  }

  /** An error among the first arguments is the result of them all. */
  lemma {:induction false} JoinFails(args: seq<Node>, k: nat, frame: Frame, sha: Hash)
    requires k <= |args| && Join(args, k, frame, sha).Err?
    ensures Join(args, |args|, frame, sha) == Join(args, k, frame, sha)
    decreases |args| - k
  {
    if k < |args| {
      JoinFails(args, k + 1, frame, sha);
    }
  }
}
