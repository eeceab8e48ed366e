/** Hexadecimal strings and the number parsing of the C++ library, as functions. */
module HexStrings {
  import opened MachineWords
  import opened SnapResult
  import opened Numerals
  import opened BigNumbers

  predicate IsDigit(c: char) { '0' <= c <= '9' }

  /** isspace in the default locale: blank and the characters 9 to 13. */
  predicate IsSpace(c: char) { c == ' ' || 9 <= c as int <= 13 }

  predicate IsHex(c: char) { IsDigit(c) || 'a' <= c <= 'f' || 'A' <= c <= 'F' }

  function HexValue(c: char): (v: nat)
    requires IsHex(c)
    ensures v < 16
  {
    if IsDigit(c) then (c as int - '0' as int) as nat
    else if 'a' <= c <= 'f' then (c as int - 'a' as int + 10) as nat
    else (c as int - 'A' as int + 10) as nat
  }

  function HexDigit(v: nat): char
    requires v < 16
  {
    if v < 10 then ('0' as int + v) as char else ('A' as int + v - 10) as char
  }

  /** Two upper-case hexadecimal digits. */
  function HexByte(b: bv8): (s: string)
    ensures |s| == 2
  {
    ByteBound(b);
    [HexDigit(b as nat / 16), HexDigit(b as nat % 16)]
  }

  /** hex_string on the bytes of a number. */
  function HexString(bytes: seq<bv8>): (s: string)
    ensures |s| == 2 * |bytes|
  {
    if bytes == [] then "" else HexString(bytes[..|bytes| - 1]) + HexByte(bytes[|bytes| - 1])
  }

  /** stoul with base 16 on the two characters a and b, as a byte: leading space or sign, then digits up to the
      first other character; a minus sign negates modulo 2^64. */
  function ParsePair(a: char, b: char): Result<bv8> {
    if IsHex(a) then Ok((if IsHex(b) then 16 * HexValue(a) + HexValue(b) else HexValue(a)) as bv8)
    else if !IsHex(b) then Err(NotANumber)
    else if IsSpace(a) || a == '+' then Ok(HexValue(b) as bv8)
    else if a == '-' then Ok(((256 - HexValue(b)) % 256) as bv8)
    else Err(NotANumber)
  }

  /** Two characters a byte; the terminating NUL follows a last single character. */
  function ParseHex(s: string): Result<seq<bv8>>
    decreases |s|
  {
    if s == "" then Ok([])
    else
      var byte :- ParsePair(s[0], if |s| > 1 then s[1] else '\0');
      var rest :- ParseHex(if |s| > 1 then s[2..] else "");
      Ok([byte] + rest)
  }

  /** from_hex_string: the empty string is the null number. */
  function FromHex(s: string): Result<Number> {
    if s == "" then Ok(Null)
    else
      var bytes :- ParseHex(s);
      Ok(Bytes(bytes))
  }

  // ---------- decimal numbers ----------

  function SkipSpaces(s: string): string {
    if s != "" && IsSpace(s[0]) then SkipSpaces(s[1..]) else s
  }

  /** The leading decimal digits of s, as a number after `acc`. */
  function Digits(s: string, acc: nat): nat {
    if s != "" && IsDigit(s[0]) then Digits(s[1..], acc * 10 + HexValue(s[0])) else acc
  }

  /** stoul with base 10. */
  function Stoul(s: string): Result<u64> {
    var t := SkipSpaces(s);
    var negative := t != "" && t[0] == '-';
    var digits := if t != "" && (t[0] == '-' || t[0] == '+') then t[1..] else t;
    if digits == "" || !IsDigit(digits[0]) then Err(NotANumber)
    else
      var v := Digits(digits, 0);
      if v >= 0x1_0000_0000_0000_0000 then Err(NumberTooBig)
      else if negative then Ok((0x1_0000_0000_0000_0000 - v) % 0x1_0000_0000_0000_0000)
      else Ok(v)
  }

  // ---------- printing and parsing ----------

  lemma HexDigitRoundTrip(v: nat)
    requires v < 16
    ensures IsHex(HexDigit(v)) && HexValue(HexDigit(v)) == v
  {
  }

  lemma ByteBound(b: bv8)
    ensures b as nat / 16 < 16
  {
  }

  lemma HexByteDigits(b: bv8, hi: nat, lo: nat)
    requires lo < 16 && b as nat == 16 * hi + lo
    ensures hi < 16 && HexByte(b) == [HexDigit(hi), HexDigit(lo)] && (16 * hi + lo) as bv8 == b
  {
    ByteBound(b);
    ByteBack(b);
    hide HexDigit;
  }

  lemma PairRoundTrip(b: bv8)
    ensures var s := HexByte(b); ParsePair(s[0], s[1]) == Ok(b)
  {
    hide ParsePair, HexByte, HexDigit;
    var hi, lo := b as nat / 16, b as nat % 16;
    HexByteDigits(b, hi, lo);
    DigitsRoundTrip(hi, lo);
  }

  lemma DigitsRoundTrip(hi: nat, lo: nat)
    requires hi < 16 && lo < 16
    ensures ParsePair(HexDigit(hi), HexDigit(lo)) == Ok((16 * hi + lo) as bv8)
  {
    HexDigitRoundTrip(hi);
    HexDigitRoundTrip(lo);
    hide HexDigit, HexValue;
  }

  lemma {:induction false} ParseAppend(s: string, t: string, b: bv8)
    requires |s| % 2 == 0 && ParseHex(s).Ok? && |t| == 2 && ParsePair(t[0], t[1]) == Ok(b)
    ensures ParseHex(s + t) == Ok(ParseHex(s).value + [b])
    decreases |s|
  {
    hide ParsePair;
    if s == "" {
      assert s + t == t && t[2..] == "";
      assert ParseHex(t[2..]) == Ok([]);
      assert [] + [b] == [b] + [] == [b];
    } else {
      assert (s + t)[2..] == s[2..] + t;
      ParseAppend(s[2..], t, b);
      var byte, rest := ParsePair(s[0], s[1]).value, ParseHex(s[2..]).value;
      assert [byte] + (rest + [b]) == [byte] + rest + [b];
    }
  }

  /** Parsing undoes printing, on the bytes. */
  lemma {:induction false} ParseHexString(bytes: seq<bv8>)
    ensures ParseHex(HexString(bytes)) == Ok(bytes)
  {
    if bytes != [] {
      var n := |bytes| - 1;
      ParseHexString(bytes[..n]);
      PairRoundTrip(bytes[n]);
      ParseAppend(HexString(bytes[..n]), HexByte(bytes[n]), bytes[n]);
      assert bytes == bytes[..n] + [bytes[n]];
    }
  }

  /** Printing and parsing a number gives it back exactly when it has bytes: the empty number reads back as null. */
  lemma HexRoundTrip(bytes: seq<bv8>)
    ensures FromHex(HexString(bytes)) == Ok(Bytes(bytes)) <==> bytes != []
  {
    ParseHexString(bytes);
  }

  /** Printing is injective. */
  lemma HexStringInjective(a: seq<bv8>, b: seq<bv8>)
    requires HexString(a) == HexString(b)
    ensures a == b
  {
    ParseHexString(a);
    ParseHexString(b);
  }

  // ---------- digits ----------

  const UPPER_DIGITS := "0123456789ABCDEF"
  const LOWER_DIGITS := "0123456789abcdef"

  /** Both letter cases are read. */
  lemma HexCharacters(c: char)
    ensures IsHex(c) <==> c in "0123456789ABCDEFabcdef"
    ensures IsHex(c) ==> c == UPPER_DIGITS[HexValue(c)] || c == LOWER_DIGITS[HexValue(c)]
  {
  }

  lemma DigitPrinted(v: nat)
    requires v < 16
    ensures HexDigit(v) == UPPER_DIGITS[v]
  {
  }

  /** Upper-case digits are printed, the high one first, in the order of the bytes. */
  lemma {:induction false} PrintedDigits(bytes: seq<bv8>, i: nat)
    requires i < |bytes|
    ensures bytes[i] as nat / 16 < 16
    ensures HexString(bytes)[2 * i] == UPPER_DIGITS[bytes[i] as nat / 16]
    ensures HexString(bytes)[2 * i + 1] == UPPER_DIGITS[bytes[i] as nat % 16]
  {
    hide HexDigit;
    var b := bytes[i];
    ByteBound(b);
    DigitPrinted(b as nat / 16);
    DigitPrinted(b as nat % 16);
    assert HexByte(b) == [UPPER_DIGITS[b as nat / 16], UPPER_DIGITS[b as nat % 16]];
    hide HexByte, HexDigit;
    var n := |bytes| - 1;
    assert HexString(bytes) == HexString(bytes[..n]) + HexByte(bytes[n]);
    if i < n {
      PrintedDigits(bytes[..n], i);
    }
  }

  /** The decimal numeral of n. */
  function Decimal(n: nat): (s: string)
    ensures s != ""
  {
    if n < 10 then ["0123456789"[n]] else Decimal(n / 10) + ["0123456789"[n % 10]]
  }

  /** Reading a numeral, behind white space and a sign, up to the first other character: a minus sign negates modulo
      2^64. */
  lemma DecimalReadBack(blanks: string, sign: string, n: nat, rest: string)
    requires (forall c :: c in blanks ==> c in " \t\n\r" || c as int == 11 || c as int == 12)
    requires sign == "" || sign == "+" || sign == "-"
    requires rest == "" || rest[0] !in "0123456789"
    ensures Stoul(blanks + sign + Decimal(n) + rest) ==
            if n >= 0x1_0000_0000_0000_0000 then Err(NumberTooBig)
            else if sign == "-" then Ok(Wrap64(0 - n)) else Ok(n)
  {
    var numeral := Decimal(n) + rest;
    NumeralValue(n, rest);
    hide Decimal, Digits, SkipSpaces;
    assert blanks + sign + Decimal(n) + rest == blanks + (sign + numeral);
    BlanksSkipped(blanks, sign + numeral);
    Signed(blanks + (sign + numeral), sign, numeral);
  }

  /** Everything else is refused. */
  lemma NoNumeral(blanks: string, sign: string, rest: string)
    requires (forall c :: c in blanks ==> c in " \t\n\r" || c as int == 11 || c as int == 12)
    requires sign == "" || sign == "+" || sign == "-"
    requires rest == "" || rest[0] !in "0123456789"
    requires sign == "" && rest != "" ==>
               rest[0] !in " \t\n\r+-" && rest[0] as int != 11 && rest[0] as int != 12
    ensures Stoul(blanks + sign + rest) == Err(NotANumber)
  {
    hide SkipSpaces;
    var t := sign + rest;
    assert blanks + sign + rest == blanks + t;
    assert sign != "" ==> t[0] == sign[0] && t[1..] == rest;
    assert sign == "" ==> t == rest;
    BlanksSkipped(blanks, t);
  }

  lemma NumeralValue(n: nat, rest: string)
    requires rest == "" || rest[0] !in "0123456789"
    ensures var numeral := Decimal(n) + rest;
            IsDigit(numeral[0]) && Digits(numeral, 0) == n
  {
    DigitsOfDecimal(n);
    DigitsConcat(Decimal(n), rest, 0);
    hide Decimal;
    assert Decimal(n)[0] in Decimal(n);
  }

  lemma Signed(s: string, sign: string, numeral: string)
    requires sign == "" || sign == "+" || sign == "-"
    requires SkipSpaces(s) == sign + numeral && numeral != "" && IsDigit(numeral[0])
    ensures var n := Digits(numeral, 0);
            Stoul(s) == if n >= 0x1_0000_0000_0000_0000 then Err(NumberTooBig)
                        else if sign == "-" then Ok(Wrap64(0 - n)) else Ok(n)
  {
    hide Digits, SkipSpaces;
    var t := sign + numeral;
    if sign == "" {
      assert t == numeral;
    } else {
      assert t[1..] == numeral && t[0] == sign[0];
    }
  }

  lemma {:induction false} BlanksSkipped(blanks: string, t: string)
    requires (forall c :: c in blanks ==> IsSpace(c)) && (t == "" || !IsSpace(t[0]))
    ensures SkipSpaces(blanks + t) == t
    decreases blanks
  {
    if blanks == "" {
      assert blanks + t == t;
    } else {
      assert (blanks + t)[1..] == blanks[1..] + t;
      BlanksSkipped(blanks[1..], t);
    }
  }

  lemma {:induction false} DigitsConcat(s: string, t: string, acc: nat)
    requires forall c :: c in s ==> IsDigit(c)
    ensures Digits(s + t, acc) == Digits(t, Digits(s, acc))
    decreases s
  {
    if s == "" {
      assert s + t == t;
    } else {
      assert (s + t)[1..] == s[1..] + t;
      DigitsConcat(s[1..], t, acc * 10 + HexValue(s[0]));
    }
  }

  lemma OneDigit(v: nat, acc: nat)
    requires v < 10
    ensures var s := ["0123456789"[v]]; IsDigit(s[0]) && Digits(s, acc) == 10 * acc + v
  {
    assert ["0123456789"[v]][1..] == "";
  }

  lemma {:induction false} DigitsOfDecimal(n: nat)
    ensures (forall c :: c in Decimal(n) ==> IsDigit(c)) && Digits(Decimal(n), 0) == n
    decreases n
  {
    OneDigit(n % 10, if n < 10 then 0 else n / 10);
    hide Digits;
    if n >= 10 {
      DigitsOfDecimal(n / 10);
      DigitsConcat(Decimal(n / 10), ["0123456789"[n % 10]], 0);
    }
  }

  /** The leading hexadecimal digits of s, as a number after `acc`. */
  function HexDigits(s: string, acc: nat): nat {
    if s != "" && IsHex(s[0]) then HexDigits(s[1..], 16 * acc + HexValue(s[0])) else acc
  }

  /** stoul with base 16, modulo 256. */
  function HexStoul(s: string): Result<bv8> {
    var t := SkipSpaces(s);
    var digits := if t != "" && (t[0] == '-' || t[0] == '+') then t[1..] else t;
    if digits == "" || !IsHex(digits[0]) then Err(NotANumber)
    else
      var v := HexDigits(digits, 0);
      Ok(((if t[0] == '-' then 0 - v else v) % 256) as bv8)
  }

  /** On two characters that is what a byte is read as. */
  lemma PairIsStoul(a: char, b: char)
    ensures ParsePair(a, b) == HexStoul([a, b])
  {
    assert [a, b][1..] == [b] && [b][1..] == "";
    OneOrTwo(a, b);
    hide IsHex, HexValue;
    if IsSpace(a) {
      assert SkipSpaces([a, b]) == SkipSpaces([b]);
      assert SkipSpaces([b]) == if IsSpace(b) then "" else [b];
    } else {
      assert SkipSpaces([a, b]) == [a, b];
    }
  }

  lemma OneOrTwo(a: char, b: char)
    ensures HexDigits("", 0) == 0 && HexDigits([b], 0) == if IsHex(b) then HexValue(b) else 0
    ensures IsHex(a) ==> HexDigits([a, b], 0) == if IsHex(b) then 16 * HexValue(a) + HexValue(b) else HexValue(a)
    ensures IsHex(a) ==> !IsSpace(a) && a != '-' && a != '+'
    ensures IsHex(b) ==> !IsSpace(b) && b != '-' && b != '+'
  {
    assert [b][1..] == "" && [a, b][1..] == [b] && HexDigits("", 0) == 0;
    var va := if IsHex(a) then HexValue(a) else 0;
    assert HexDigits([b], 0) == if IsHex(b) then HexDigits("", HexValue(b)) else 0;
    assert HexDigits([b], va) == if IsHex(b) then HexDigits("", 16 * va + HexValue(b)) else va;
    assert IsHex(a) ==> HexDigits([a, b], 0) == HexDigits([b], va);
  }
}
