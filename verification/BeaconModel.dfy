/** Beacon frames: what a decoded frame holds, how it is laid out in bytes, and field lookup. */
module BeaconModel {
  import opened SnapResult
  import opened Numerals
  import opened BigNumbers
  import opened HexStrings
  import opened Fingerprints

  /** An information element. */
  datatype Element = Element(id: bv8, value: seq<bv8>)

  /** The fixed fields, as big-endian numbers, and the elements of a beacon. */
  datatype Beacon = Beacon(timestamp: seq<bv8>, interval: seq<bv8>, capabilities: seq<bv8>, elements: seq<Element>)

  datatype Header = Header(control: seq<bv8>, duration: seq<bv8>, destination: seq<bv8>, source: seq<bv8>,
                           bssid: seq<bv8>, sequenceControl: seq<bv8>)

  datatype Decoded = Decoded(header: Header, beacon: Beacon, checksum: seq<bv8>)

  /** Bytes in the opposite order: fields are stored least significant byte first. */
  function Flip(s: seq<bv8>): (r: seq<bv8>)
    ensures |r| == |s|
  {
    seq(|s|, i requires 0 <= i < |s| => s[|s| - 1 - i])
  }

  // ---------- elements ----------

  /** The length byte of an element. */
  function LengthOf(rest: seq<bv8>): (n: nat)
    requires |rest| >= 2
    ensures n < 256
  {
    rest[1] as nat
  }

  /** Nothing more to parse: no room for a length, length zero, or an element that ends at least two bytes late. */
  predicate Stops(rest: seq<bv8>) { |rest| < 2 || LengthOf(rest) == 0 || LengthOf(rest) >= |rest| }

  /** An element that ends exactly one byte late. */
  predicate OneByteLate(rest: seq<bv8>) { |rest| >= 2 && LengthOf(rest) != 0 && LengthOf(rest) == |rest| - 1 }

  function ParseElements(rest: seq<bv8>): Result<seq<Element>> {
    if Stops(rest) then Ok([])
    else if OneByteLate(rest) then Err(ElementOutsideBuffer)
    else
      var end := 2 + LengthOf(rest);
      var more :- ParseElements(rest[end..]);
      Ok([Element(rest[0], rest[2..end])] + more)
  }

  function DecodeBody(body: seq<bv8>): Result<Beacon> {
    if |body| < 12 then Err(BufferTooSmall)
    else
      var elements :- ParseElements(body[12..]);
      Ok(Beacon(Flip(body[..8]), Flip(body[8..10]), Flip(body[10..12]), elements))
  }

  function FrameType(control: seq<bv8>): nat { Val(Slice(control, 2, 2)) }

  function FrameSubtype(control: seq<bv8>): nat { Val(Slice(control, 4, 4)) }

  predicate IsBeacon(control: seq<bv8>) { FrameType(control) == 0 && FrameSubtype(control) == 8 }

  function HeaderOf(raw: seq<bv8>): Header
    requires |raw| >= 24
  {
    Header(Flip(raw[..2]), Flip(raw[2..4]), Flip(raw[4..10]), Flip(raw[10..16]), Flip(raw[16..22]), Flip(raw[22..24]))
  }

  /** The source leaves frames of 24 to 27 bytes that call themselves beacons undefined: their body would have a
      negative length. */
  predicate BodyDefined(raw: seq<bv8>) {
    24 <= |raw| < 28 ==> !IsBeacon(Flip(raw[..2]))
  }

  function DecodeFrame(raw: seq<bv8>): Result<Decoded>
    requires BodyDefined(raw)
  {
    if |raw| < 24 then Err(BufferTooSmall)
    else if !IsBeacon(Flip(raw[..2])) then Err(NoBody)
    else if |raw| == 28 then Err(EmptyBody)
    else
      var beacon :- DecodeBody(raw[24..|raw| - 4]);
      Ok(Decoded(HeaderOf(raw), beacon, Flip(raw[|raw| - 4..])))
  }

  // ---------- lookup ----------

  predicate AllHex(field: string) { forall c :: c in field ==> IsHex(c) }

  function HexNumber(s: string, acc: nat): nat
    requires AllHex(s)
  {
    if s == "" then acc else HexNumber(s[1..], 16 * acc + HexValue(s[0]))
  }

  /** stoi with base 16, as a byte. */
  function ElementId(field: string): Result<bv8>
    requires AllHex(field)
  {
    if field == "" then Err(NotANumber)
    else if HexNumber(field, 0) >= 0x8000_0000 then Err(NumberTooBig)
    else Ok((HexNumber(field, 0) % 256) as bv8)
  }

  function FirstOf(elements: seq<Element>, id: bv8): Number {
    if elements == [] then Null
    else if elements[0].id == id then Bytes(elements[0].value)
    else FirstOf(elements[1..], id)
  }

  function Lookup(elements: seq<Element>, field: string): Result<Number> {
    if elements == [] || !AllHex(field) then Ok(Null)
    else
      var id :- ElementId(field);
      Ok(FirstOf(elements, id))
  }

  function BeaconField(b: Beacon, field: string): Result<Number> {
    if field == "timestamp" then Ok(Bytes(b.timestamp))
    else if field == "beacon_interval" then Ok(Bytes(b.interval))
    else if field == "capabilities_information" then Ok(Bytes(b.capabilities))
    else Lookup(b.elements, field)
  }

  function FrameField(d: Decoded, field: string): Result<Number> {
    if field == "frame_control" then Ok(Bytes(d.header.control))
    else if field == "duration" then Ok(Bytes(d.header.duration))
    else if field == "destination_address" then Ok(Bytes(d.header.destination))
    else if field == "source_address" then Ok(Bytes(d.header.source))
    else if field == "bssid" then Ok(Bytes(d.header.bssid))
    else if field == "sequence_control" then Ok(Bytes(d.header.sequenceControl))
    else if field == "frame_check_sum" then Ok(Bytes(d.checksum))
    else BeaconField(d.beacon, field)
  }

  // ---------- the layout ----------

  function EncodeElements(elements: seq<Element>): seq<bv8>
    requires ElementsOk(elements)
  {
    if elements == [] then [] else EncodeElement(elements[0]) + EncodeElements(elements[1..])
  }

  function EncodeElement(e: Element): (r: seq<bv8>)
    requires |e.value| <= 255
    ensures |r| == 2 + |e.value|
  {
    [e.id, |e.value| as bv8] + e.value
  }

  predicate ElementsOk(elements: seq<Element>) {
    forall e :: e in elements ==> 1 <= |e.value| <= 255
  }

  predicate BeaconOk(b: Beacon) {
    |b.timestamp| == 8 && |b.interval| == 2 && |b.capabilities| == 2 && ElementsOk(b.elements)
  }

  function EncodeBody(b: Beacon): seq<bv8>
    requires BeaconOk(b)
  {
    Flip(b.timestamp) + Flip(b.interval) + Flip(b.capabilities) + EncodeElements(b.elements)
  }

  predicate DecodedOk(d: Decoded) {
    && |d.header.control| == 2 && |d.header.duration| == 2 && |d.header.destination| == 6
    && |d.header.source| == 6 && |d.header.bssid| == 6 && |d.header.sequenceControl| == 2
    && |d.checksum| == 4 && BeaconOk(d.beacon)
  }

  function EncodeHeader(h: Header): seq<bv8> {
    Flip(h.control) + Flip(h.duration) + Flip(h.destination) + Flip(h.source) + Flip(h.bssid)
    + Flip(h.sequenceControl)
  }

  function EncodeFrame(d: Decoded): seq<bv8>
    requires DecodedOk(d)
  {
    EncodeHeader(d.header) + EncodeBody(d.beacon) + Flip(d.checksum)
  }

  // ---------- decoding finds the longest prefix of elements ----------

  lemma ElementPrefix(e: Element, rest: seq<bv8>)
    requires |e.value| <= 255
    ensures EncodeElement(e) <= rest <==>
            && 2 + |e.value| <= |rest| && rest[0] == e.id && LengthOf(rest) == |e.value|
            && rest[2..2 + |e.value|] == e.value
  {
    HeadPrefix(e.id, |e.value| as bv8, e.value, rest);
    if |rest| >= 2 {
      ByteIs(rest[1], |e.value|);
    }
  }

  lemma HeadPrefix(id: bv8, len: bv8, value: seq<bv8>, rest: seq<bv8>)
    ensures [id, len] + value <= rest <==>
            && 2 + |value| <= |rest| && rest[0] == id && rest[1] == len && rest[2..2 + |value|] == value
  {
  }

  lemma ByteIs(b: bv8, n: nat)
    requires n < 256
    ensures b == n as bv8 <==> b as nat == n
  {
    ByteRoundTrip(n);
  }

  /** Parsing gives exactly the elements whose encoding starts the bytes and after which nothing more can be parsed. */
  lemma {:induction false} ParsesExactly(rest: seq<bv8>, es: seq<Element>)
    ensures ParseElements(rest) == Ok(es) <==>
            ElementsOk(es) && EncodeElements(es) <= rest && Stops(rest[|EncodeElements(es)|..])
    decreases |rest|
  {
    hide EncodeElements, EncodeElement, Stops, OneByteLate, ParseElements, ElementsOk;
    if es == [] {
      EncodeNothing();
      ParseNothing(rest);
      assert rest[0..] == rest;
    } else {
      ParseOne(rest, es);
      if ParsesOne(rest, es[0]) {
        ParsesExactly(rest[2 + |es[0].value|..], es[1..]);
      }
      if ElementsOk(es) {
        EncodeOne(rest, es);
      } else {
        ElementsOkCons(es);
      }
    }
  }

  lemma EncodeNothing()
    ensures EncodeElements([]) == [] && ElementsOk([])
  {
  }

  lemma ParseNothing(rest: seq<bv8>)
    ensures ParseElements(rest) == Ok([]) <==> Stops(rest)
  {
  }

  ghost predicate ParsesOne(rest: seq<bv8>, e: Element) {
    1 <= |e.value| <= 255 && EncodeElement(e) <= rest
  }

  lemma ParseOne(rest: seq<bv8>, es: seq<Element>)
    requires es != []
    ensures ParseElements(rest) == Ok(es) <==>
            ParsesOne(rest, es[0]) && ParseElements(rest[2 + |es[0].value|..]) == Ok(es[1..])
  {
    hide EncodeElement, ParseElements;
    ParseUnfold(rest, es);
    if |es[0].value| <= 255 {
      ElementPrefix(es[0], rest);
    }
  }

  lemma ParseUnfold(rest: seq<bv8>, es: seq<Element>)
    requires es != []
    ensures ParseElements(rest) == Ok(es) <==>
            && !Stops(rest) && !OneByteLate(rest)
            && es[0] == Element(rest[0], rest[2..2 + LengthOf(rest)])
            && ParseElements(rest[2 + LengthOf(rest)..]) == Ok(es[1..])
  {
    hide LengthOf;
    if !Stops(rest) && !OneByteLate(rest) {
      var end := 2 + LengthOf(rest);
      var tail := ParseElements(rest[end..]);
      hide ParseElements;
      if tail.Ok? {
        Cons(Element(rest[0], rest[2..end]), tail.value, es);
      }
    }
  }

  lemma Cons<T>(x: T, s: seq<T>, t: seq<T>)
    requires t != []
    ensures [x] + s == t <==> x == t[0] && s == t[1..]
  {
  }

  lemma EncodeOne(rest: seq<bv8>, es: seq<Element>)
    requires es != [] && ElementsOk(es)
    ensures 1 <= |es[0].value| <= 255 && ElementsOk(es[1..])
    ensures EncodeElements(es) <= rest <==>
            ParsesOne(rest, es[0]) && EncodeElements(es[1..]) <= rest[2 + |es[0].value|..]
    ensures EncodeElements(es) <= rest ==>
            rest[|EncodeElements(es)|..] == rest[2 + |es[0].value|..][|EncodeElements(es[1..])|..]
  {
    SumPrefix(EncodeElement(es[0]), EncodeElements(es[1..]), rest);
  }

  lemma SumPrefix(a: seq<bv8>, b: seq<bv8>, s: seq<bv8>)
    ensures a + b <= s <==> a <= s && b <= s[|a|..]
    ensures a + b <= s ==> s[|a + b|..] == s[|a|..][|b|..]
  {
    if a <= s && b <= s[|a|..] {
      assert s == a + s[|a|..];
    }
  }

  lemma ElementsOkCons(es: seq<Element>)
    requires es != []
    ensures ElementsOk(es) <==> 1 <= |es[0].value| <= 255 && ElementsOk(es[1..])
  {
    assert es == [es[0]] + es[1..];
  }

  /** Parsing fails exactly when such a run of elements is followed by one that ends one byte late. */
  lemma {:induction false} ParseFailsExactly(rest: seq<bv8>)
    ensures ParseElements(rest).Err? <==>
            exists es :: ElementsOk(es) && EncodeElements(es) <= rest
                         && OneByteLate(rest[|EncodeElements(es)|..])
  {
    hide EncodeElements, Stops, OneByteLate, ParseElements, ElementsOk;
    if ParseElements(rest).Err? {
      var es := FailsAfter(rest);
    } else {
      forall es | ElementsOk(es) && EncodeElements(es) <= rest
        ensures !OneByteLate(rest[|EncodeElements(es)|..])
      {
        if OneByteLate(rest[|EncodeElements(es)|..]) {
          LateFails(rest, es);
        }
      }
    }
  }

  lemma {:induction false} FailsAfter(rest: seq<bv8>) returns (es: seq<Element>)
    requires ParseElements(rest).Err?
    ensures ElementsOk(es) && EncodeElements(es) <= rest && OneByteLate(rest[|EncodeElements(es)|..])
    decreases |rest|
  {
    hide EncodeElements, ElementsOk, EncodeElement, LengthOf;
    if OneByteLate(rest) {
      es := [];
      EncodeNothing();
      assert rest[0..] == rest;
    } else {
      var end := 2 + LengthOf(rest);
      var e := Element(rest[0], rest[2..end]);
      var more := FailsAfter(rest[end..]);
      es := [e] + more;
      assert es[0] == e && es[1..] == more;
      ElementsOkCons(es);
      ElementPrefix(e, rest);
      EncodeOne(rest, es);
    }
  }

  lemma {:induction false} LateFails(rest: seq<bv8>, es: seq<Element>)
    requires ElementsOk(es) && EncodeElements(es) <= rest && OneByteLate(rest[|EncodeElements(es)|..])
    ensures ParseElements(rest).Err?
    decreases |es|
  {
    hide EncodeElements, ElementsOk, EncodeElement;
    if es == [] {
      EncodeNothing();
      assert rest[0..] == rest;
    } else {
      EncodeOne(rest, es);
      ElementPrefix(es[0], rest);
      LateFails(rest[2 + |es[0].value|..], es[1..]);
    }
  }

  // ---------- round trips ----------

  lemma FlipTwice(s: seq<bv8>)
    ensures Flip(Flip(s)) == s
  {
  }

  /** Decoding an encoded body gives back its fields and its elements, in order. */
  lemma BodyRoundTrip(b: Beacon)
    requires BeaconOk(b)
    ensures DecodeBody(EncodeBody(b)) == Ok(b)
  {
    hide EncodeElements, Flip, ParseElements;
    var body := EncodeBody(b);
    assert body[..8] == Flip(b.timestamp) && body[8..10] == Flip(b.interval) && body[10..12] == Flip(b.capabilities);
    FlipTwice(b.timestamp);
    FlipTwice(b.interval);
    FlipTwice(b.capabilities);
    assert body[12..] == EncodeElements(b.elements);
    ParsesExactly(body[12..], b.elements);
  }

  lemma HeaderRoundTrip(h: Header, rest: seq<bv8>)
    requires |h.control| == 2 && |h.duration| == 2 && |h.destination| == 6
    requires |h.source| == 6 && |h.bssid| == 6 && |h.sequenceControl| == 2
    ensures |EncodeHeader(h)| == 24 && HeaderOf(EncodeHeader(h) + rest) == h
    ensures Flip((EncodeHeader(h) + rest)[..2]) == h.control
  {
  }

  /** Decoding an encoded frame gives it back if its Frame Control says beacon, and fails if not. */
  lemma FrameRoundTrip(d: Decoded)
    requires DecodedOk(d)
    ensures BodyDefined(EncodeFrame(d))
    ensures DecodeFrame(EncodeFrame(d)) == if IsBeacon(d.header.control) then Ok(d) else Err(NoBody)
  {
    hide Flip, EncodeElements, EncodeHeader, HeaderOf, IsBeacon, DecodeBody, EncodeBody;
    var raw, body := EncodeFrame(d), EncodeBody(d.beacon);
    var tail := body + Flip(d.checksum);
    assert |body| >= 12 by { BodyLength(d.beacon); }
    HeaderRoundTrip(d.header, tail);
    assert raw == EncodeHeader(d.header) + tail;
    BodyRoundTrip(d.beacon);
    assert raw[24..|raw| - 4] == body && raw[|raw| - 4..] == Flip(d.checksum);
    FlipTwice(d.checksum);
  }

  lemma BodyLength(b: Beacon)
    requires BeaconOk(b)
    ensures |EncodeBody(b)| == 12 + |EncodeElements(b.elements)|
  {
  }

  /** Frame Control of a beacon: type 0 and subtype 8 are bits 2 to 7 of the first byte sent; the protocol version
      and the flags in the second byte do not matter. */
  lemma BeaconByFirstByte(raw: seq<bv8>)
    requires |raw| >= 2
    ensures IsBeacon(Flip(raw[..2])) <==> 0x80 <= raw[0] <= 0x83
  {
    hide IsBeacon, Val, ByteVal;
    assert Flip(raw[..2]) == [raw[1], raw[0]];
    TwoByteValue(raw[1], raw[0]);
    ByteOrder(raw[0]);
    ControlValue([raw[1], raw[0]], ByteVal(raw[1]), ByteVal(raw[0]));
  }

  lemma ControlValue(c: seq<bv8>, hi: nat, lo: nat)
    requires Val(c) == hi * 256 + lo && lo < 256
    ensures IsBeacon(c) <==> 0x80 <= lo <= 0x83
  {
    hide Val, Pow2, Slice;
    SliceValue(c, 2, 2);
    SliceValue(c, 4, 4);
    Powers();
    TypeBits(hi, lo);
  }

  function ByteVal(b: bv8): nat { b as nat }

  lemma PushByte(s: seq<bv8>, b: bv8)
    ensures Val(s + [b]) == Val(s) * 256 + ByteVal(b)
  {
    ValPush(s, b);
  }

  lemma TwoByteValue(a: bv8, b: bv8)
    ensures Val([a, b]) == ByteVal(a) * 256 + ByteVal(b)
  {
    hide ByteVal;
    assert [a, b] == [] + [a] + [b];
    PushByte([], a);
    PushByte([a], b);
    assert Val([]) == 0;
  }

  lemma Powers()
    ensures Pow2(2) == 4 && Pow2(4) == 16
  {
    assert Pow2(1) == 2 && Pow2(2) == 4 && Pow2(3) == 8;
  }

  lemma TypeBits(hi: nat, lo: nat)
    requires lo < 256
    ensures (hi * 256 + lo) / 4 % 4 == 0 && (hi * 256 + lo) / 16 % 16 == 8 <==> 0x80 <= lo <= 0x83
  {
    var v := hi * 256 + lo;
    Quotient(v, 4, 64 * hi + lo / 4, lo % 4);
    Quotient(v, 16, 16 * hi + lo / 16, lo % 16);
    Quotient(64 * hi + lo / 4, 4, 16 * hi + lo / 16, lo / 4 % 4);
    assert (16 * hi + lo / 16) % 16 == lo / 16;
  }

  lemma Quotient(v: nat, d: nat, q: nat, r: nat)
    requires d > 0 && v == d * q + r && r < d
    ensures v / d == q && v % d == r
  {
    DivUnique(v, d, q, r);
  }

  lemma ByteOrder(b: bv8)
    ensures ByteVal(b) < 256 && (0x80 <= b <= 0x83 <==> 0x80 <= ByteVal(b) <= 0x83)
  {
  }

  lemma FixedFields(b: Beacon, body: seq<bv8>)
    requires BeaconOk(b) && |body| >= 12
    ensures EncodeBody(b) <= body <==>
            && Flip(body[..8]) == b.timestamp && Flip(body[8..10]) == b.interval && Flip(body[10..12]) == b.capabilities
            && EncodeElements(b.elements) <= body[12..]
  {
  }

  /** A body decodes to b exactly when it starts with the encoding of b and no further element can be parsed behind. */
  lemma BodyDecodesExactly(body: seq<bv8>, b: Beacon)
    ensures DecodeBody(body) == Ok(b) <==>
            BeaconOk(b) && EncodeBody(b) <= body && Stops(body[|EncodeBody(b)|..])
  {
    hide EncodeElements, Flip, ParseElements, Stops, EncodeBody;
    if BeaconOk(b) {
      BodyLength(b);
    }
    if |body| >= 12 {
      ParsesExactly(body[12..], b.elements);
      if BeaconOk(b) {
        FixedFields(b, body);
        BodyLength(b);
        if EncodeBody(b) <= body {
          assert body[12..][|EncodeElements(b.elements)|..] == body[|EncodeBody(b)|..];
        }
      }
    }
  }

  // ---------- lookup ----------

  lemma {:induction false} FirstOfIsFirst(elements: seq<Element>, id: bv8)
    ensures FirstOf(elements, id) == Null <==> forall e :: e in elements ==> e.id != id
    ensures forall k :: 0 <= k < |elements| && elements[k].id == id && (forall j :: 0 <= j < k ==> elements[j].id != id)
              ==> FirstOf(elements, id) == Bytes(elements[k].value)
  {
    if elements != [] {
      FirstOfIsFirst(elements[1..], id);
      assert elements == [elements[0]] + elements[1..];
    }
  }

  lemma {:induction false} HexNumberConcat(s: string, t: string, acc: nat)
    requires AllHex(s) && AllHex(t)
    ensures AllHex(s + t) && HexNumber(s + t, acc) == HexNumber(t, HexNumber(s, acc))
  {
    if s == "" {
      assert s + t == t;
    } else {
      assert (s + t)[1..] == s[1..] + t;
      HexNumberConcat(s[1..], t, 16 * acc + HexValue(s[0]));
    }
  }

  /** An element id printed with two digits, and with further digits in front, is read as that id: what is in front
      only matters if the whole no longer fits 31 bits. */
  lemma IdReadBack(front: string, id: bv8)
    requires AllHex(front)
    ensures AllHex(front + HexByte(id))
    ensures ElementId(front + HexByte(id)) ==
            if HexNumber(front, 0) < 0x80_0000 then Ok(id) else Err(NumberTooBig)
  {
    hide HexNumber, HexByte, ElementId;
    HexByteIs(id);
    HexNumberConcat(front, HexByte(id), 0);
    ReadTwoDigits(HexByte(id), HexNumber(front, 0));
    NibbleSum(HexNumber(front, 0), id as nat);
    ElementIdOf(front + HexByte(id), HexNumber(front, 0), id);
  }

  lemma NibbleSum(v: nat, n: nat)
    ensures 16 * (16 * v + n / 16) + n % 16 == 256 * v + n
  {
  }

  lemma ElementIdOf(s: string, v: nat, id: bv8)
    requires s != "" && AllHex(s) && HexNumber(s, 0) == 256 * v + id as nat
    ensures ElementId(s) == if v < 0x80_0000 then Ok(id) else Err(NumberTooBig)
  {
    hide HexNumber;
    ByteMod(v, id);
  }

  lemma ByteMod(v: nat, id: bv8)
    ensures (256 * v + id as nat) % 256 == id as nat && ((id as nat) as bv8) == id
    ensures 256 * v + id as nat >= 0x8000_0000 <==> v >= 0x80_0000
  {
  }

  lemma HexByteIs(id: bv8)
    ensures var s := HexByte(id);
            |s| == 2 && AllHex(s) && HexValue(s[0]) == id as nat / 16 && HexValue(s[1]) == id as nat % 16
  {
    ByteBound(id);
    HexDigitRoundTrip(id as nat / 16);
    HexDigitRoundTrip(id as nat % 16);
    hide HexDigit, HexValue;
  }

  lemma ReadTwoDigits(s: string, acc: nat)
    requires |s| == 2 && AllHex(s)
    ensures HexNumber(s, acc) == 16 * (16 * acc + HexValue(s[0])) + HexValue(s[1])
  {
    hide HexValue;
    var acc1 := 16 * acc + HexValue(s[0]);
    assert HexNumber(s, acc) == HexNumber(s[1..], acc1);
    assert HexNumber(s[1..], acc1) == HexNumber(s[1..][1..], 16 * acc1 + HexValue(s[1]));
    assert s[1..][1..] == "";
  }

  /** Looking up a printed id gives the first element with this id, or the null number if there is none. */
  lemma LookupById(elements: seq<Element>, id: bv8)
    ensures Lookup(elements, HexByte(id)) == Ok(FirstOf(elements, id))
  {
    hide HexByte, HexNumber;
    assert "" + HexByte(id) == HexByte(id);
    NoDigits();
    IdReadBack("", id);
  }

  lemma NoDigits()
    ensures HexNumber("", 0) == 0
  {
  }

  /** A program that asks for an element of a beacon sees, after the beacon was sent and decoded, the first element
      with this id as it was before. */
  lemma GetterSeesElement(d: Decoded, id: bv8, sha: Hash)
    requires DecodedOk(d) && IsBeacon(d.header.control)
    ensures BodyDefined(EncodeFrame(d)) && DecodeFrame(EncodeFrame(d)) == Ok(d)
    ensures Eval(Getter(HexByte(id)), field => FrameField(d, field), sha) ==
            Ok(var n := FirstOf(d.beacon.elements, id); if n.Null? then "" else HexString(n.bytes))
  {
    hide DecodeFrame, EncodeFrame, Lookup, HexByte, IsBeacon, FirstOf, HexString;
    FrameRoundTrip(d);
    LookupById(d.beacon.elements, id);
    TwoCharsIsNoName(d, HexByte(id));
  }

  lemma TwoCharsIsNoName(d: Decoded, field: string)
    requires |field| == 2
    ensures FrameField(d, field) == Lookup(d.beacon.elements, field)
  {
    hide Lookup;
  }

  // ---------- where on the air a field is ----------

  /** These are the bytes from `from` up to `to`, last byte first. */
  ghost predicate ReadsBackwards(r: Result<Number>, raw: seq<bv8>, from: nat, to: nat)
    requires from <= to <= |raw|
  {
    && r.Ok? && r.value.Bytes? && |r.value.bytes| == to - from
    && forall j :: 0 <= j < to - from ==> r.value.bytes[j] == raw[to - 1 - j]
  }

  /** Which bytes of a decoded frame each field name gives. */
  lemma FieldsOnTheAir(raw: seq<bv8>, d: Decoded)
    requires BodyDefined(raw) && DecodeFrame(raw) == Ok(d)
    ensures |raw| >= 40
    ensures ReadsBackwards(FrameField(d, "frame_control"), raw, 0, 2)
    ensures ReadsBackwards(FrameField(d, "duration"), raw, 2, 4)
    ensures ReadsBackwards(FrameField(d, "destination_address"), raw, 4, 10)
    ensures ReadsBackwards(FrameField(d, "source_address"), raw, 10, 16)
    ensures ReadsBackwards(FrameField(d, "bssid"), raw, 16, 22)
    ensures ReadsBackwards(FrameField(d, "sequence_control"), raw, 22, 24)
    ensures ReadsBackwards(FrameField(d, "timestamp"), raw, 24, 32)
    ensures ReadsBackwards(FrameField(d, "beacon_interval"), raw, 32, 34)
    ensures ReadsBackwards(FrameField(d, "capabilities_information"), raw, 34, 36)
    ensures ReadsBackwards(FrameField(d, "frame_check_sum"), raw, |raw| - 4, |raw|)
    ensures ParseElements(raw[36..|raw| - 4]) == Ok(d.beacon.elements)
  {
    hide ParseElements, Lookup, IsBeacon, Flip, ReadsBackwards;
    var end := |raw| - 4;
    assert end - 24 >= 12;
    PartOfPart(raw, 24, end, 8, 10);
    PartOfPart(raw, 24, end, 10, 12);
    assert raw[24..end][..8] == raw[24..32] && raw[24..end][12..] == raw[36..end];
    forall i, j | 0 <= i <= j <= |raw| ensures ReadsBackwards(Ok(Bytes(Flip(raw[i..j]))), raw, i, j) {
      FlipReadsBackwards(raw, i, j);
    }
    assert raw[..2] == raw[0..2] && raw[end..] == raw[end..|raw|];
  }

  lemma PartOfPart(s: seq<bv8>, from: nat, to: nat, i: nat, j: nat)
    requires i <= j && from + j <= to <= |s|
    ensures s[from..to][i..j] == s[from + i..from + j]
  {
    var part, whole := s[from..to][i..j], s[from + i..from + j];
    assert forall k :: 0 <= k < j - i ==> part[k] == whole[k];
  }

  lemma FlipReadsBackwards(raw: seq<bv8>, from: nat, to: nat)
    requires from <= to <= |raw|
    ensures ReadsBackwards(Ok(Bytes(Flip(raw[from..to]))), raw, from, to)
  {
  }

  /** When a frame is refused, and why. */
  lemma RefusedExactly(raw: seq<bv8>)
    requires BodyDefined(raw)
    ensures DecodeFrame(raw).Ok? ==> |raw| >= 40 && 0x80 <= raw[0] <= 0x83
    ensures DecodeFrame(raw) == Err(BufferTooSmall) <==>
            |raw| < 24 || (28 < |raw| < 40 && 0x80 <= raw[0] <= 0x83)
    ensures DecodeFrame(raw) == Err(NoBody) <==> |raw| >= 24 && !(0x80 <= raw[0] <= 0x83)
    ensures DecodeFrame(raw) == Err(EmptyBody) <==> |raw| == 28 && 0x80 <= raw[0] <= 0x83
    ensures DecodeFrame(raw) == Err(ElementOutsideBuffer) <==>
            |raw| >= 40 && 0x80 <= raw[0] <= 0x83 && ParseElements(raw[36..|raw| - 4]).Err?
  {
    hide IsBeacon, Flip, ParseElements;
    if |raw| >= 24 {
      BeaconByFirstByte(raw);
      if |raw| >= 40 {
        assert raw[24..|raw| - 4][12..] == raw[36..|raw| - 4];
        OneParseError(raw[36..|raw| - 4]);
      }
    }
  }

  lemma {:induction false} OneParseError(rest: seq<bv8>)
    ensures ParseElements(rest).Err? ==> ParseElements(rest) == Err(ElementOutsideBuffer)
    decreases |rest|
  {
    if !Stops(rest) && !OneByteLate(rest) {
      OneParseError(rest[2 + LengthOf(rest)..]);
    }
  }

  /** An element on the air: its id, the number of its bytes, and these, in order. */
  lemma ElementsOnTheAir(rest: seq<bv8>, es: seq<Element>)
    requires ParseElements(rest) == Ok(es)
    ensures es == [] <==> |rest| < 2 || rest[1] as nat == 0 || rest[1] as nat >= |rest|
    ensures es != [] ==>
              var end := 2 + rest[1] as nat;
              end <= |rest| && es[0] == Element(rest[0], rest[2..end]) && ParseElements(rest[end..]) == Ok(es[1..])
  {
    if es == [] {
      ParseNothing(rest);
    } else {
      ParseUnfold(rest, es);
    }
    hide ParseElements;
  }
}
