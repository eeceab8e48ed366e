/** Beacon decoding as the program does it: a cursor over the frame buffer and a linked list of elements. */
module Beacons {
  import opened SnapResult
  import opened Numerals
  import opened BigNumbers
  import opened HexStrings
  import opened BeaconModel

  const FRAME_MAX_LENGTH := 2346

  method FromBuffer(buffer: array<bv8>, start: nat, bufferSize: nat, size: nat) returns (r: Result<seq<bv8>>)
    requires start + size <= buffer.Length || bufferSize < size
    ensures r == if size > bufferSize then Err(BufferTooSmall) else Ok(Flip(buffer[start..start + size]))
  {
    if size > bufferSize {
      return Err(BufferTooSmall);
    }
    var number: seq<bv8> := [];
    var i := size - 1;
    while i >= 0
      invariant -1 <= i < size && |number| == size - 1 - i
      invariant forall k :: 0 <= k < |number| ==> number[k] == buffer[start + size - 1 - k]
    {
      number := number + [buffer[start + i]];
      i := i - 1;
    }
    assert number == Flip(buffer[start..start + size]);
    return Ok(number);
  }

  method FromBufferInv(buffer: array<bv8>, start: nat, bufferSize: nat, size: nat) returns (r: Result<seq<bv8>>)
    requires start + size <= buffer.Length || bufferSize < size
    ensures r == if size > bufferSize then Err(BufferTooSmall) else Ok(buffer[start..start + size])
  {
    if size > bufferSize {
      return Err(BufferTooSmall);
    }
    var number: seq<bv8> := [];
    var i := 0;
    while i < size
      invariant i <= size && number == buffer[start..start + i]
    {
      number := number + [buffer[start + i]];
      i := i + 1;
    }
    return Ok(number);
  }

  /** isxdigit on every character. */
  method IsValidHex(s: string) returns (ok: bool)
    ensures ok == AllHex(s)
  {
    var i := 0;
    while i < |s|
      invariant i <= |s| && AllHex(s[..i])
    {
      if !IsHex(s[i]) {
        return false;
      }
      i := i + 1;
    }
    assert s[..i] == s;
    return true;
  }

  /** stoi with base 16. */
  method StoiHex(s: string) returns (r: Result<bv8>)
    requires AllHex(s)
    ensures r == ElementId(s)
  {
    if s == "" {
      return Err(NotANumber);
    }
    var i, v: nat := 0, 0;
    while i < |s|
      invariant i <= |s| && HexNumber(s, 0) == HexNumber(s[i..], v)
    {
      v := 16 * v + HexValue(s[i]);
      i := i + 1;
    }
    if v >= 0x8000_0000 {
      return Err(NumberTooBig);
    }
    return Ok((v % 256) as bv8);
  }

  /** One element of the list. */
  class IeNode {
    const elementId: bv8
    const elementValue: seq<bv8>
    var next: IeNode?
    ghost var list: seq<Element>
    ghost var Repr: set<IeNode>

    ghost predicate Valid()
      reads this, Repr
      decreases Repr
    {
      && this in Repr
      && (next == null ==> list == [Element(elementId, elementValue)])
      && (next != null ==>
            && next in Repr && next.Repr < Repr && this !in next.Repr && next.Valid()
            && list == [Element(elementId, elementValue)] + next.list)
    }

    constructor (elementId: bv8, elementValue: seq<bv8>)
      ensures Valid() && list == [Element(elementId, elementValue)] && Repr == {this}
    {
      this.elementId, this.elementValue := elementId, elementValue;
      next := null;
      list := [Element(elementId, elementValue)];
      Repr := {this};
    }

    method Add(newElement: IeNode)
      requires Valid() && newElement.Valid() && Repr !! newElement.Repr
      modifies Repr
      ensures Valid() && list == old(list) + newElement.list && Repr == old(Repr) + newElement.Repr
      ensures fresh(Repr - old(Repr) - newElement.Repr)
      decreases Repr
    {
      ghost var own := Element(elementId, elementValue);
      if next == null {
        next := newElement;
      } else {
        next.Add(newElement);
      }
      Repr := Repr + newElement.Repr;
      list := [own] + next.list;
    }

    method GetValue(field: string) returns (r: Result<Number>)
      requires Valid()
      ensures r == Lookup(list, field)
      decreases Repr
    {
      var valid := IsValidHex(field);
      if valid {
        var id := StoiHex(field);
        if id.Err? {
          return Err(id.error);
        }
        if elementId == id.value {
          return Ok(Bytes(elementValue));
        }
        assert next == null ==> list[1..] == [] && FirstOf(list[1..], id.value) == Null;
      } else {
        return Ok(Null);
      }
      if next != null {
        r := next.GetValue(field);
        assert list[1..] == next.list && next.list != [];
        return;
      }
      return Ok(Null);
    }
  }

  class BeaconBody {
    var timestamp: seq<bv8>
    var beaconInterval: seq<bv8>
    var capabilities: seq<bv8>
    var firstIe: IeNode?

    ghost predicate Valid()
      reads this, firstIe, if firstIe == null then {} else firstIe.Repr
    {
      firstIe != null ==> firstIe.Valid()
    }

    ghost function Elements(): seq<Element>
      reads this, firstIe
    {
      if firstIe == null then [] else firstIe.list
    }

    ghost function Contents(): Beacon
      reads this, firstIe
    {
      Beacon(timestamp, beaconInterval, capabilities, Elements())
    }

    ghost function Reads(): set<object>
      reads this, firstIe
    {
      {this} + if firstIe == null then {} else {firstIe} + firstIe.Repr
    }

    method GetValue(field: string) returns (r: Result<Number>)
      requires Valid()
      ensures r == BeaconField(Contents(), field)
    {
      hide Lookup;
      if field == "timestamp" {
        return Ok(Bytes(timestamp));
      } else if field == "beacon_interval" {
        return Ok(Bytes(beaconInterval));
      } else if field == "capabilities_information" {
        return Ok(Bytes(capabilities));
      } else if firstIe != null {
        r := firstIe.GetValue(field);
      } else {
        LookupInNothing(field);
        r := Ok(Null);
      }
    }

    constructor ()
      ensures Valid() && firstIe == null
    {
      timestamp, beaconInterval, capabilities, firstIe := [], [], [], null;
    }

    /** Decode the body that starts at `start`; a byte follows it in the buffer. */
    method Decode(buffer: array<bv8>, start: nat, size: nat) returns (r: Result<()>)
      requires start + size < buffer.Length && firstIe == null
      modifies this
      ensures Valid() && (firstIe != null ==> fresh(firstIe.Repr))
      ensures r.Ok? ==> DecodeBody(buffer[start..start + size]) == Ok(Contents())
      ensures r.Err? ==> DecodeBody(buffer[start..start + size]) == Err(r.error)
    {
      hide ParseElements, Flip;
      ghost var body := buffer[start..start + size];
      var f := FromBuffer(buffer, start, size, 8);
      if f.Err? {
        return Err(f.error);
      }
      timestamp := f.value;
      f := FromBuffer(buffer, start + 8, size - 8, 2);
      if f.Err? {
        return Err(f.error);
      }
      beaconInterval := f.value;
      f := FromBuffer(buffer, start + 10, size - 10, 2);
      if f.Err? {
        return Err(f.error);
      }
      capabilities := f.value;
      PartOf(buffer, start, start + size, 0, 8);
      PartOf(buffer, start, start + size, 8, 10);
      PartOf(buffer, start, start + size, 10, 12);
      PartOf(buffer, start, start + size, 12, size);
      r := DecodeElements(buffer, start, size);
    }

    /** Id and length at the cursor; behind the last byte of the body the length is read from the checksum. */
    static method ElementAt(buffer: array<bv8>, start: nat, size: nat, cursor: nat) returns (id: bv8, length: nat)
      requires start + size < buffer.Length && cursor < size
      ensures var rest := buffer[start + cursor..start + size];
              && (Stops(rest) <==> length == 0 || !(length + cursor < size))
              && (!Stops(rest) ==> StartsWith(rest, id, length))
    {
      hide Stops;
      ghost var rest := buffer[start + cursor..start + size];
      id := buffer[start + cursor];
      length := buffer[start + cursor + 1] as nat;
      assert |rest| == size - cursor && rest[0] == id;
      assert |rest| >= 2 ==> rest[1] == buffer[start + cursor + 1];
      StopsWhen(rest, length);
    }

    method DecodeElements(buffer: array<bv8>, start: nat, size: nat) returns (r: Result<()>)
      requires 12 <= size && start + size < buffer.Length && firstIe == null
      modifies this`firstIe
      ensures Valid() && (firstIe != null ==> fresh(firstIe.Repr))
      ensures var parsed := ParseElements(buffer[start + 12..start + size]);
              if r.Ok? then parsed == Ok(Elements()) else parsed == Err(r.error)
    {
      hide ParseElements, Parsing;
      ghost var all := ParseElements(buffer[start + 12..start + size]);
      var cursor, more := 12, true;
      ParsingStarts(buffer[start + cursor..start + size]);
      while more && cursor < size
        invariant 12 <= cursor <= size && Valid() && (firstIe != null ==> fresh(firstIe.Repr))
        invariant if more then Parsing(all, Elements(), buffer[start + cursor..start + size]) else all == Ok(Elements())
        decreases more, size - cursor
      {
        r, cursor, more := DecodeElement(buffer, start, size, cursor, all);
        if r.Err? {
          return;
        }
      }
      if more {
        ParsingStops(all, Elements(), buffer[start + cursor..start + size]);
      }
      return Ok(());
    }

    /** One round of the loop: add the element at the cursor, or stop. */
    method DecodeElement(buffer: array<bv8>, start: nat, size: nat, cursor: nat, ghost all: Result<seq<Element>>)
      returns (r: Result<()>, next: nat, more: bool)
      requires Valid() && start + size < buffer.Length && cursor < size
      requires Parsing(all, Elements(), buffer[start + cursor..start + size])
      modifies this`firstIe, if firstIe == null then {} else firstIe.Repr
      ensures Valid()
      ensures firstIe != null ==> fresh(firstIe.Repr - (if old(firstIe) == null then {} else old(firstIe.Repr)))
      ensures r.Err? ==> all == Err(r.error)
      ensures r.Ok? ==> cursor <= next <= size && (more ==> cursor < next)
      ensures r.Ok? && more ==> Parsing(all, Elements(), buffer[start + next..start + size])
      ensures r.Ok? && !more ==> all == Ok(Elements())
    {
      hide ParseElements, Parsing, Stops, StartsWith;
      ghost var front := Elements();
      var elementId, elementLength := ElementAt(buffer, start, size, cursor);
      if elementLength == 0 || !(elementLength + cursor < size) {
        ParsingStops(all, front, buffer[start + cursor..start + size]);
        return Ok(()), cursor, false;
      }
      Advance(all, front, buffer, start + cursor, start + size, elementId, elementLength);
      next := cursor + 2 + elementLength;
      more := true;
      ghost var value, rest := [], [];
      if next <= size {
        value := buffer[start + cursor + 2..start + cursor + 2 + elementLength];
        rest := buffer[start + next..start + size];
        assert Parsing(all, front + [Element(elementId, value)], rest);
      }
      r := AddIe(elementId, elementLength, cursor + 2, buffer, start, size, value);
    }

    method AddIe(elementId: bv8, elementLength: nat, position: nat, buffer: array<bv8>, start: nat, size: nat,
                 ghost value: seq<bv8>)
      returns (r: Result<()>)
      requires Valid() && start + size < buffer.Length && position <= size + 1
      requires position + elementLength <= size ==>
                 value == buffer[start + position..start + position + elementLength]
      modifies this`firstIe, if firstIe == null then {} else firstIe.Repr
      ensures Valid()
      ensures firstIe != null ==> fresh(firstIe.Repr - (if old(firstIe) == null then {} else old(firstIe.Repr)))
      ensures r == if position + elementLength > size then Err(ElementOutsideBuffer) else Ok(())
      ensures r.Err? ==> firstIe == old(firstIe) && Elements() == old(Elements())
      ensures r.Ok? ==> Elements() == old(Elements()) + [Element(elementId, value)]
    {
      if position + elementLength > size {
        return Err(ElementOutsideBuffer);
      }
      var number := FromBufferInv(buffer, start + position, size - position, elementLength);
      var newIe := new IeNode(elementId, number.value);
      if firstIe == null {
        firstIe := newIe;
      } else {
        firstIe.Add(newIe);
      }
      return Ok(());
    }
  }

  class Frame {
    const buffer: array<bv8>
    var rawSize: nat
    var isDecoded: bool
    var hasRawData: bool
    var control: seq<bv8>
    var duration: seq<bv8>
    var destination: seq<bv8>
    var source: seq<bv8>
    var bssid: seq<bv8>
    var sequenceControl: seq<bv8>
    var checksum: seq<bv8>
    var body: BeaconBody?

    ghost predicate Valid()
      reads this, body, if body == null then {} else body.Reads()
    {
      && rawSize <= buffer.Length == FRAME_MAX_LENGTH
      && (isDecoded ==> hasRawData && body != null)
      && (body != null ==> body.Valid())
    }

    /** The frame as received. */
    ghost function Raw(): seq<bv8>
      requires rawSize <= buffer.Length
      reads this, buffer
    {
      buffer[..rawSize]
    }

    ghost function TheHeader(): Header
      reads this
    {
      Header(control, duration, destination, source, bssid, sequenceControl)
    }

    /** The frame as decoded. */
    ghost function Contents(): Decoded
      requires body != null
      reads this, body, body.firstIe
    {
      Decoded(TheHeader(), body.Contents(), checksum)
    }

    constructor ()
      ensures Valid() && !isDecoded && !hasRawData && fresh(buffer)
    {
      buffer := new bv8[FRAME_MAX_LENGTH];
      rawSize, isDecoded, hasRawData, body := 0, false, false, null;
      control, duration, destination, source, bssid, sequenceControl, checksum := [], [], [], [], [], [], [];
    }

    /** Read a frame of the character device, as far as it fits. */
    method UpdateRawData(file: seq<bv8>)
      requires Valid()
      modifies this`rawSize, this`isDecoded, this`hasRawData, buffer
      ensures Valid() && hasRawData && !isDecoded
      ensures Raw() == if |file| <= 2346 then file else file[..2346]
    {
      var i := 0;
      while i < buffer.Length && i < |file|
        invariant i <= buffer.Length && i <= |file| && buffer[..i] == file[..i]
      {
        buffer[i] := file[i];
        i := i + 1;
      }
      rawSize := i;
      isDecoded := false;
      hasRawData := true;
    }

    method Decode() returns (r: Result<()>)
      requires Valid() && BodyDefined(Raw())
      modifies this`isDecoded, this`control, this`duration, this`destination, this`source, this`bssid,
               this`sequenceControl, this`checksum, this`body
      ensures Valid()
      ensures !hasRawData ==> r == Err(NoData)
      ensures hasRawData && old(isDecoded) ==> r == Ok(()) && isDecoded && body == old(body)
                                               && Contents() == old(Contents())
      ensures hasRawData && !old(isDecoded) ==>
                if r.Ok? then isDecoded && DecodeFrame(Raw()) == Ok(Contents())
                else !isDecoded && DecodeFrame(Raw()) == Err(r.error)
    {
      if !hasRawData {
        return Err(NoData);
      }
      if isDecoded {
        return Ok(());
      }
      r := DecodeRaw();
    }

    /** Decode a frame that has not been decoded yet. */
    method DecodeRaw() returns (r: Result<()>)
      requires Valid() && BodyDefined(Raw()) && hasRawData && !isDecoded
      modifies this`isDecoded, this`control, this`duration, this`destination, this`source, this`bssid,
               this`sequenceControl, this`checksum, this`body
      ensures Valid() && (isDecoded <==> r.Ok?)
      ensures DecodeFrame(Raw()) == if r.Ok? then Ok(Contents()) else Err(r.error)
    {
      hide Flip, DecodeBody, IsBeacon, HeaderOf, DecodeFrame, BodyDefined;
      ghost var raw := Raw();
      r := DecodeHeader();
      if r.Err? {
        ShortFrame(raw);
        return;
      }
      var f := FromBuffer(buffer, rawSize - 4, 4, 4);
      checksum := f.value;
      var beacon := TypeIsBeacon();
      body := null;
      BeaconIsLong(raw);
      var newBody := GetBody(rawSize - 28, beacon);
      FrameWithBody(raw, if newBody.Ok? then Ok(newBody.value.Contents()) else Err(newBody.error));
      if newBody.Err? {
        return Err(newBody.error);
      }
      body := newBody.value;
      isDecoded := true;
      return Ok(());
    }

    /** The decoded body of a frame of this type, from the bytes behind the header. */
    method GetBody(size: int, beacon: bool) returns (r: Result<BeaconBody>)
      requires size == rawSize - 28 && rawSize <= buffer.Length && (beacon ==> size >= 0)
      ensures r.Ok? ==> r.value.Valid() && fresh(r.value.Reads())
      ensures if !beacon then r == Err(NoBody)
              else if size == 0 then r == Err(EmptyBody)
              else DecodeBody(Raw()[24..rawSize - 4]) == if r.Ok? then Ok(r.value.Contents()) else Err(r.error)
    {
      hide DecodeBody;
      if !beacon {
        return Err(NoBody);
      }
      if size == 0 {
        return Err(EmptyBody);
      }
      var newBody := new BeaconBody();
      assert Raw()[24..rawSize - 4] == buffer[24..24 + size];
      var done := newBody.Decode(buffer, 24, size);
      r := if done.Ok? then Ok(newBody) else Err(done.error);
    }

    method DecodeHeader() returns (r: Result<()>)
      requires rawSize <= buffer.Length
      modifies this`control, this`duration, this`destination, this`source, this`bssid, this`sequenceControl
      ensures r == if rawSize < 24 then Err(BufferTooSmall) else Ok(())
      ensures r.Ok? ==> TheHeader() == HeaderOf(Raw()) && control == Flip(Raw()[..2])
    {
      hide Flip;
      var f := HeaderField(0, 2);
      if f.Err? {
        return Err(f.error);
      }
      control := f.value;
      f := HeaderField(2, 2);
      if f.Err? {
        return Err(f.error);
      }
      duration := f.value;
      f := HeaderField(4, 6);
      if f.Err? {
        return Err(f.error);
      }
      destination := f.value;
      f := HeaderField(10, 6);
      if f.Err? {
        return Err(f.error);
      }
      source := f.value;
      f := HeaderField(16, 6);
      if f.Err? {
        return Err(f.error);
      }
      bssid := f.value;
      f := HeaderField(22, 2);
      if f.Err? {
        return Err(f.error);
      }
      sequenceControl := f.value;
      assert Raw()[0..2] == Raw()[..2];
      return Ok(());
    }

    method HeaderField(start: nat, size: nat) returns (r: Result<seq<bv8>>)
      requires start <= rawSize <= buffer.Length
      ensures r == if start + size > rawSize then Err(BufferTooSmall) else Ok(Flip(Raw()[start..start + size]))
    {
      hide Flip;
      r := FromBuffer(buffer, start, rawSize - start, size);
      assert start + size <= rawSize ==> Raw()[start..start + size] == buffer[start..start + size];
    }

    /** The type and subtype bits of Frame Control. */
    method TypeIsBeacon() returns (beacon: bool)
      requires |control| == 2
      ensures beacon == IsBeacon(control)
    {
      hide Val, Slice;
      var tmp := new BigNumber(control, false);
      var cut := tmp.CutBit(2, 2);
      var kind := tmp.ToSizeT();
      tmp := new BigNumber(control, false);
      cut := tmp.CutBit(4, 4);
      var subKind := tmp.ToSizeT();
      beacon := kind.value == 0 && subKind.value == 8;
    }

    method GetValue(field: string) returns (r: Result<Number>)
      requires Valid()
      ensures r == if isDecoded then FrameField(Contents(), field) else Err(NotDecoded)
    {
      hide BeaconField;
      if !isDecoded {
        return Err(NotDecoded);
      }
      if field == "frame_control" {
        return Ok(Bytes(control));
      } else if field == "duration" {
        return Ok(Bytes(duration));
      } else if field == "destination_address" {
        return Ok(Bytes(destination));
      } else if field == "source_address" {
        return Ok(Bytes(source));
      } else if field == "bssid" {
        return Ok(Bytes(bssid));
      } else if field == "sequence_control" {
        return Ok(Bytes(sequenceControl));
      } else if field == "frame_check_sum" {
        return Ok(Bytes(checksum));
      }
      r := body.GetValue(field);
    }
  }

  lemma ShortFrame(raw: seq<bv8>)
    requires BodyDefined(raw) && |raw| < 24
    ensures DecodeFrame(raw) == Err(BufferTooSmall)
  {
  }

  lemma BeaconIsLong(raw: seq<bv8>)
    requires BodyDefined(raw) && |raw| >= 24
    ensures IsBeacon(Flip(raw[..2])) ==> |raw| >= 28
  {
    hide IsBeacon, Flip;
  }

  lemma FrameWithBody(raw: seq<bv8>, body: Result<Beacon>)
    requires BodyDefined(raw) && |raw| >= 24
    requires body == if !IsBeacon(Flip(raw[..2])) then Err(NoBody)
                     else if |raw| == 28 then Err(EmptyBody) else DecodeBody(raw[24..|raw| - 4])
    ensures DecodeFrame(raw) ==
            var beacon :- body;
            Ok(Decoded(HeaderOf(raw), beacon, Flip(raw[|raw| - 4..])))
  {
    hide IsBeacon, Flip, DecodeBody, HeaderOf;
  }

  lemma LookupInNothing(field: string)
    ensures Lookup([], field) == Ok(Null)
  {
  }

  /** The elements so far, followed by those of the rest, are all the elements. */
  ghost predicate Parsing(all: Result<seq<Element>>, front: seq<Element>, rest: seq<bv8>) {
    all == Prepend(front, ParseElements(rest))
  }

  lemma ParsingStarts(body: seq<bv8>)
    ensures Parsing(ParseElements(body), [], body)
  {
    hide ParseElements;
    if ParseElements(body).Ok? {
      assert [] + ParseElements(body).value == ParseElements(body).value;
    }
  }

  lemma ParsingStops(all: Result<seq<Element>>, front: seq<Element>, rest: seq<bv8>)
    requires Parsing(all, front, rest) && Stops(rest)
    ensures all == Ok(front)
  {
    assert front + [] == front;
  }

  /** An element header that is not a reason to stop. */
  ghost predicate StartsWith(rest: seq<bv8>, id: bv8, length: nat) {
    !Stops(rest) && rest[0] == id && LengthOf(rest) == length
  }

  lemma ParsingFails(all: Result<seq<Element>>, front: seq<Element>, rest: seq<bv8>, length: nat)
    requires Parsing(all, front, rest) && !Stops(rest) && LengthOf(rest) == length
    ensures length >= |rest| - 1 ==> all == Err(ElementOutsideBuffer)
  {
  }

  lemma ParsingGoesOn(all: Result<seq<Element>>, front: seq<Element>, rest: seq<bv8>, length: nat)
    requires Parsing(all, front, rest) && !Stops(rest) && LengthOf(rest) == length && length < |rest| - 1
    ensures Parsing(all, front + [Element(rest[0], rest[2..2 + length])], rest[2 + length..])
  {
    ParseStep(rest, length);
    hide Stops, ParseElements;
    PrependTwice(front, Element(rest[0], rest[2..2 + length]), ParseElements(rest[2 + length..]));
  }

  lemma StopsWhen(rest: seq<bv8>, length: int)
    requires |rest| >= 2 ==> LengthOf(rest) == length
    ensures Stops(rest) <==> |rest| < 2 || length == 0 || length >= |rest|
    ensures !Stops(rest) ==> length >= 0 && LengthOf(rest) == length
    ensures OneByteLate(rest) <==> |rest| >= 2 && length != 0 && length == |rest| - 1
  {
  }

  lemma ParseStep(rest: seq<bv8>, length: nat)
    requires !Stops(rest) && LengthOf(rest) == length
    ensures length == |rest| - 1 ==> ParseElements(rest) == Err(ElementOutsideBuffer)
    ensures length < |rest| - 1 ==>
              ParseElements(rest) ==
              Prepend([Element(rest[0], rest[2..2 + length])], ParseElements(rest[2 + length..]))
  {
  }

  lemma PrependTwice(front: seq<Element>, e: Element, rest: Result<seq<Element>>)
    ensures Prepend(front, Prepend([e], rest)) == Prepend(front + [e], rest)
  {
    if rest.Ok? {
      assert front + ([e] + rest.value) == front + [e] + rest.value;
    }
  }

  lemma Advance(all: Result<seq<Element>>, front: seq<Element>, buffer: array<bv8>, at: nat, end: nat,
                id: bv8, length: nat)
    requires at <= end <= buffer.Length && Parsing(all, front, buffer[at..end])
    requires StartsWith(buffer[at..end], id, length)
    ensures at + 2 + length > end ==> all == Err(ElementOutsideBuffer)
    ensures at + 2 + length <= end ==>
              Parsing(all, front + [Element(id, buffer[at + 2..at + 2 + length])], buffer[at + 2 + length..end])
  {
    hide Parsing, Stops;
    var rest := buffer[at..end];
    ParsingFails(all, front, rest, length);
    if at + 2 + length <= end {
      PartOf(buffer, at, end, 2, 2 + length);
      PartOf(buffer, at, end, 2 + length, end - at);
      ParsingGoesOn(all, front, rest, length);
    }
  }

  lemma PartOf(s: array<bv8>, a: nat, b: nat, i: nat, j: nat)
    requires a <= b <= s.Length && i <= j <= b - a
    ensures s[a..b][i..j] == s[a + i..a + j]
  {
    var l, r := s[a..b][i..j], s[a + i..a + j];
    assert forall k :: 0 <= k < |r| ==> l[k] == r[k];
  }
}
