/** clients/oversight/proto.js: the request encoder, what the same file's decoder
    makes of a request, and land's Writer beside it. */
module OversightEncode {
  import opened Basics
  import opened Wire
  import opened OversightProto
  import opened OversightDecode
  import L = LandProto
  import R = LandRoundTrip
  import T = TwoParsers

  // --------------------------------------------------------------------- writing

  /** A value of a request object; a string is the bytes of its UTF-8 encoding. */
  datatype Input = Absent | Payload(bytes: seq<byte>) | Flag(flag: bool) | Amount(amount: int)

  datatype Member = Member(number: nat, input: Input)

  /** An object's keys, sorted: each once, ascending. */
  predicate Ascending(request: seq<Member>) {
    forall i, j :: 0 <= i < j < |request| ==> request[i].number < request[j].number
  }

  predicate Omitted(input: Input) {
    match input
    case Absent => true
    case Payload(p) => p == []
    case Flag(b) => !b
    case Amount(v) => v == 0
  }

  function WireOf(input: Input): nat {
    if input.Payload? then 2 else 0
  }

  /** The varint that follows the tag. */
  function Head(input: Input): int {
    match input
    case Payload(p) => |p|
    case Amount(v) => v
    case _ => 1
  }

  function Tail(input: Input): seq<byte> {
    if input.Payload? then input.bytes else []
  }

  function EncodeMember(m: Member): Result<seq<byte>> {
    if Omitted(m.input) then Ok([])
    else if L.Tag(m.number, WireOf(m.input)) < 0 || Head(m.input) < 0 then Err(NegativeVarint)
    else Ok(Groups(L.Tag(m.number, WireOf(m.input))) + Groups(Head(m.input)) + Tail(m.input))
  }

  function Encode(request: seq<Member>): Result<seq<byte>> {
    if request == [] then Ok([]) else
    match EncodeMember(request[0])
    case Err(e) => Err(e)
    case Ok(bytes) => Prefixed(bytes, Encode(request[1..]))
  }

  /** `writeVarint`, onto the bytes so far. */
  method WriteVarint(bytes: seq<byte>, v: int) returns (r: Result<seq<byte>>)
    ensures r == if v < 0 then Err(NegativeVarint) else Ok(bytes + Groups(v))
  {
    if v < 0 { return Err(NegativeVarint); }
    var n, out := v, bytes;
    while true
      invariant n >= 0 && out + Groups(n) == bytes + Groups(v)
      decreases n
    {
      var b: byte := n % 128;
      Assoc(out, [Group(n)], Remaining(n / 128));
      n := n / 128;
      if n == 0 {
        assert out + [b] + [] == out + [b];
        return Ok(out + [b]);
      }
      out := out + [b + 128];
    }
  }

  /** The branch `encode` takes for one value that is not omitted. */
  method WriteMember(bytes: seq<byte>, m: Member) returns (r: Result<seq<byte>>)
    ensures r == Prefixed(bytes, EncodeMember(m))
  {
    if Omitted(m.input) { assert bytes + [] == bytes; return Ok(bytes); }
    var tag := L.Tag(m.number, WireOf(m.input));
    var head := WriteVarint(bytes, tag);
    if head.Err? { return head; }
    var body := WriteVarint(head.value, Head(m.input));
    if body.Err? { return body; }
    var out := body.value;
    var payload := Tail(m.input);
    for k := 0 to |payload|
      invariant out == body.value + payload[..k]
    {
      out := out + [payload[k]];
    }
    assert payload[..|payload|] == payload;
    Assoc(bytes, Groups(tag), Groups(Head(m.input)));
    Assoc(bytes, Groups(tag) + Groups(Head(m.input)), payload);
    return Ok(out);
  }

  /** `encode`. */
  method EncodeRequest(request: seq<Member>) returns (r: Result<seq<byte>>)
    ensures r == Encode(request)
  {
    var bytes: seq<byte> := [];
    assert Prefixed([], Encode(request)) == Encode(request) by {
      if Encode(request).Ok? { assert [] + Encode(request).value == Encode(request).value; }
    }
    for k := 0 to |request|
      invariant Encode(request) == Prefixed(bytes, Encode(request[k..]))
    {
      assert request[k..][1..] == request[k + 1..];
      var next := WriteMember(bytes, request[k]);
      if next.Err? { return next; }
      PrefixedTwice(bytes, EncodeMember(request[k]).value, Encode(request[k + 1..]));
      bytes := next.value;
    }
    assert bytes + [] == bytes;
    return Ok(bytes);
  }

  /** `encodeSub`: a nested request, or nothing when it is empty. */
  method EncodeSub(number: nat, inner: seq<byte>) returns (r: Result<seq<byte>>)
    ensures r == EncodeMember(Member(number, Payload(inner)))
  {
    r := WriteMember([], Member(number, Payload(inner)));
    if r.Ok? { assert [] + r.value == r.value; }
    assert EncodeMember(Member(number, Payload(inner))).Ok? ==>
      [] + EncodeMember(Member(number, Payload(inner))).value == EncodeMember(Member(number, Payload(inner))).value;
  }

  function Flat(parts: seq<seq<byte>>): seq<byte> {
    if parts == [] then [] else parts[0] + Flat(parts[1..])
  }

  /** `concat`: one buffer of the total length, filled part by part. */
  method Concat(parts: seq<seq<byte>>) returns (joined: seq<byte>)
    ensures joined == Flat(parts)
  {
    var total := 0;
    for k := 0 to |parts|
      invariant total + |Flat(parts[k..])| == |Flat(parts)|
    {
      assert parts[k..][1..] == parts[k + 1..];
      total := total + |parts[k]|;
    }
    var out := new byte[total];
    var off := 0;
    for k := 0 to |parts|
      invariant 0 <= off <= total && off + |Flat(parts[k..])| == total
      invariant out[..off] + Flat(parts[k..]) == Flat(parts)
    {
      assert parts[k..][1..] == parts[k + 1..];
      Fill(out, off, parts[k]);
      Assoc(out[..off], parts[k], Flat(parts[k + 1..]));
      off := off + |parts[k]|;
    }
    assert out[..off] == out[..];
    joined := out[..];
  }

  /** `out.set(p, off)`. */
  method Fill(out: array<byte>, off: nat, part: seq<byte>)
    requires off + |part| <= out.Length
    modifies out
    ensures out[..off + |part|] == old(out[..off]) + part
  {
    for k := 0 to |part|
      invariant out[..off + k] == old(out[..off]) + part[..k]
    {
      out[off + k] := part[k];
    }
  }

  // ------------------------------------------------------ what encode refuses

  lemma TagSign(number: nat, wire: nat)
    requires number < 0x2000_0000 && wire < 8
    ensures if number < 0x1000_0000 then L.Tag(number, wire) == 8 * number + wire else L.Tag(number, wire) < 0
  {
  }

  ghost predicate Writable(m: Member) {
    Omitted(m.input) || (m.number < 0x1000_0000 && (m.input.Amount? ==> m.input.amount >= 0))
  }

  /** Of the field numbers protobuf allows, encode throws on exactly the requests that
      carry a negative value or a field number from 2^28 on. Land's Writer does not
      throw: it writes the tag moved up by 2^64. */
  lemma {:induction false} EncodesExactly(request: seq<Member>)
    requires forall i :: 0 <= i < |request| ==> request[i].number < 0x2000_0000
    ensures Encode(request).Ok? <==> forall i :: 0 <= i < |request| ==> Writable(request[i])
  {
    if request != [] {
      var m := request[0];
      TagSign(m.number, WireOf(m.input));
      EncodesExactly(request[1..]);
      assert forall i :: 0 < i < |request| ==> request[i] == request[1..][i - 1];
    }
  }

  // ------------------------------------------------------ two encoders, one form

  function AsNode(m: Member): L.Node {
    match m.input
    case Absent => L.BytesField(m.number, [])
    case Payload(p) => L.BytesField(m.number, p)
    case Flag(b) => L.BoolField(m.number, b)
    case Amount(v) => L.NumField(m.number, v)
  }

  function AsNodes(request: seq<Member>): seq<L.Node> {
    if request == [] then [] else [AsNode(request[0])] + AsNodes(request[1..])
  }

  /** Whatever encode accepts, land's Writer writes byte for byte the same. */
  lemma {:induction false} EncodersAgree(request: seq<Member>)
    requires Encode(request).Ok?
    ensures L.EncodeAll(AsNodes(request)) == Encode(request).value
  {
    if request != [] {
      var m := request[0];
      EncodersAgree(request[1..]);
      assert AsNodes(request)[1..] == AsNodes(request[1..]);
      if !Omitted(m.input) && !m.input.Payload? {
        var head := Groups(L.Tag(m.number, 0)) + Groups(Head(m.input));
        assert head + [] == head;
      }
    }
  }

  // ------------------------------------------------------------------ round trip

  /** The record a transmitted member is read as. */
  function Sent(m: Member): seq<Record> {
    if Omitted(m.input) then [] else
    [Record(m.number, if m.input.Payload? then Raw(m.input.bytes) else Num(if m.input.Amount? && m.input.amount >= 0 then m.input.amount else 1))]
  }

  function SentAll(request: seq<Member>): seq<Record> {
    if request == [] then [] else Sent(request[0]) + SentAll(request[1..])
  }

  /** What the reader takes: a field number, a varint of ten bytes at most, and a
      length that a Number holds. */
  predicate Readable(m: Member) {
    1 <= m.number < 0x1000_0000 &&
    (m.input.Amount? ==> 0 <= m.input.amount < Shift(10, 1)) && (m.input.Payload? ==> |m.input.bytes| < TWO_TO_53)
  }

  lemma GroupsReadBack(v: nat, rest: seq<byte>)
    requires v < Shift(10, 1)
    ensures Varint(Groups(v) + rest, 0) == Ok(Taken(v, |Groups(v)|))
  {
    R.BigShift();
    R.GroupsRead(v, 0, rest);
    T.GroupsLength(v, 10);
    T.VarintsAgree(Groups(v) + rest, 0);
  }

  lemma TagReadBack(number: nat, wire: nat, rest: seq<byte>)
    requires 1 <= number < 0x1000_0000 && wire < 8
    ensures L.Tag(number, wire) == 8 * number + wire
    ensures Varint(Groups(8 * number + wire) + rest, 0) == Ok(Taken(8 * number + wire, |Groups(8 * number + wire)|))
    ensures ToNumber((8 * number + wire) / 8) == number && (8 * number + wire) % 8 == wire
  {
    R.BigShift();
    GroupsReadBack(8 * number + wire, rest);
  }

  /** After the tag: the entry, read from where the tag ends. */
  lemma EntryReadBack(tag: seq<byte>, m: Member, rest: seq<byte>)
    requires Readable(m) && !Omitted(m.input) && tag != []
    ensures Entry(tag + (Groups(Head(m.input)) + (Tail(m.input) + rest)), |tag|, m.number, WireOf(m.input))
      == Ok(Step(Some(Sent(m)[0]), |tag| + |Groups(Head(m.input))| + |Tail(m.input)|))
  {
    hide Varint, Groups, ToNumber, Shift;
    R.BigShift();
    var head, p := Groups(Head(m.input)), Tail(m.input);
    GroupsReadBack(Head(m.input), p + rest);
    R.Suffix(tag, head + (p + rest));
    Assoc(tag, head, p + rest);
    Assoc(tag + head, p, rest);
    R.Middle(tag + head, p, rest);
    assert ToNumber(|p|) == |p|;
  }

  lemma MemberReadBack(m: Member, rest: seq<byte>)
    requires Readable(m) && !Omitted(m.input)
    ensures EncodeMember(m).Ok? && EncodeMember(m).value != []
    ensures Next(EncodeMember(m).value + rest) == Ok(Step(Some(Sent(m)[0]), |EncodeMember(m).value|))
  {
    hide Varint, Groups, ToNumber, Shift, Entry;
    var wire := WireOf(m.input);
    var tag, head, p := Groups(8 * m.number + wire), Groups(Head(m.input)), Tail(m.input);
    TagReadBack(m.number, wire, head + (p + rest));
    EntryReadBack(tag, m, rest);
    Assoc(tag + head, p, rest);
    Assoc(tag, head, p + rest);
  }

  /** A request reads back as exactly what was put in it, in order. */
  lemma {:induction false} RequestReadsBack(request: seq<Member>)
    requires forall i :: 0 <= i < |request| ==> Readable(request[i])
    ensures Encode(request).Ok? && Whole(Encode(request).value)
    ensures Parse(Encode(request).value) == Ok(SentAll(request))
  {
    hide Next, EncodeMember;
    if request != [] {
      var m, rest := request[0], request[1..];
      assert forall i :: 0 <= i < |rest| ==> rest[i] == request[i + 1];
      RequestReadsBack(rest);
      var tail := Encode(rest).value;
      if Omitted(m.input) {
        OmittedMember(m);
        assert [] + tail == tail && [] + SentAll(rest) == SentAll(rest);
      } else {
        MemberReadBack(m, tail);
        R.Suffix(EncodeMember(m).value, tail);
      }
    }
  }

  lemma OmittedMember(m: Member)
    requires Omitted(m.input)
    ensures EncodeMember(m) == Ok([])
  {
  }

  /** A request and a nested one after it, as `concat(encode(a), encodeSub(n, b))`. */
  lemma NestedReadsBack(request: seq<Member>, number: nat, inner: seq<byte>)
    requires (forall i :: 0 <= i < |request| ==> Readable(request[i])) && Readable(Member(number, Payload(inner)))
    ensures Encode(request).Ok? && EncodeMember(Member(number, Payload(inner))).Ok?
    ensures Parse(Encode(request).value + EncodeMember(Member(number, Payload(inner))).value)
      == Ok(SentAll(request) + if inner == [] then [] else [Record(number, Raw(inner))])
  {
    var m := Member(number, Payload(inner));
    RequestReadsBack(request);
    RequestReadsBack([m]);
    assert [m][1..] == [];
    assert EncodeMember(m).value + [] == EncodeMember(m).value && Sent(m) + [] == Sent(m);
    Framing(Encode(request).value, EncodeMember(m).value);
  }

  // ------------------------------------------------------------ against a schema

  function Lookup(request: seq<Member>, number: nat): Input {
    if request == [] then Absent else if request[0].number == number then request[0].input else Lookup(request[1..], number)
  }

  predicate Suits(input: Input, kind: Kind) {
    match input
    case Absent => true
    case Payload(_) => kind.Str? || kind.Bytes?
    case Flag(_) => kind.Bool?
    case Amount(_) => kind.Uint64? || kind.Int64?
  }

  /** The cell is what was given for the field, or its default. */
  ghost predicate GivesBack(cell: Cell, input: Input, kind: Kind) {
    match input
    case Absent => cell == One(Default(kind))
    case Payload(p) => cell == One(Octets(p))
    case Flag(b) => cell == One(Truth(b))
    case Amount(v) => cell.One? && Shows(cell.value, v)
  }

  /** The amount is one that the kind can hold. */
  predicate InRange(input: Input, kind: Kind) {
    input.Amount? && kind.Int64? ==> input.amount < TWO_TO_63
  }

  lemma {:induction false} NotSent(request: seq<Member>, number: nat)
    requires forall i :: 0 <= i < |request| ==> request[i].number != number
    ensures Values(SentAll(request), number) == [] && Lookup(request, number) == Absent
  {
    if request != [] {
      NotSent(request[1..], number);
      ValuesConcat(Sent(request[0]), SentAll(request[1..]), number);
    }
  }

  lemma {:induction false} SentOnce(request: seq<Member>, number: nat)
    requires Ascending(request)
    ensures var input := Lookup(request, number);
      Values(SentAll(request), number) == if Omitted(input) then [] else [Sent(Member(number, input))[0].value]
  {
    if request != [] {
      var m := request[0];
      ValuesConcat(Sent(m), SentAll(request[1..]), number);
      assert !Omitted(m.input) ==> Sent(m)[1..] == [];
      if m.number == number { NotSent(request[1..], number); } else { SentOnce(request[1..], number); }
    }
  }

  lemma AmountShown(v: nat, kind: Kind)
    requires kind.Uint64? || kind.Int64?
    ensures var r := ReadOne(Num(v), kind); r.Ok? && (Shows(r.value, v) <==> kind.Uint64? || v < TWO_TO_63)
    ensures v == 0 ==> Default(kind) == ReadOne(Num(v), kind).value
  {
    IntegersShown(v);
  }

  lemma CellReadsBack(request: seq<Member>, spec: Spec)
    requires Ascending(request) && !spec.repeated && Suits(Lookup(request, spec.number), spec.kind)
    requires Lookup(request, spec.number).Amount? ==> Lookup(request, spec.number).amount >= 0
    ensures var cell, input := ReadCell(Values(SentAll(request), spec.number), spec), Lookup(request, spec.number);
      cell.Ok? && (GivesBack(cell.value, input, spec.kind) <==> InRange(input, spec.kind))
  {
    var input := Lookup(request, spec.number);
    SentOnce(request, spec.number);
    if input.Amount? { AmountShown(input.amount, spec.kind); }
  }

  /** Decoded against any schema of its kinds, a request gives each field back what it
      was given, and every other its default, exactly when the amount is one the kind
      can hold: an int64 from 2^63 on comes back as another number. */
  lemma RequestDecodes(request: seq<Member>, schema: seq<Spec>)
    requires Ascending(request) && forall i :: 0 <= i < |request| ==> Readable(request[i])
    requires forall i :: 0 <= i < |schema| ==> !schema[i].repeated && Suits(Lookup(request, schema[i].number), schema[i].kind)
    ensures Encode(request).Ok? && Decode(Encode(request).value, schema).Ok?
    ensures |Decode(Encode(request).value, schema).value| == |schema|
    ensures forall i :: 0 <= i < |schema| ==>
      (GivesBack(Decode(Encode(request).value, schema).value[i], Lookup(request, schema[i].number), schema[i].kind)
       <==> InRange(Lookup(request, schema[i].number), schema[i].kind))
  {
    hide ReadCell, GivesBack, InRange;
    RequestReadsBack(request);
    DecodeCells(SentAll(request), schema);
    forall i | 0 <= i < |schema|
      ensures var cell, input := ReadCell(Values(SentAll(request), schema[i].number), schema[i]), Lookup(request, schema[i].number);
        cell.Ok? && (GivesBack(cell.value, input, schema[i].kind) <==> InRange(input, schema[i].kind))
    {
      LookedUp(request, schema[i].number);
      CellReadsBack(request, schema[i]);
    }
  }

  lemma {:induction false} LookedUp(request: seq<Member>, number: nat)
    requires forall i :: 0 <= i < |request| ==> Readable(request[i])
    ensures Lookup(request, number).Amount? ==> Lookup(request, number).amount >= 0
  {
    if request != [] && request[0].number != number { LookedUp(request[1..], number); }
  }
}
