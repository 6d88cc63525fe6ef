/** clients/land/proto.js: the Writer, the reader, and what reading gives back of
    what was written. */
module LandProto {
  import opened Basics
  import opened Wire

  // ------------------------------------------------------------------ writing

  /** What Writer.varint puts on the wire for a value: int64 negatives are moved
      up by 2^64 first. */
  function Written(v: int): int {
    if v < 0 then v + TWO_TO_64 else v
  }

  function VarintBytes(v: int): seq<byte> {
    Groups(Written(v))
  }

  /** `(field << 3) | wire` in 32-bit arithmetic; the shift leaves three zero bits. */
  function Tag(field: nat, wire: nat): int
    requires wire < 8
  {
    ToInt32(field * 8) + wire
  }

  /** One call on a Writer, with a nested message as the calls its callback makes.
      A string is the bytes of its UTF-8 encoding. */
  datatype Node =
    | NumField(field: nat, value: int)
    | BoolField(field: nat, flag: bool)
    | BytesField(field: nat, payload: seq<byte>)
    | MsgField(field: nat, children: seq<Node>)

  /** proto3 does not transmit a default: a zero, false, an empty payload, and so
      a nested message none of whose own fields is transmitted. */
  predicate IsDefault(n: Node)
    decreases n
  {
    match n
    case NumField(_, v) => v == 0
    case BoolField(_, b) => !b
    case BytesField(_, p) => p == []
    case MsgField(_, c) => AllDefault(c)
  }

  predicate AllDefault(ns: seq<Node>)
    decreases ns
  {
    ns == [] || (IsDefault(ns[0]) && AllDefault(ns[1..]))
  }

  function Framed(field: nat, payload: seq<byte>): seq<byte> {
    VarintBytes(Tag(field, 2)) + VarintBytes(|payload|) + payload
  }

  function Delimited(field: nat, payload: seq<byte>): seq<byte> {
    if payload == [] then [] else Framed(field, payload)
  }

  function Scalar(field: nat, v: int): seq<byte> {
    VarintBytes(Tag(field, 0)) + VarintBytes(v)
  }

  function Encode(n: Node): seq<byte>
    decreases n
  {
    match n
    case NumField(f, v) => if v == 0 then [] else Scalar(f, v)
    case BoolField(f, b) => if b then Scalar(f, 1) else []
    case BytesField(f, p) => Delimited(f, p)
    case MsgField(f, c) => Delimited(f, EncodeAll(c))
  }

  function EncodeAll(ns: seq<Node>): seq<byte>
    decreases ns
  {
    if ns == [] then [] else Encode(ns[0]) + EncodeAll(ns[1..])
  }

  /** The growable byte sink. */
  class Writer {
    var bytes: seq<byte>

    constructor ()
      ensures bytes == []
    {
      bytes := [];
    }

    method PutVarint(value: int)
      modifies this
      ensures bytes == old(bytes) + VarintBytes(value)
    {
      var v := value;
      if v < 0 { v := v + TWO_TO_64; }
      ghost var start, written := bytes, v;
      // The do-while of the source: its body once, then again while something is left.
      bytes, v := bytes + [Group(v)], v / 128;
      Assoc(start, [Group(written)], Remaining(v));
      while v > 0
        invariant start + Groups(written) == bytes + Remaining(v)
        decreases v
      {
        Assoc(bytes, [Group(v)], Remaining(v / 128));
        bytes, v := bytes + [Group(v)], v / 128;
      }
    }

    method PutTag(field: nat, wire: nat)
      requires wire < 8
      modifies this
      ensures bytes == old(bytes) + VarintBytes(Tag(field, wire))
    {
      PutVarint(ToInt32(field * 8) + wire);
    }

    method PutBytes(field: nat, payload: seq<byte>)
      modifies this
      ensures bytes == old(bytes) + Delimited(field, payload)
    {
      if payload == [] { return; }
      PutTag(field, 2);
      PutVarint(|payload|);
      ghost var head := bytes;
      for k := 0 to |payload|
        invariant bytes == head + payload[..k]
      {
        bytes := bytes + [payload[k]];
      }
      Assoc(old(bytes), VarintBytes(Tag(field, 2)), VarintBytes(|payload|));
      Assoc(old(bytes), VarintBytes(Tag(field, 2)) + VarintBytes(|payload|), payload);
    }

    method PutNum(field: nat, value: int)
      modifies this
      ensures bytes == old(bytes) + Encode(NumField(field, value))
    {
      if value == 0 { return; }
      PutTag(field, 0);
      PutVarint(value);
      Assoc(old(bytes), VarintBytes(Tag(field, 0)), VarintBytes(value));
    }

    method PutBool(field: nat, value: bool)
      modifies this
      ensures bytes == old(bytes) + Encode(BoolField(field, value))
    {
      if !value { return; }
      PutTag(field, 0);
      PutVarint(1);
      Assoc(old(bytes), VarintBytes(Tag(field, 0)), VarintBytes(1));
    }

    method Put(n: Node)
      modifies this
      ensures bytes == old(bytes) + Encode(n)
      decreases n
    {
      hide Delimited, Scalar;
      match n {
        case NumField(f, v) => PutNum(f, v);
        case BoolField(f, b) => PutBool(f, b);
        case BytesField(f, p) => PutBytes(f, p);
        case MsgField(f, c) =>
          var inner := new Writer();
          inner.PutAll(c);
          assert inner.bytes == EncodeAll(c);
          PutBytes(f, inner.bytes);
      }
    }

    /** Any sequence of calls, each nested message through a Writer of its own. */
    method PutAll(ns: seq<Node>)
      modifies this
      ensures bytes == old(bytes) + EncodeAll(ns)
      decreases ns
    {
      if ns == [] { return; }
      Put(ns[0]);
      PutAll(ns[1..]);
      Assoc(old(bytes), Encode(ns[0]), EncodeAll(ns[1..]));
    }
  }

  // ------------------------------------------------------------------ reading

  /** The reader's varint at the head of s, k bytes of it already taken. */
  function Varint(s: seq<byte>, k: nat): (r: Result<Taken>)
    ensures r.Ok? ==> 1 <= r.value.used <= |s|
    decreases |s|
  {
    if s == [] then Err(TruncatedVarint)
    else if s[0] < 128 then Ok(Taken(s[0], 1))
    else if k >= 10 then Err(VarintTooLong)
    else match Varint(s[1..], k + 1)
      case Ok(t) => Ok(Taken(s[0] - 128 + 128 * t.value, t.used + 1))
      case Err(e) => Err(e)
  }

  /** The switch in `read`, after a key that took j bytes. */
  function Entry(s: seq<byte>, j: nat, field: nat, wire: nat): (r: Result<Step>)
    requires 1 <= j <= |s|
    ensures r.Ok? ==> r.value.used >= 1
  {
    if wire == 0 then
      match Varint(s[j..], 0)
      case Err(e) => Err(e)
      case Ok(v) => Ok(Step(Some(Record(field, Num(v.value))), j + v.used))
    else if wire == 2 then
      match Varint(s[j..], 0)
      case Err(e) => Err(e)
      case Ok(size) =>
        var at, len := j + size.used, ToNumber(size.value);
        if at + len > |s| then Err(TruncatedField)
        else Ok(Step(Some(Record(field, Raw(s[at..at + len]))), at + len))
    else if wire == 5 then Ok(Step(None, j + 4))
    else if wire == 1 then Ok(Step(None, j + 8))
    else Err(UnsupportedWireType(wire))
  }

  /** One turn of the loop in `read`. */
  function Next(s: seq<byte>): (r: Result<Step>)
    requires s != []
    ensures r.Ok? ==> r.value.used >= 1
  {
    match Varint(s, 0)
    case Err(e) => Err(e)
    case Ok(key) => var number := ToNumber(key.value); Entry(s, key.used, number % TWO_TO_32 / 8, number % 8)
  }

  /** Every record `read` files, in wire order, or why it throws. */
  function Parse(s: seq<byte>): Result<seq<Record>>
    decreases |s|
  {
    if s == [] then Ok([]) else
    match Next(s)
    case Err(e) => Err(e)
    case Ok(step) => Continued(Filed(step.record), Parse(Drop(s, step.used)))
  }

  lemma ResumeStep(s: seq<byte>, result: nat, k: nat, low: nat)
    requires s != [] && result < Shift(k, 1) && low == s[0] % 128
    ensures result + Shift(k, low) < Shift(k + 1, 1)
    ensures s[0] < 128 ==> Resumed(result, k, Varint(s, k)) == Ok(Taken(result + Shift(k, low), k + 1))
    ensures s[0] >= 128 && k < 10 ==>
      Resumed(result, k, Varint(s, k)) == Resumed(result + Shift(k, low), k + 1, Varint(s[1..], k + 1))
  {
    hide Shift;
    assert low == if s[0] < 128 then s[0] as int else s[0] - 128;
    ResumedOnce(result, k, low, Varint(s[1..], k + 1));
    assert s[0] >= 128 && k < 10 ==> Varint(s, k) == More(low, Varint(s[1..], k + 1));
  }

  /** The closure `varint` inside `read`: it moves the shared index. */
  method ReadVarint(bytes: seq<byte>, start: nat) returns (r: Result<nat>, i: nat)
    requires start <= |bytes|
    ensures match Varint(bytes[start..], 0)
            case Ok(v) => r == Ok(v.value) && i == start + v.used <= |bytes|
            case Err(e) => r == Err(e)
  {
    hide Shift;
    ResumedAtStart(Varint(bytes[start..], 0));
    i := start;
    var result: nat, k: nat := 0, 0;
    while true
      invariant start <= i <= |bytes| && k == i - start <= 10
      invariant result < Shift(k, 1)
      invariant Varint(bytes[start..], 0) == Resumed(result, k, Varint(bytes[i..], k))
      decreases |bytes| - i
    {
      if i >= |bytes| { return Err(TruncatedVarint), i; }
      ResumeStep(bytes[i..], result, k, bytes[i] % 128);
      assert bytes[i..][1..] == bytes[i + 1..];
      var b := bytes[i];
      i := i + 1;
      result := result + Shift(k, b % 128);
      if b < 128 { return Ok(result), i; }
      k := k + 1;
      if k > 10 { return Err(VarintTooLong), i; }
    }
  }

  /** The switch inside `read`: what it files, and where the index goes. */
  method ReadEntry(bytes: seq<byte>, i: nat, j: nat, field: nat, wire: nat) returns (r: Result<Step>)
    requires i < j <= |bytes|
    ensures r == Entry(bytes[i..], j - i, field, wire)
  {
    SliceFrom(bytes, i, j - i, |bytes| - i);
    if wire == 0 {
      var v, at := ReadVarint(bytes, j);
      return if v.Err? then Err(v.error) else Ok(Step(Some(Record(field, Num(v.value))), at - i));
    } else if wire == 2 {
      var size, at := ReadVarint(bytes, j);
      if size.Err? { return Err(size.error); }
      var len := ToNumber(size.value);
      if at + len > |bytes| { return Err(TruncatedField); }
      SliceFrom(bytes, i, at - i, at - i + len);
      return Ok(Step(Some(Record(field, Raw(bytes[at..at + len]))), at - i + len));
    } else if wire == 5 {
      return Ok(Step(None, j - i + 4));
    } else if wire == 1 {
      return Ok(Step(None, j - i + 8));
    } else {
      return Err(UnsupportedWireType(wire));
    }
  }

  method ReadRecord(bytes: seq<byte>, i: nat) returns (r: Result<Step>)
    requires i < |bytes|
    ensures r == Next(bytes[i..])
  {
    var key, j := ReadVarint(bytes, i);
    if key.Err? { return Err(key.error); }
    var number := ToNumber(key.value);
    r := ReadEntry(bytes, i, j, number % TWO_TO_32 / 8, number % 8);
  }

  lemma ContinueStep(bytes: seq<byte>, i: nat, records: seq<Record>)
    requires i < |bytes|
    ensures match Next(bytes[i..])
            case Ok(step) => Continued(records, Parse(Drop(bytes, i)))
                          == Continued(records + Filed(step.record), Parse(Drop(bytes, i + step.used)))
            case Err(e) => Parse(Drop(bytes, i)) == Err(e)
  {
    hide Next;
    var s := bytes[i..];
    if Next(s).Ok? {
      var step := Next(s).value;
      assert Drop(s, step.used) == Drop(bytes, i + step.used);
      ContinuedTwice(records, Filed(step.record), Parse(Drop(s, step.used)));
    }
  }

  lemma ParseNothing()
    ensures Parse([]) == Ok([])
  {
  }

  /** `read`: the fields of a message, keyed by number. */
  method Read(bytes: seq<byte>) returns (r: Result<Fields>)
    ensures match Parse(bytes)
            case Ok(records) => r.Ok? && Denotes(r.value, records)
            case Err(e) => r == Err(e)
  {
    hide Next, Parse, Denotes, Continued, File;
    var fields: Fields := map[];
    var i: nat := 0;
    ghost var records: seq<Record> := [];
    assert Drop(bytes, 0) == bytes;
    NothingDenoted();
    ContinuedFromNothing(Parse(bytes));
    while i < |bytes|
      invariant Denotes(fields, records)
      invariant Parse(bytes) == Continued(records, Parse(Drop(bytes, i)))
      decreases |bytes| - i
    {
      ContinueStep(bytes, i, records);
      var step := ReadRecord(bytes, i);
      if step.Err? {
        ContinuedFailure(records, step.error);
        return Err(step.error);
      }
      FileDenotes(fields, records, step.value.record);
      fields := File(fields, step.value.record);
      records := records + Filed(step.value.record);
      i := i + step.value.used;
    }
    ParseNothing();
    assert Drop(bytes, i) == [];
    ContinuedToEnd(records);
    return Ok(fields);
  }
}
