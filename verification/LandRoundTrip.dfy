/** Reading back what a Writer wrote: clients/land/proto.js:30-182. */
module LandRoundTrip {
  import opened Basics
  import opened Wire
  import opened LandProto

  // ------------------------------------------------------------------ varints

  /** With k groups already read, eleven are the most the reader takes. */
  lemma {:induction false} GroupsRead(v: nat, k: nat, rest: seq<byte>)
    requires k <= 10
    ensures Varint(Groups(v) + rest, k) ==
      if v < Shift(11 - k, 1) then Ok(Taken(v, |Groups(v)|)) else Err(VarintTooLong)
    decreases v
  {
    var q, low := v / 128, v % 128;
    Assoc([Group(v)], Remaining(q), rest);
    if q == 0 {
      VarintHead(low, Remaining(q) + rest, k);
    } else {
      VarintHead(low + 128, Remaining(q) + rest, k);
      if k < 10 { GroupsRead(q, k + 1, rest); }
    }
  }

  lemma VarintHead(b: byte, tail: seq<byte>, k: nat)
    ensures Varint([b] + tail, k) ==
      if b < 128 then Ok(Taken(b, 1))
      else if k >= 10 then Err(VarintTooLong)
      else match Varint(tail, k + 1)
        case Ok(t) => Ok(Taken(b - 128 + 128 * t.value, t.used + 1))
        case Err(e) => Err(e)
  {
    assert ([b] + tail)[1..] == tail;
  }

  /** The reader recovers a written value exactly when that value, after the
      adjustment for a negative one, is in [0, 2^77). */
  lemma VarintReadsBack(v: int, rest: seq<byte>)
    ensures var r := Varint(VarintBytes(v) + rest, 0);
      r.Ok? && r.value.value == Written(v) && r.value.used == |VarintBytes(v)|
      <==> 0 <= Written(v) < Shift(11, 1)
  {
    if Written(v) >= 0 { GroupsRead(Written(v), 0, rest); }
  }

  // ------------------------------------------------------------- message trees

  /** What the reader can represent: field numbers below 2^28, varints below 2^77
      and lengths a Number holds exactly. */
  predicate Fits(n: Node)
    decreases n
  {
    n.field < 0x1000_0000 &&
    match n
    case NumField(_, v) => 0 <= Written(v) < Shift(11, 1)
    case BoolField(_, _) => true
    case BytesField(_, p) => |p| < TWO_TO_53
    case MsgField(_, c) => AllFit(c) && |EncodeAll(c)| < TWO_TO_53
  }

  predicate AllFit(ns: seq<Node>)
    decreases ns
  {
    ns == [] || (Fits(ns[0]) && AllFit(ns[1..]))
  }

  /** v is what was written for n; for a nested message, bytes that in turn read
      as its calls. */
  ghost predicate Holds(v: Value, n: Node)
    decreases n, 0
  {
    match n
    case NumField(_, x) => v.Num? && v.num == Written(x)
    case BoolField(_, b) => v == Num(if b then 1 else 0)
    case BytesField(_, p) => v == Raw(p)
    case MsgField(_, c) => v.Raw? && ReadsAs(v.bytes, c)
  }

  /** The records are those of the transmitted calls, in order. */
  ghost predicate Match(records: seq<Record>, ns: seq<Node>)
    decreases ns, 0
  {
    if ns == [] then records == []
    else if IsDefault(ns[0]) then Match(records, ns[1..])
    else records != [] && records[0].field == ns[0].field && Holds(records[0].value, ns[0]) && Match(records[1..], ns[1..])
  }

  ghost predicate ReadsAs(s: seq<byte>, ns: seq<Node>)
    decreases ns, 1
  {
    Parse(s).Ok? && Match(Parse(s).value, ns)
  }

  /** Nothing is transmitted exactly when everything is a default: an all-default
      nested message disappears, even as an entry of a repeated field. */
  lemma {:induction false} EmptyEncoding(ns: seq<Node>)
    ensures EncodeAll(ns) == [] <==> AllDefault(ns)
    decreases ns
  {
    if ns != [] {
      if ns[0].MsgField? { EmptyEncoding(ns[0].children); }
      EmptyEncoding(ns[1..]);
    }
  }

  lemma TagRead(field: nat, wire: nat, rest: seq<byte>)
    requires field < 0x1000_0000 && wire < 8
    ensures Varint(VarintBytes(Tag(field, wire)) + rest, 0) == Ok(Taken(field * 8 + wire, |VarintBytes(Tag(field, wire))|))
    ensures ToNumber(field * 8 + wire) % TWO_TO_32 / 8 == field && ToNumber(field * 8 + wire) % 8 == wire
  {
    hide Groups, Varint, Shift;
    BigShift();
    GroupsRead(field * 8 + wire, 0, rest);
  }

  lemma BigShift()
    ensures Shift(11, 1) == 0x2000_0000_0000_0000_0000
    ensures Shift(10, 1) == 0x40_0000_0000_0000_0000
  {
    assert Shift(4, 1) == 0x1000_0000;
    assert Shift(8, 1) == 0x100_0000_0000_0000;
  }

  lemma ScalarRead(field: nat, v: int, rest: seq<byte>)
    requires field < 0x1000_0000 && 0 <= Written(v) < Shift(11, 1)
    ensures Next(Scalar(field, v) + rest) == Ok(Step(Some(Record(field, Num(Written(v)))), |Scalar(field, v)|))
  {
    var tag, body := VarintBytes(Tag(field, 0)), VarintBytes(v);
    Assoc(tag, body, rest);
    TagRead(field, 0, body + rest);
    GroupsRead(Written(v), 0, rest);
    assert (tag + (body + rest))[|tag|..] == body + rest;
  }

  lemma FramedRead(field: nat, p: seq<byte>, rest: seq<byte>)
    requires field < 0x1000_0000 && |p| < TWO_TO_53
    ensures Next(Framed(field, p) + rest) == Ok(Step(Some(Record(field, Raw(p))), |Framed(field, p)|))
  {
    var tag, size := VarintBytes(Tag(field, 2)), VarintBytes(|p|);
    Assoc(tag, size, p);
    Assoc(tag, size + p, rest);
    Assoc(size, p, rest);
    TagRead(field, 2, size + (p + rest));
    GroupsRead(|p|, 0, p + rest);
    BigShift();
    Suffix(tag, size + (p + rest));
    Middle(tag + size, p, rest);
  }

  lemma Suffix<T>(a: seq<T>, b: seq<T>)
    ensures (a + b)[|a|..] == b
  {
  }

  lemma Middle<T>(a: seq<T>, b: seq<T>, c: seq<T>)
    ensures (a + b + c)[|a|..|a| + |b|] == b
  {
  }

  /** One transmitted call reads as one record of its own field. */
  lemma NodeRead(n: Node, rest: seq<byte>)
    requires Fits(n) && !IsDefault(n)
    ensures Encode(n) != []
    ensures var next := Next(Encode(n) + rest);
      next.Ok? && next.value.used == |Encode(n)| && next.value.record.Some? &&
      var record := next.value.record.value;
      record.field == n.field &&
      (if n.MsgField? then record.value == Raw(EncodeAll(n.children)) else Holds(record.value, n))
  {
    match n
    case NumField(f, v) => ScalarRead(f, v, rest);
    case BoolField(f, b) => BigShift(); ScalarRead(f, 1, rest);
    case BytesField(f, p) => FramedRead(f, p, rest);
    case MsgField(f, c) => EmptyEncoding(c); FramedRead(f, EncodeAll(c), rest);
  }

  /** read(write(m)) does not throw and gives exactly what was written. */
  lemma {:induction false} RoundTrip(ns: seq<Node>)
    requires AllFit(ns)
    ensures ReadsAs(EncodeAll(ns), ns)
    decreases ns
  {
    if ns == [] { return; }
    var n, rest := ns[0], EncodeAll(ns[1..]);
    RoundTrip(ns[1..]);
    if IsDefault(n) {
      if n.MsgField? { EmptyEncoding(n.children); }
      assert Encode(n) + rest == rest;
    } else {
      NodeRead(n, rest);
      if n.MsgField? { RoundTrip(n.children); }
      assert (Encode(n) + rest)[|Encode(n)|..] == rest;
      var record := Next(Encode(n) + rest).value.record.value;
      assert ([record] + Parse(rest).value)[1..] == Parse(rest).value;
    }
  }

  // ----------------------------------------------------------------- per field

  /** The transmitted calls on one field number, in order. */
  function Sent(ns: seq<Node>, field: nat): seq<Node> {
    if ns == [] then []
    else if ns[0].field == field && !IsDefault(ns[0]) then [ns[0]] + Sent(ns[1..], field)
    else Sent(ns[1..], field)
  }

  lemma {:induction false} FieldMatch(records: seq<Record>, ns: seq<Node>, field: nat)
    requires Match(records, ns)
    ensures |Values(records, field)| == |Sent(ns, field)|
    ensures forall i :: 0 <= i < |Sent(ns, field)| ==> Holds(Values(records, field)[i], Sent(ns, field)[i])
  {
    if ns != [] {
      FieldMatch(if IsDefault(ns[0]) then records else records[1..], ns[1..], field);
    }
  }

  /** Per field number: exactly the values written, in the order written. */
  lemma FieldRoundTrip(ns: seq<Node>, field: nat)
    requires AllFit(ns)
    ensures Parse(EncodeAll(ns)).Ok?
    ensures var got := Values(Parse(EncodeAll(ns)).value, field);
      |got| == |Sent(ns, field)| && forall i :: 0 <= i < |got| ==> Holds(got[i], Sent(ns, field)[i])
  {
    RoundTrip(ns);
    FieldMatch(Parse(EncodeAll(ns)).value, ns, field);
  }

  /** `first(f, num) ?? dflt`, as `u64`, `u32`, `bool`, `str` and `bytes` read a field. */
  function FirstOr(values: seq<Value>, dflt: Value): Value {
    if values == [] then dflt else values[0]
  }

  /** A field written once reads back as the value given to the Writer, including
      a default that never reached the wire; a nested message is null exactly when
      all of it is default. */
  lemma SingularReadsBack(before: seq<Node>, n: Node, after: seq<Node>)
    requires AllFit(before + [n] + after)
    requires Sent(before, n.field) == [] && Sent(after, n.field) == []
    ensures Parse(EncodeAll(before + [n] + after)).Ok?
    ensures var got := Values(Parse(EncodeAll(before + [n] + after)).value, n.field);
      match n
      case NumField(_, v) => FirstOr(got, Num(0)).Num? && FirstOr(got, Num(0)).num == if v < 0 then v + TWO_TO_64 else v
      case BoolField(_, b) => FirstOr(got, Num(0)) == Num(if b then 1 else 0)
      case BytesField(_, p) => FirstOr(got, Raw([])) == Raw(p)
      case MsgField(_, c) => if AllDefault(c) then got == [] else |got| == 1 && got[0].Raw? && ReadsAs(got[0].bytes, c)
  {
    var ns := before + [n] + after;
    FieldRoundTrip(ns, n.field);
    SentConcat(before + [n], after, n.field);
    SentConcat(before, [n], n.field);
  }

  lemma {:induction false} SentConcat(a: seq<Node>, b: seq<Node>, field: nat)
    ensures Sent(a + b, field) == Sent(a, field) + Sent(b, field)
  {
    if a == [] {
      assert a + b == b;
    } else {
      assert (a + b)[1..] == a[1..] + b;
      SentConcat(a[1..], b, field);
    }
  }
}
