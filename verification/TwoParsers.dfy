/** The land and the oversight parser, compared on every buffer. */
module TwoParsers {
  import opened Basics
  import opened Wire
  import L = LandProto
  import R = LandRoundTrip
  import F = LandFraming
  import O = OversightProto
  import D = OversightDecode

  /** Every tag is below 2^32, where land's `>>> 3` and oversight's `>> 3n` agree. */
  predicate SmallTags(s: seq<byte>)
    decreases |s|
  {
    s == [] ||
    (L.Varint(s, 0).Ok? && L.Varint(s, 0).value.value < TWO_TO_32 &&
     (L.Next(s).Ok? ==> SmallTags(Drop(s, L.Next(s).value.used))))
  }

  /** What oversight demands and land does not: no field number zero, and no
      varint of eleven bytes. */
  predicate StrictNext(s: seq<byte>)
    requires s != [] && L.Varint(s, 0).Ok?
  {
    var key := L.Varint(s, 0).value;
    key.used <= 10 && key.value >= 8 &&
    (key.value % 8 == 0 || key.value % 8 == 2 ==>
       L.Varint(s[key.used..], 0).Ok? ==> L.Varint(s[key.used..], 0).value.used <= 10)
  }

  predicate Strict(s: seq<byte>)
    decreases |s|
  {
    s == [] ||
    (L.Varint(s, 0).Ok? && StrictNext(s) && (L.Next(s).Ok? ==> Strict(Drop(s, L.Next(s).value.used))))
  }

  /** Land keeps varints and length-delimited entries and steps over the others. */
  function Kept(records: seq<Record>): seq<Record> {
    if records == [] then []
    else if records[0].value.Fixed? then Kept(records[1..])
    else [records[0]] + Kept(records[1..])
  }

  lemma {:induction false} VarintsAgree(s: seq<byte>, k: nat)
    requires k <= 10
    ensures O.Varint(s, k).Ok? <==> L.Varint(s, k).Ok? && k + L.Varint(s, k).value.used <= 10
    ensures O.Varint(s, k).Ok? ==> O.Varint(s, k) == L.Varint(s, k)
    decreases |s|
  {
    if s != [] && k <= 9 { VarintsAgree(s[1..], k + 1); }
  }

  lemma NextsAgree(s: seq<byte>)
    requires s != [] && L.Varint(s, 0).Ok? && L.Varint(s, 0).value.value < TWO_TO_32
    ensures O.Next(s).Ok? <==> L.Next(s).Ok? && StrictNext(s)
    ensures O.Next(s).Ok? ==> O.Next(s).value.used == L.Next(s).value.used
    ensures O.Next(s).Ok? ==> Kept(Filed(O.Next(s).value.record)) == Filed(L.Next(s).value.record)
  {
    hide L.Varint, O.Varint, ToNumber;
    var key := L.Varint(s, 0).value;
    VarintsAgree(s, 0);
    VarintsAgree(s[key.used..], 0);
    KeySplit(key.value);
    if O.Next(s).Ok? { assert Filed(O.Next(s).value.record)[1..] == []; }
  }

  lemma KeySplit(key: nat)
    requires key < TWO_TO_32
    ensures ToNumber(key) % TWO_TO_32 / 8 == key / 8 == ToNumber(key / 8)
    ensures ToNumber(key) % 8 == key % 8
    ensures key / 8 == 0 <==> key < 8
  {
  }

  lemma {:induction false} KeptConcat(a: seq<Record>, b: seq<Record>)
    ensures Kept(a + b) == Kept(a) + Kept(b)
  {
    if a == [] {
      assert a + b == b;
    } else {
      assert (a + b)[1..] == a[1..] + b;
      KeptConcat(a[1..], b);
    }
  }

  /** With all tags below 2^32, oversight accepts exactly the buffers that land
      accepts and that are strict, and land then files the same entries in the
      same order, fixed-width ones apart. */
  lemma {:induction false} ParsersAgree(s: seq<byte>)
    requires SmallTags(s)
    ensures O.Parse(s).Ok? <==> L.Parse(s).Ok? && Strict(s)
    ensures O.Parse(s).Ok? ==> L.Parse(s).value == Kept(O.Parse(s).value)
    decreases |s|
  {
    if s == [] { return; }
    NextsAgree(s);
    if O.Next(s).Ok? {
      var rest := Drop(s, O.Next(s).value.used);
      ParsersAgree(rest);
      if O.Parse(rest).Ok? {
        KeptConcat(Filed(O.Next(s).value.record), O.Parse(rest).value);
      }
    }
  }

  /** The entries of one field, without the fixed-width ones. */
  function Plain(values: seq<Value>): seq<Value> {
    if values == [] then []
    else if values[0].Fixed? then Plain(values[1..])
    else [values[0]] + Plain(values[1..])
  }

  lemma {:induction false} KeptValues(records: seq<Record>, field: nat)
    ensures Values(Kept(records), field) == Plain(Values(records, field))
  {
    if records != [] {
      var r, rest := records[0], records[1..];
      KeptValues(rest, field);
      if !r.value.Fixed? { assert ([r] + Kept(rest))[1..] == Kept(rest); }
      if r.field == field { assert ([r.value] + Values(rest, field))[1..] == Values(rest, field); }
    }
  }

  /** Field by field: the same ordered values. */
  lemma FieldsAgree(s: seq<byte>, field: nat)
    requires SmallTags(s) && O.Parse(s).Ok?
    ensures L.Parse(s).Ok?
    ensures Values(L.Parse(s).value, field) == Plain(Values(O.Parse(s).value, field))
  {
    ParsersAgree(s);
    KeptValues(O.Parse(s).value, field);
  }

  // --------------------------------------------------- one console to the other

  /** A message tree both parsers can take: no field number zero, varints below 2^70. */
  predicate Strictly(n: L.Node)
    decreases n
  {
    n.field >= 1 && (n.NumField? ==> L.Written(n.value) < Shift(10, 1)) && (n.MsgField? ==> AllStrictly(n.children))
  }

  predicate AllStrictly(ns: seq<L.Node>)
    decreases ns
  {
    ns == [] || (Strictly(ns[0]) && AllStrictly(ns[1..]))
  }

  lemma {:induction false} GroupsLength(v: nat, n: nat)
    requires n >= 1
    ensures |Groups(v)| <= n <==> v < Shift(n, 1)
    decreases n
  {
    if v >= 128 && n > 1 { GroupsLength(v / 128, n - 1); }
  }

  /** One written record is strict, and its tag is small. */
  lemma WrittenRecord(n: L.Node, rest: seq<byte>)
    requires R.Fits(n) && Strictly(n) && !L.IsDefault(n)
    ensures var s := L.Encode(n) + rest;
      s != [] && L.Varint(s, 0).Ok? && L.Varint(s, 0).value.value < TWO_TO_32 && StrictNext(s)
  {
    R.BigShift();
    if n.MsgField? { R.EmptyEncoding(n.children); }
    var wire := if n.NumField? || n.BoolField? then 0 else 2;
    var p := if n.BytesField? then n.payload else if n.MsgField? then L.EncodeAll(n.children) else [];
    var v := if n.NumField? then n.value else if n.BoolField? then 1 else |p|;
    var tag, body := L.VarintBytes(L.Tag(n.field, wire)), L.VarintBytes(v);
    assert L.Encode(n) == tag + body + p by { assert tag + body + [] == tag + body; }
    Assoc(tag, body, p);
    Assoc(tag, body + p, rest);
    Assoc(body, p, rest);
    StrictParts(n.field, wire, v, p + rest);
  }

  lemma StrictParts(field: nat, wire: nat, v: int, rest: seq<byte>)
    requires 1 <= field < 0x1000_0000 && (wire == 0 || wire == 2) && 0 <= L.Written(v) < Shift(10, 1)
    ensures var s := L.VarintBytes(L.Tag(field, wire)) + (L.VarintBytes(v) + rest);
      s != [] && L.Varint(s, 0).Ok? && L.Varint(s, 0).value.value < TWO_TO_32 && StrictNext(s)
  {
    R.BigShift();
    var tag, body := L.VarintBytes(L.Tag(field, wire)), L.VarintBytes(v);
    R.TagRead(field, wire, body + rest);
    R.GroupsRead(L.Written(v), 0, rest);
    GroupsLength(field * 8 + wire, 10);
    GroupsLength(L.Written(v), 10);
    R.Suffix(tag, body + rest);
  }

  lemma {:induction false} WrittenIsStrict(ns: seq<L.Node>)
    requires R.AllFit(ns) && AllStrictly(ns)
    ensures SmallTags(L.EncodeAll(ns)) && Strict(L.EncodeAll(ns))
    decreases ns
  {
    if ns == [] { return; }
    var n, rest := ns[0], L.EncodeAll(ns[1..]);
    WrittenIsStrict(ns[1..]);
    if L.IsDefault(n) {
      if n.MsgField? { R.EmptyEncoding(n.children); }
      assert L.Encode(n) + rest == rest;
    } else {
      R.NodeRead(n, rest);
      WrittenRecord(n, rest);
      R.Suffix(L.Encode(n), rest);
    }
  }

  /** v is what was written for n, a nested message being bytes that oversight in turn
      splits into its calls. */
  ghost predicate Holds(v: Value, n: L.Node)
    decreases n, 0
  {
    if n.MsgField? then v.Raw? && ReadsAs(v.bytes, n.children) else R.Holds(v, n)
  }

  /** The records are those of the transmitted calls, in order. */
  ghost predicate Match(records: seq<Record>, ns: seq<L.Node>)
    decreases ns, 0
  {
    if ns == [] then records == []
    else if L.IsDefault(ns[0]) then Match(records, ns[1..])
    else records != [] && records[0].field == ns[0].field && Holds(records[0].value, ns[0]) && Match(records[1..], ns[1..])
  }

  /** Oversight's own parser splits the bytes into the transmitted calls and nothing
      else, at every depth. */
  ghost predicate ReadsAs(s: seq<byte>, ns: seq<L.Node>)
    decreases ns, 1
  {
    O.Parse(s).Ok? && Match(O.Parse(s).value, ns)
  }

  /** One transmitted call, split off by oversight. */
  lemma NodeSplit(n: L.Node, rest: seq<byte>)
    requires R.Fits(n) && Strictly(n) && !L.IsDefault(n)
    ensures L.Encode(n) + rest != []
    ensures var next := O.Next(L.Encode(n) + rest);
      next.Ok? && next == L.Next(L.Encode(n) + rest) && next.value.used == |L.Encode(n)| && next.value.record.Some? &&
      var record := next.value.record.value;
      record.field == n.field &&
      (if n.MsgField? then record.value == Raw(L.EncodeAll(n.children)) else R.Holds(record.value, n))
  {
    hide O.Next, L.Next, StrictNext, L.Encode;
    R.NodeRead(n, rest);
    WrittenRecord(n, rest);
    NextsAgree(L.Encode(n) + rest);
    KeptOne(O.Next(L.Encode(n) + rest).value.record);
  }

  lemma KeptOne(record: Option<Record>)
    requires Kept(Filed(record)) != []
    ensures Kept(Filed(record)) == Filed(record)
  {
    assert Filed(record)[1..] == [];
  }

  /** What land's Writer wrote, oversight reads as the same message. */
  lemma {:induction false} OversightReadsWritten(ns: seq<L.Node>)
    requires R.AllFit(ns) && AllStrictly(ns)
    ensures ReadsAs(L.EncodeAll(ns), ns)
    decreases ns
  {
    if ns == [] { return; }
    hide O.Next, L.Encode;
    var n, rest := ns[0], L.EncodeAll(ns[1..]);
    OversightReadsWritten(ns[1..]);
    if L.IsDefault(n) {
      DefaultUnsent(n);
      assert L.Encode(n) + rest == rest;
    } else {
      if n.MsgField? { OversightReadsWritten(n.children); }
      NodeSplit(n, rest);
      R.Suffix(L.Encode(n), rest);
      ParseOn(L.Encode(n) + rest, |L.Encode(n)|, O.Next(L.Encode(n) + rest).value.record.value, rest, n, ns);
    }
  }

  lemma ParseOn(s: seq<byte>, used: nat, record: Record, rest: seq<byte>, n: L.Node, ns: seq<L.Node>)
    requires s != [] && O.Next(s) == Ok(Step(Some(record), used)) && used <= |s| && s[used..] == rest
    requires ns != [] && n == ns[0] && !L.IsDefault(n) && ReadsAs(rest, ns[1..]) && record.field == n.field && Holds(record.value, n)
    ensures ReadsAs(s, ns)
  {
    hide O.Next, Holds;
    assert O.Parse(s) == Ok([record] + O.Parse(rest).value);
    assert ([record] + O.Parse(rest).value)[1..] == O.Parse(rest).value;
  }

  lemma DefaultUnsent(n: L.Node)
    requires L.IsDefault(n)
    ensures L.Encode(n) == []
  {
    if n.MsgField? { R.EmptyEncoding(n.children); }
  }

  // ------------------------------------------------------------ negative int64

  /** A negative int64 takes ten bytes, and readVarint followed by the subtraction
      in asSigned recovers every int64: as a Number when it is below 2^53, as its
      decimal string otherwise. */
  lemma Int64Recovered(v: int, rest: seq<byte>)
    requires -TWO_TO_63 <= v < TWO_TO_63
    ensures v < 0 ==> |L.VarintBytes(v)| == 10
    ensures O.Varint(L.VarintBytes(v) + rest, 0) == Ok(Taken(if v < 0 then v + TWO_TO_64 else v, |L.VarintBytes(v)|))
    ensures var shown := O.AsSigned(O.Varint(L.VarintBytes(v) + rest, 0).value.value);
      if v >= TWO_TO_53 then shown == O.Text(v)
      else shown.Number? && (v >= -TWO_TO_53 ==> shown.number == v)
  {
    R.BigShift();
    var w := L.Written(v);
    R.GroupsRead(w, 0, rest);
    GroupsLength(w, 10);
    GroupsLength(w, 9);
    assert Shift(9, 1) == 0x8000_0000_0000_0000;
    VarintsAgree(L.VarintBytes(v) + rest, 0);
    assert ToNumber(TWO_TO_53) == 2 * Rounded(TWO_TO_53 / 2, false, false);
  }

  // ------------------------------------------- a singular field occurring twice

  /** Where a singular field occurs in both of two joined messages, oversight decodes
      the last entry, as proto3 asks, and land's accessors take the first. */
  lemma RepeatedSingular(a: seq<byte>, b: seq<byte>, spec: D.Spec)
    requires F.OnBoundary(a) && L.Parse(a).Ok? && L.Parse(b).Ok? && SmallTags(a + b) && O.Parse(a + b).Ok? && !spec.repeated
    requires var read := Values(O.Parse(a + b).value, spec.number); Plain(read) == read
    requires Values(L.Parse(a).value, spec.number) != [] && Values(L.Parse(b).value, spec.number) != []
    ensures L.Parse(a + b).Ok?
    ensures R.FirstOr(Values(L.Parse(a + b).value, spec.number), Num(0)) == R.FirstOr(Values(L.Parse(a).value, spec.number), Num(0))
    ensures D.ReadCell(Values(O.Parse(a + b).value, spec.number), spec) == D.ReadCell(Values(L.Parse(b).value, spec.number), spec)
  {
    F.Framing(a, b);
    FieldsAgree(a + b, spec.number);
    ValuesConcat(L.Parse(a).value, L.Parse(b).value, spec.number);
  }
}
