/** clients/oversight/proto.js: the second, independently written parser of the
    same format. */
module OversightProto {
  import opened Basics
  import opened Wire

  /** readVarint at the head of s, k bytes of it already taken. */
  function Varint(s: seq<byte>, k: nat): (r: Result<Taken>)
    ensures r.Ok? ==> 1 <= r.value.used <= |s|
    decreases |s|
  {
    if s == [] then Err(TruncatedVarint)
    else if k > 9 then Err(VarintTooLong)
    else if s[0] < 128 then Ok(Taken(s[0], 1))
    else match Varint(s[1..], k + 1)
      case Ok(t) => Ok(Taken(s[0] - 128 + 128 * t.value, t.used + 1))
      case Err(e) => Err(e)
  }

  /** `buf.subarray(from, to)`, which clamps both ends to the buffer. */
  function Subarray(s: seq<byte>, from: nat, to: nat): seq<byte>
    requires from <= to
  {
    Drop(s, from)[..if to <= |s| then to - from else |Drop(s, from)|]
  }

  /** The entry after a tag that took j bytes. */
  function Entry(s: seq<byte>, j: nat, field: nat, wire: nat): (r: Result<Step>)
    requires 1 <= j <= |s|
    ensures r.Ok? ==> r.value.used >= 1
  {
    if field == 0 then Err(FieldZero)
    else if wire == 0 then
      match Varint(s[j..], 0)
      case Err(e) => Err(e)
      case Ok(v) => Ok(Step(Some(Record(field, Num(v.value))), j + v.used))
    else if wire == 2 then
      match Varint(s[j..], 0)
      case Err(e) => Err(e)
      case Ok(size) =>
        var at, len := j + size.used, ToNumber(size.value);
        if at + len > |s| then Err(TruncatedField)
        else Ok(Step(Some(Record(field, Raw(s[at..at + len]))), at + len))
    else if wire == 5 then Ok(Step(Some(Record(field, Fixed(4, Subarray(s, j, j + 4)))), j + 4))
    else if wire == 1 then Ok(Step(Some(Record(field, Fixed(8, Subarray(s, j, j + 8)))), j + 8))
    else Err(UnsupportedWireType(wire))
  }

  /** One turn of the loop in splitFields. */
  function Next(s: seq<byte>): (r: Result<Step>)
    requires s != []
    ensures r.Ok? ==> r.value.used >= 1
  {
    match Varint(s, 0)
    case Err(e) => Err(e)
    case Ok(tag) => Entry(s, tag.used, ToNumber(tag.value / 8), tag.value % 8)
  }

  function Parse(s: seq<byte>): Result<seq<Record>>
    decreases |s|
  {
    if s == [] then Ok([]) else
    match Next(s)
    case Err(e) => Err(e)
    case Ok(step) => Continued(Filed(step.record), Parse(Drop(s, step.used)))
  }

  lemma ResumeStep(s: seq<byte>, result: nat, k: nat, low: nat)
    requires s != [] && k <= 9 && result < Shift(k, 1) && low == s[0] % 128
    ensures result + Shift(k, low) < Shift(k + 1, 1)
    ensures s[0] < 128 ==> Resumed(result, k, Varint(s, k)) == Ok(Taken(result + Shift(k, low), k + 1))
    ensures s[0] >= 128 ==>
      Resumed(result, k, Varint(s, k)) == Resumed(result + Shift(k, low), k + 1, Varint(s[1..], k + 1))
  {
    hide Shift;
    assert low == if s[0] < 128 then s[0] as int else s[0] - 128;
    ResumedOnce(result, k, low, Varint(s[1..], k + 1));
    assert s[0] >= 128 ==> Varint(s, k) == More(low, Varint(s[1..], k + 1));
  }

  method ReadVarint(buf: seq<byte>, start: nat) returns (r: Result<nat>, off: nat)
    requires start <= |buf|
    ensures match Varint(buf[start..], 0)
            case Ok(v) => r == Ok(v.value) && off == start + v.used <= |buf|
            case Err(e) => r == Err(e)
  {
    hide Shift;
    ResumedAtStart(Varint(buf[start..], 0));
    off := start;
    var result: nat, k: nat := 0, 0;
    while true
      invariant start <= off <= |buf| && k == off - start <= 10
      invariant result < Shift(k, 1)
      invariant Varint(buf[start..], 0) == Resumed(result, k, Varint(buf[off..], k))
      decreases |buf| - off
    {
      if off >= |buf| { return Err(TruncatedVarint), off; }
      if 7 * k > 63 { return Err(VarintTooLong), off; }
      ResumeStep(buf[off..], result, k, buf[off] % 128);
      assert buf[off..][1..] == buf[off + 1..];
      var b := buf[off];
      off := off + 1;
      result := result + Shift(k, b % 128);
      if b < 128 { break; }
      k := k + 1;
    }
    r := Ok(result);
  }

  /** The switch in splitFields: the entry, and where the offset goes. */
  method ReadEntry(buf: seq<byte>, start: nat, j: nat, field: nat, wire: nat) returns (r: Result<Step>)
    requires start < j <= |buf|
    ensures r == Entry(buf[start..], j - start, field, wire)
  {
    SliceFrom(buf, start, j - start, |buf| - start);
    if field == 0 { return Err(FieldZero); }
    if wire == 0 {
      var v, off := ReadVarint(buf, j);
      return if v.Err? then Err(v.error) else Ok(Step(Some(Record(field, Num(v.value))), off - start));
    } else if wire == 2 {
      var size, off := ReadVarint(buf, j);
      if size.Err? { return Err(size.error); }
      var n := ToNumber(size.value);
      if off + n > |buf| { return Err(TruncatedField); }
      SliceFrom(buf, start, off - start, off - start + n);
      return Ok(Step(Some(Record(field, Raw(buf[off..off + n]))), off - start + n));
    } else if wire == 5 {
      assert Subarray(buf, j, j + 4) == Subarray(buf[start..], j - start, j - start + 4);
      return Ok(Step(Some(Record(field, Fixed(4, Subarray(buf, j, j + 4)))), j - start + 4));
    } else if wire == 1 {
      assert Subarray(buf, j, j + 8) == Subarray(buf[start..], j - start, j - start + 8);
      return Ok(Step(Some(Record(field, Fixed(8, Subarray(buf, j, j + 8)))), j - start + 8));
    } else {
      return Err(UnsupportedWireType(wire));
    }
  }

  /** The body of the loop in splitFields. */
  method SplitOne(buf: seq<byte>, start: nat) returns (r: Result<Step>)
    requires start < |buf|
    ensures r == Next(buf[start..])
  {
    var tag, j := ReadVarint(buf, start);
    if tag.Err? { return Err(tag.error); }
    r := ReadEntry(buf, start, j, ToNumber(tag.value / 8), tag.value % 8);
  }

  lemma ContinueStep(buf: seq<byte>, off: nat, records: seq<Record>)
    requires off < |buf|
    ensures match Next(buf[off..])
            case Ok(step) => Continued(records, Parse(Drop(buf, off)))
                          == Continued(records + Filed(step.record), Parse(Drop(buf, off + step.used)))
            case Err(e) => Parse(Drop(buf, off)) == Err(e)
  {
    hide Next;
    var s := buf[off..];
    if Next(s).Ok? {
      var step := Next(s).value;
      assert Drop(s, step.used) == Drop(buf, off + step.used);
      ContinuedTwice(records, Filed(step.record), Parse(Drop(s, step.used)));
    }
  }

  lemma ParseNothing()
    ensures Parse([]) == Ok([])
  {
  }

  method SplitFields(buf: seq<byte>) returns (r: Result<Fields>)
    ensures match Parse(buf)
            case Ok(records) => r.Ok? && Denotes(r.value, records)
            case Err(e) => r == Err(e)
  {
    hide Next, Parse, Denotes, Continued, File;
    var out: Fields := map[];
    var off: nat := 0;
    ghost var records: seq<Record> := [];
    assert Drop(buf, 0) == buf;
    NothingDenoted();
    ContinuedFromNothing(Parse(buf));
    while off < |buf|
      invariant Denotes(out, records)
      invariant Parse(buf) == Continued(records, Parse(Drop(buf, off)))
      decreases |buf| - off
    {
      ContinueStep(buf, off, records);
      var step := SplitOne(buf, off);
      if step.Err? {
        ContinuedFailure(records, step.error);
        return Err(step.error);
      }
      FileDenotes(out, records, step.value.record);
      out := File(out, step.value.record);
      records := records + Filed(step.value.record);
      off := off + step.value.used;
    }
    ParseNothing();
    assert Drop(buf, off) == [];
    ContinuedToEnd(records);
    return Ok(out);
  }

  // ------------------------------------------------------------------ integers

  /** What a console shows for a 64-bit integer: a Number, or the decimal string
      of one that a Number cannot hold. */
  datatype Shown = Number(number: int) | Text(digits: int)

  function ToNumberOrString(v: int): Shown {
    if v < TWO_TO_53 then Number(if v >= 0 then ToNumber(v) else 0 - ToNumber(-v)) else Text(v)
  }

  function AsSigned(v: nat): Shown {
    ToNumberOrString(if v >= TWO_TO_63 then v - TWO_TO_64 else v)
  }
}
