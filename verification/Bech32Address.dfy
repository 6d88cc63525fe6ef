/** clients/governance/administrators.js: decodeBech32, and the copying mistakes it
    catches. Letters are ASCII letters here. */
module Bech32Address {
  import opened Basics
  import opened Bech32

  datatype Problem = Whitespace | Empty | TooLong | MixedCase | NoPrefix | TooShort | NotInCharset | BadChecksum | BadPayload

  datatype Result = Ok(prefix: string, bytes: nat) | Bad(problem: Problem)

  const CHARSET: string := "qpzry9x8gf2tvdw0s3jn54khce6mua7l"

  /** The first place of c among the first n characters of the charset. */
  function IndexBelow(c: char, n: nat): (i: Option<nat>)
    requires n <= |CHARSET|
    ensures i.Some? ==> i.value < n && CHARSET[i.value] == c && forall k :: 0 <= k < i.value ==> CHARSET[k] != c
    ensures i.None? ==> forall k :: 0 <= k < n ==> CHARSET[k] != c
  {
    if n == 0 then None
    else if IndexBelow(c, n - 1).Some? then IndexBelow(c, n - 1)
    else if CHARSET[n - 1] == c then Some(n - 1)
    else None
  }

  /** The five bits of a charset index. */
  function Word(i: nat): word
    requires i < 32
  {
    (if i % 2 == 1 then 1 else 0) | (if i / 2 % 2 == 1 then 2 else 0) | (if i / 4 % 2 == 1 then 4 else 0) |
    (if i / 8 % 2 == 1 then 8 else 0) | (if i / 16 % 2 == 1 then 16 else 0)
  }

  function Index(w: word): nat {
    (if w & 1 != 0 then 1 else 0) + (if w & 2 != 0 then 2 else 0) + (if w & 4 != 0 then 4 else 0) +
    (if w & 8 != 0 then 8 else 0) + (if w & 16 != 0 then 16 else 0)
  }

  lemma FiveFlags(a: bool, b: bool, c: bool, d: bool, e: bool)
    ensures var w: word := (if a then 1 else 0) | (if b then 2 else 0) | (if c then 4 else 0) | (if d then 8 else 0) | (if e then 16 else 0);
      w < 32 && (w & 1 != 0 <==> a) && (w & 2 != 0 <==> b) && (w & 4 != 0 <==> c) && (w & 8 != 0 <==> d) && (w & 16 != 0 <==> e)
  {
  }

  lemma WordTells(i: nat)
    requires i < 32
    ensures Index(Word(i)) == i && Word(i) < 32
  {
    FiveFlags(i % 2 == 1, i / 2 % 2 == 1, i / 4 % 2 == 1, i / 8 % 2 == 1, i / 16 % 2 == 1);
  }

  // ------------------------------------------------------------------- decoding

  /** The Kelvin sign: it lowers to a k, and is its own upper case. */
  const KELVIN: char := '\U{212a}'

  /** `toLowerCase` of a character, as far as an ASCII letter comes of it. */
  function Lower(c: char): char {
    if 'A' <= c <= 'Z' then c - 'A' + 'a' else if c == KELVIN then 'k' else c
  }

  function Upper(c: char): char {
    if 'a' <= c <= 'z' then c - 'a' + 'A' else c
  }

  function Lowercase(s: string): string {
    seq(|s|, i requires 0 <= i < |s| => Lower(s[i]))
  }

  function Uppercase(s: string): string {
    seq(|s|, i requires 0 <= i < |s| => Upper(s[i]))
  }

  /** What `trim` takes off. */
  predicate IsSpace(c: char) {
    c == ' ' || '\t' <= c <= '\r' || c == '\U{a0}' || c == '\U{1680}' || '\U{2000}' <= c <= '\U{200a}' || c == '\U{2028}' ||
    c == '\U{2029}' || c == '\U{202f}' || c == '\U{205f}' || c == '\U{3000}' || c == '\U{feff}'
  }

  /** `s.lastIndexOf('1')`. */
  function LastOne(s: string): (i: Option<nat>)
    ensures i.Some? ==> i.value < |s| && s[i.value] == '1' && forall k :: i.value < k < |s| ==> s[k] != '1'
    ensures i.None? ==> forall k :: 0 <= k < |s| ==> s[k] != '1'
  {
    if s == "" then None
    else if s[|s| - 1] == '1' then Some(|s| - 1)
    else LastOne(s[..|s| - 1])
  }

  /** `charCodeAt(0) >>> 5`, and `charCodeAt(0) & 31`. */
  function High(c: char): word {
    (c as int / 32) as word
  }

  function Low(c: char): word {
    Word(c as int % 32)
  }

  function Highs(s: string): (values: seq<word>)
    ensures |values| == |s|
  {
    seq(|s|, i requires 0 <= i < |s| => High(s[i]))
  }

  function Lows(s: string): (values: seq<word>)
    ensures |values| == |s|
  {
    seq(|s|, i requires 0 <= i < |s| => Low(s[i]))
  }

  function HrpExpand(hrp: string): seq<word> {
    Highs(hrp) + [0] + Lows(hrp)
  }

  predicate InCharset(data: string) {
    forall i :: 0 <= i < |data| ==> CharsetIndex(data[i]).Some?
  }

  /** `BECH32_CHARSET.indexOf(ch)`. */
  function CharsetIndex(c: char): (i: Option<nat>)
    ensures i.Some? ==> i.value < 32 && c != '1'
  {
    IndexBelow(c, |CHARSET|)
  }

  lemma IndexTells(c: char, d: char)
    requires CharsetIndex(c).Some? && CharsetIndex(c) == CharsetIndex(d)
    ensures c == d
  {
  }

  function ValueOf(c: char): word
    requires CharsetIndex(c).Some?
  {
    Word(CharsetIndex(c).value)
  }

  /** The values of the characters after the separator. */
  function DataValues(data: string): (values: seq<word>)
    requires InCharset(data)
    ensures |values| == |data|
  {
    seq(|data|, i requires 0 <= i < |data| => ValueOf(data[i]))
  }

  /** The two sides of the separator, or what is wrong before the checksum. */
  datatype Split = Parts(prefix: string, data: string) | Broken(problem: Problem)

  function SplitText(s: string): (r: Split)
    ensures r.Parts? ==> InCharset(r.data) && |r.data| >= 6
  {
    var split := LastOne(s);
    if split.None? || split.value < 1 then Broken(NoPrefix)
    else if |s| - split.value - 1 < 6 then Broken(TooShort)
    else if !InCharset(s[split.value + 1..]) then Broken(NotInCharset)
    else Parts(s[..split.value], s[split.value + 1..])
  }

  function Checksum(prefix: string, data: string): word
    requires InCharset(data)
  {
    Polymod(HrpExpand(prefix) + DataValues(data))
  }

  /** The decoder from where the text is lower case. */
  function DecodeText(s: string): Result {
    var split := SplitText(s);
    if split.Broken? then Bad(split.problem)
    else if Checksum(split.prefix, split.data) != 1 then Bad(BadChecksum)
    else
      var bits := (|split.data| - 6) * 5;
      if bits % 8 >= 5 then Bad(BadPayload) else Ok(split.prefix, bits / 8)
  }

  function Decode(raw: string): Result {
    if raw != "" && (IsSpace(raw[0]) || IsSpace(raw[|raw| - 1])) then Bad(Whitespace)
    else if |raw| == 0 then Bad(Empty)
    else if |raw| > 90 then Bad(TooLong)
    else if raw != Lowercase(raw) && raw != Uppercase(raw) then Bad(MixedCase)
    else DecodeText(Lowercase(raw))
  }

  lemma DecodesAsText(raw: string)
    ensures Decode(raw).Ok? ==> DecodeText(Lowercase(raw)).Ok?
  {
  }

  method ExpandHrp(hrp: string) returns (out: seq<word>)
    ensures out == HrpExpand(hrp)
  {
    hide High, Low;
    out := [];
    for k := 0 to |hrp|
      invariant out == Highs(hrp[..k])
    {
      out := out + [High(hrp[k])];
    }
    out := out + [0];
    ghost var high := out;
    for k := 0 to |hrp|
      invariant out == high + Lows(hrp[..k])
    {
      out := out + [Low(hrp[k])];
    }
    assert hrp[..|hrp|] == hrp;
  }

  method ReadValues(data: string) returns (values: Option<seq<word>>)
    ensures values.Some? <==> InCharset(data)
    ensures values.Some? ==> values.value == DataValues(data)
  {
    var read: seq<word> := [];
    for k := 0 to |data|
      invariant |read| == k
      invariant forall i :: 0 <= i < k ==> CharsetIndex(data[i]).Some? && read[i] == ValueOf(data[i])
    {
      var v := ReadValue(data[k]);
      if v.None? { return None; }
      read := read + [v.value];
    }
    return Some(read);
  }

  method ReadValue(c: char) returns (v: Option<word>)
    ensures v.Some? <==> CharsetIndex(c).Some?
    ensures v.Some? ==> v.value == ValueOf(c)
  {
    var i := CharsetIndex(c);
    return if i.Some? then Some(Word(i.value)) else None;
  }

  method DecodeBech32(raw: string) returns (r: Result)
    ensures r == Decode(raw)
  {
    if raw != "" && (IsSpace(raw[0]) || IsSpace(raw[|raw| - 1])) { return Bad(Whitespace); }
    if |raw| == 0 { return Bad(Empty); }
    if |raw| > 90 { return Bad(TooLong); }
    if raw != Lowercase(raw) && raw != Uppercase(raw) { return Bad(MixedCase); }
    r := ComputeDecodeText(Lowercase(raw));
  }

  method ComputeDecodeText(s: string) returns (r: Result)
    ensures r == DecodeText(s)
  {
    var split := LastOne(s);
    if split.None? || split.value < 1 { return Bad(NoPrefix); }
    var prefix, data := s[..split.value], s[split.value + 1..];
    if |data| < 6 { return Bad(TooShort); }
    var values := ReadValues(data);
    if values.None? { return Bad(NotInCharset); }
    var expanded := ExpandHrp(prefix);
    var check := ComputePolymod(expanded + values.value);
    if check != 1 { return Bad(BadChecksum); }
    var bits := (|values.value| - 6) * 5;
    return if bits % 8 >= 5 then Bad(BadPayload) else Ok(prefix, bits / 8);
  }

  // ------------------------------------------------------------- what is caught

  /** The text after the separator is read as these values. */
  lemma ValuesTell(a: string, b: string)
    requires InCharset(a) && InCharset(b) && |a| == |b| && a != b
    ensures DataValues(a) != DataValues(b)
  {
    var i :| 0 <= i < |a| && a[i] != b[i];
    WordTells(CharsetIndex(a[i]).value);
    WordTells(CharsetIndex(b[i]).value);
    if CharsetIndex(a[i]) == CharsetIndex(b[i]) { IndexTells(a[i], b[i]); }
    assert DataValues(a)[i] != DataValues(b)[i];
  }

  lemma ValuesAreFiveBits(data: string)
    requires InCharset(data)
    ensures FiveBits(DataValues(data))
  {
    forall i | 0 <= i < |data| ensures DataValues(data)[i] < 32 { WordTells(CharsetIndex(data[i]).value); }
  }

  lemma {:induction false} LastOneConcat(u: string, v: string)
    requires '1' !in v
    ensures LastOne(u + v) == LastOne(u)
  {
    if v == "" {
      assert u + v == u;
    } else {
      assert (u + v)[..|u + v| - 1] == u + v[..|v| - 1];
      LastOneConcat(u, v[..|v| - 1]);
    }
  }

  lemma DataValuesConcat(a: string, b: string)
    requires InCharset(a) && InCharset(b)
    ensures InCharset(a + b) && DataValues(a + b) == DataValues(a) + DataValues(b)
  {
  }

  lemma ThreeParts(hrp: seq<word>, a: string, x: string, b: string)
    requires InCharset(a) && InCharset(x) && InCharset(b)
    ensures InCharset(a + x + b)
    ensures hrp + DataValues(a + x + b) == hrp + DataValues(a) + DataValues(x) + DataValues(b)
  {
    DataValuesConcat(a + x, b);
    DataValuesConcat(a, x);
    assert hrp + (DataValues(a) + DataValues(x) + DataValues(b)) == hrp + DataValues(a) + DataValues(x) + DataValues(b);
  }

  lemma WindowChangesChecksum(prefix: string, a: string, x: string, y: string, b: string)
    requires InCharset(a) && InCharset(x) && InCharset(y) && InCharset(b) && |x| == |y| <= 6 && x != y
    ensures InCharset(a + x + b) && InCharset(a + y + b)
    ensures Checksum(prefix, a + x + b) != Checksum(prefix, a + y + b)
  {
    ThreeParts(HrpExpand(prefix), a, x, b);
    ThreeParts(HrpExpand(prefix), a, y, b);
    ValuesTell(x, y);
    ValuesAreFiveBits(x);
    ValuesAreFiveBits(y);
    BurstChangesChecksum(HrpExpand(prefix) + DataValues(a), DataValues(x), DataValues(y), DataValues(b));
  }

  lemma NoOnes(s: string)
    requires InCharset(s)
    ensures '1' !in s
  {
  }

  lemma Pieces(a: string, x: string, b: string)
    ensures InCharset(a + x + b) <==> InCharset(a) && InCharset(x) && InCharset(b)
  {
    var s := a + x + b;
    if InCharset(s) {
      forall i | 0 <= i < |a| ensures CharsetIndex(a[i]).Some? { assert a[i] == s[i]; }
      forall i | 0 <= i < |x| ensures CharsetIndex(x[i]).Some? { assert x[i] == s[|a| + i]; }
      forall i | 0 <= i < |b| ensures CharsetIndex(b[i]).Some? { assert b[i] == s[|a| + |x| + i]; }
    }
  }

  /** A text cut in four, the separator between the first two. */
  function Text(prefix: string, a: string, x: string, b: string): string {
    prefix + "1" + a + x + b
  }

  lemma TextSplits(prefix: string, a: string, x: string, b: string)
    requires InCharset(a + x + b)
    ensures LastOne(Text(prefix, a, x, b)) == Some(|prefix|)
    ensures Text(prefix, a, x, b)[..|prefix|] == prefix && Text(prefix, a, x, b)[|prefix| + 1..] == a + x + b
  {
    NoOnes(a + x + b);
    LastOneConcat(prefix + "1", a + x + b);
    assert Text(prefix, a, x, b) == prefix + "1" + (a + x + b);
  }

  /** Any change of an accepted text to charset characters, confined to six
      consecutive characters of its data, is refused. */
  lemma WindowIsCaught(prefix: string, a: string, x: string, y: string, b: string)
    requires InCharset(a + x + b) && DecodeText(Text(prefix, a, x, b)).Ok?
    requires |x| == |y| <= 6 && x != y && InCharset(y)
    ensures DecodeText(Text(prefix, a, y, b)).Bad?
  {
    Pieces(a, x, b);
    Pieces(a, y, b);
    TextSplits(prefix, a, x, b);
    TextSplits(prefix, a, y, b);
    WindowChangesChecksum(prefix, a, x, y, b);
  }

  lemma AcceptedData(s: string)
    requires DecodeText(s).Ok?
    ensures LastOne(s).Some? && InCharset(s[LastOne(s).value + 1..])
  {
  }

  lemma Sliced(s: string, k: nat, p: nat, q: nat)
    requires k < p <= q <= |s|
    ensures s[k + 1..p] + s[p..q] + s[q..] == s[k + 1..]
  {
  }

  /** An accepted text, cut around n characters of its data that start at p. */
  lemma Cut(s: string, p: nat, n: nat) returns (prefix: string, a: string)
    requires DecodeText(s).Ok? && LastOne(s).value < p && p + n <= |s|
    ensures s == Text(prefix, a, s[p..p + n], s[p + n..]) && InCharset(a + s[p..p + n] + s[p + n..]) && |prefix| + 1 + |a| == p
  {
    AcceptedData(s);
    hide DecodeText, InCharset;
    var k := LastOne(s).value;
    prefix, a := s[..k], s[k + 1..p];
    Sliced(s, k, p, p + n);
    assert s == s[..k] + "1" + s[k + 1..];
  }

  /** Replacing n characters of the data from p on. */
  lemma Replaced(s: string, p: nat, y: string, t: string)
    requires DecodeText(s).Ok? && LastOne(s).value < p && p + |y| <= |s| && |y| <= 6 && InCharset(y) && s[p..p + |y|] != y
    requires |t| == |s| && forall i :: 0 <= i < |s| ==> t[i] == if p <= i < p + |y| then y[i - p] else s[i]
    ensures DecodeText(t).Bad?
  {
    var prefix, a := Cut(s, p, |y|);
    TextIs(prefix, a, y, s[p + |y|..], s, p, t);
    WindowIsCaught(prefix, a, s[p..p + |y|], y, s[p + |y|..]);
  }

  lemma TextIs(prefix: string, a: string, y: string, b: string, s: string, p: nat, t: string)
    requires p == |prefix| + 1 + |a| && p + |y| <= |s| == |t| && b == s[p + |y|..] && s == Text(prefix, a, s[p..p + |y|], b)
    requires forall i :: 0 <= i < |s| ==> t[i] == if p <= i < p + |y| then y[i - p] else s[i]
    ensures t == Text(prefix, a, y, b)
  {
  }

  /** The same, as typed: in either case of letters. */
  lemma Retyped(raw: string, changed: string, p: nat, y: string)
    requires Decode(raw).Ok? && LastOne(Lowercase(raw)).value < p && p + |y| <= |raw| && |y| <= 6 && InCharset(y)
    requires Lowercase(raw)[p..p + |y|] != y && |changed| == |raw|
    requires forall i :: 0 <= i < |raw| ==> Lower(changed[i]) == if p <= i < p + |y| then y[i - p] else Lower(raw[i])
    ensures Decode(changed).Bad?
  {
    DecodesAsText(raw);
    DecodesAsText(changed);
    Replaced(Lowercase(raw), p, y, Lowercase(changed));
  }

  /** One data character replaced by a different one of the charset is caught. */
  lemma SubstitutionIsCaught(raw: string, p: nat, c: char)
    requires Decode(raw).Ok? && p < |raw| && LastOne(Lowercase(raw)).value < p
    requires CharsetIndex(Lower(c)).Some? && Lower(c) != Lower(raw[p])
    ensures Decode(raw[p := c]).Bad?
  {
    assert Lowercase(raw)[p..p + 1][0] == Lower(raw[p]);
    Retyped(raw, raw[p := c], p, [Lower(c)]);
  }

  /** The characters of accepted data are charset characters. */
  lemma DataInCharset(raw: string, p: nat)
    requires Decode(raw).Ok? && LastOne(Lowercase(raw)).value < p < |raw|
    ensures CharsetIndex(Lower(raw[p])).Some?
  {
    DecodesAsText(raw);
    var s, k := Lowercase(raw), LastOne(Lowercase(raw)).value;
    assert s[p] == s[k + 1..][p - k - 1];
  }

  /** Two adjacent unequal data characters exchanged are caught. */
  lemma TranspositionIsCaught(raw: string, p: nat)
    requires Decode(raw).Ok? && p + 1 < |raw| && LastOne(Lowercase(raw)).value < p && Lower(raw[p]) != Lower(raw[p + 1])
    ensures Decode(raw[p := raw[p + 1]][p + 1 := raw[p]]).Bad?
  {
    hide Decode;
    DataInCharset(raw, p);
    DataInCharset(raw, p + 1);
    assert Lowercase(raw)[p..p + 2][0] == Lower(raw[p]);
    Retyped(raw, raw[p := raw[p + 1]][p + 1 := raw[p]], p, [Lower(raw[p + 1]), Lower(raw[p])]);
  }
}
