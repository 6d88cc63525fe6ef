/** clients/governance/administrators.js: what decodeBech32 makes of an accepted address
    that was copied wrongly, anywhere in it: exactly which slips it lets through. */
module Bech32Typos {
  import opened Basics
  import opened Bech32
  import opened Bech32Address

  // ----------------------------------------------------------- up to the checksum

  /** There is a checksum of six characters, and fewer than five bits of what comes
      before it are left over after whole bytes. */
  predicate GoodPayload(n: int) {
    n >= 6 && (n - 6) * 5 % 8 < 5
  }

  /** All that is asked of a lower-case text but the checksum. */
  predicate LooksRight(t: string) {
    SplitText(t).Parts? && GoodPayload(|SplitText(t).data|)
  }

  /** All that is asked of a text before it is split. */
  predicate WellTyped(raw: string) {
    raw != "" && !IsSpace(raw[0]) && !IsSpace(raw[|raw| - 1]) && |raw| <= 90 && (raw == Lowercase(raw) || raw == Uppercase(raw))
  }

  lemma DecodesExactly(raw: string)
    ensures Decode(raw).Ok? <==> WellTyped(raw) && DecodeText(Lowercase(raw)).Ok?
    ensures DecodeText(Lowercase(raw)).Ok? ==> LooksRight(Lowercase(raw))
  {
  }

  /** The checksum state once the prefix and this much of the data have been taken. */
  function State(prefix: string, data: string): word
    requires InCharset(data)
  {
    Polymod(HrpExpand(prefix) + DataValues(data))
  }

  lemma StateThen(prefix: string, x: string, y: string)
    requires InCharset(x) && InCharset(y)
    ensures InCharset(x + y) && State(prefix, x + y) == PolymodFrom(State(prefix, x), DataValues(y))
  {
    DataValuesConcat(x, y);
    Assoc(HrpExpand(prefix), DataValues(x), DataValues(y));
    PolymodConcat(1, HrpExpand(prefix) + DataValues(x), DataValues(y));
  }

  lemma StateOne(prefix: string, x: string, c: char)
    requires InCharset(x) && CharsetIndex(c).Some?
    ensures InCharset(x + [c]) && State(prefix, x + [c]) == Step(State(prefix, x), ValueOf(c))
  {
    StateThen(prefix, x, [c]);
    assert DataValues([c]) == [ValueOf(c)] && [ValueOf(c)][1..] == [];
  }

  /** Two runs over the same tail end alike only if they came to it alike. */
  lemma SameTail(p: string, x: string, q: string, y: string, tail: string)
    requires InCharset(x) && InCharset(y) && InCharset(tail)
    ensures InCharset(x + tail) && InCharset(y + tail)
    ensures Checksum(p, x + tail) == Checksum(q, y + tail) <==> State(p, x) == State(q, y)
  {
    StateThen(p, x, tail);
    StateThen(q, y, tail);
    StatesStayApart(State(p, x), State(q, y), DataValues(tail));
  }

  // -------------------------------------------------------------------- any slip

  lemma Splits(prefix: string, data: string)
    requires '1' !in data
    ensures SplitText(prefix + "1" + data) ==
      if prefix == "" then Broken(NoPrefix) else if |data| < 6 then Broken(TooShort)
      else if !InCharset(data) then Broken(NotInCharset) else Parts(prefix, data)
  {
    LastOneConcat(prefix + "1", data);
    var s := prefix + "1" + data;
    assert s[..|prefix|] == prefix && s[|prefix| + 1..] == data;
  }

  lemma TextExactly(prefix: string, data: string)
    requires '1' !in data
    ensures DecodeText(prefix + "1" + data).Ok? <==>
      prefix != "" && InCharset(data) && GoodPayload(|data|) && Checksum(prefix, data) == 1
  {
    hide SplitText, Checksum, InCharset;
    Splits(prefix, data);
  }

  /** White space, as `trim` takes it. */
  lemma SpaceListed(c: char)
    ensures IsSpace(c) <==> c in WHITE
  {
  }

  predicate Small(c: char) {
    'a' <= c <= 'z'
  }

  /** A letter that has a small one; the Kelvin sign has k. */
  predicate Capital(c: char) {
    'A' <= c <= 'Z' || c == '\U{212a}'
  }

  /** The text is not empty, at most 90 long, without white space around it, and all its
      letters are of one case. */
  ghost predicate Presentable(raw: string) {
    1 <= |raw| <= 90 && raw[0] !in WHITE && raw[|raw| - 1] !in WHITE &&
    ((forall i :: 0 <= i < |raw| ==> !Small(raw[i])) || (forall i :: 0 <= i < |raw| ==> !Capital(raw[i])))
  }

  lemma WellTypedExactly(raw: string)
    ensures WellTyped(raw) <==> Presentable(raw)
  {
    hide IsSpace;
    if raw != "" {
      SpaceListed(raw[0]);
      SpaceListed(raw[|raw| - 1]);
    }
    OneCase(raw);
  }

  lemma OneCase(raw: string)
    ensures raw == Lowercase(raw) <==> forall i :: 0 <= i < |raw| ==> !Capital(raw[i])
    ensures raw == Uppercase(raw) <==> forall i :: 0 <= i < |raw| ==> !Small(raw[i])
  {
    assert forall i :: 0 <= i < |raw| ==> (Lowercase(raw)[i] == raw[i] <==> !Capital(raw[i]));
    assert forall i :: 0 <= i < |raw| ==> (Uppercase(raw)[i] == raw[i] <==> !Small(raw[i]));
  }

  /** BIP-173's character set. */
  predicate OfTheSet(data: string) {
    forall i :: 0 <= i < |data| ==> data[i] in "qpzry9x8gf2tvdw0s3jn54khce6mua7l"
  }

  lemma SetListed(data: string)
    ensures InCharset(data) <==> OfTheSet(data)
  {
    forall i | 0 <= i < |data| ensures CharsetIndex(data[i]).Some? <==> data[i] in CHARSET { }
  }

  /** An address of this prefix and this many bytes, exactly: presentable, something before
      the last 1, six characters of checksum and as many as the bytes take after it, with
      fewer than five bits left over, and the checksum right. */
  lemma AcceptedExactly(raw: string, prefix: string, data: string, bytes: nat)
    requires Lowercase(raw) == prefix + "1" + data && '1' !in data
    ensures Decode(raw) == Result.Ok(prefix, bytes) <==>
      Presentable(raw) && prefix != "" && |data| >= 6 && OfTheSet(data) &&
      8 * bytes <= 5 * (|data| - 6) < 8 * bytes + 5 &&
      InCharset(data) && Polymod(HrpExpand(prefix) + DataValues(data)) == 1
  {
    hide Polymod, HrpExpand, DataValues, InCharset, Presentable, WellTyped, SplitText, OfTheSet;
    WellTypedExactly(raw);
    SetListed(data);
    Splits(prefix, data);
    TypedFirst(raw);
  }

  lemma TypedFirst(raw: string)
    ensures WellTyped(raw) ==> Decode(raw) == DecodeText(Lowercase(raw))
    ensures !WellTyped(raw) ==> Decode(raw).Bad?
  {
    hide DecodeText;
  }

  /** What a slip leaves to be asked of a text with this prefix and this data, but for
      the state in which its last characters are met. */
  predicate StillLooksRight(prefix: string, data: string) {
    prefix != "" && InCharset(data) && GoodPayload(|data|)
  }

  lemma TextSlip(p: string, x: string, q: string, y: string, tail: string)
    requires '1' !in x + tail && '1' !in y + tail && DecodeText(p + "1" + (x + tail)).Ok?
    ensures InCharset(x) && InCharset(tail)
    ensures DecodeText(q + "1" + (y + tail)).Ok? <==> StillLooksRight(q, y + tail) && InCharset(y) && State(q, y) == State(p, x)
  {
    hide DecodeText, Checksum, State, InCharset;
    TextExactly(p, x + tail);
    TextExactly(q, y + tail);
    TwoPieces(x, tail);
    TwoPieces(y, tail);
    if InCharset(y) { SameTail(p, x, q, y, tail); }
  }

  lemma TwoPieces(a: string, b: string)
    ensures InCharset(a + b) <==> InCharset(a) && InCharset(b)
  {
    Pieces(a, b, "");
    assert a + b + "" == a + b;
  }

  /** An accepted address, p the prefix and x the data before its last characters, read
      or typed with q and y in their place: whatever the slip, it is accepted exactly
      when the text still looks like an address, and the checksum comes to the last
      characters in the same state. */
  lemma SlipExactly(raw: string, changed: string, p: string, x: string, q: string, y: string, tail: string)
    requires Decode(raw).Ok? && '1' !in x + tail && '1' !in y + tail
    requires Lowercase(raw) == p + "1" + (x + tail) && Lowercase(changed) == q + "1" + (y + tail)
    ensures InCharset(x) && InCharset(tail)
    ensures Decode(changed).Ok? <==>
      WellTyped(changed) && StillLooksRight(q, y + tail) && InCharset(y) && State(q, y) == State(p, x)
  {
    hide Decode, DecodeText, WellTyped, StillLooksRight, State, InCharset;
    DecodesExactly(raw);
    DecodesExactly(changed);
    TextSlip(p, x, q, y, tail);
  }

  /** Without a separator there is nothing to accept. */
  lemma NoSeparator(changed: string)
    requires '1' !in Lowercase(changed)
    ensures Decode(changed).Bad?
  {
    DecodesExactly(changed);
  }

  lemma LooksRightAlready(raw: string, p: string, data: string)
    requires Decode(raw).Ok? && '1' !in data && Lowercase(raw) == p + "1" + data
    ensures StillLooksRight(p, data)
  {
    hide Decode, DecodeText, WellTyped;
    DecodesExactly(raw);
    TextExactly(p, data);
  }

  lemma OneCharacter(d: char)
    ensures InCharset([d]) <==> CharsetIndex(d).Some?
  {
    assert [d][0] == d;
  }

  // ----------------------------------------------------------------- in the data

  /** A character other than the separator, inserted after a in the data: accepted
      exactly when it is a charset character, leaves the state it meets unchanged, and
      the payload it makes, like the text as typed, is one decodeBech32 takes. */
  lemma InsertionExactly(raw: string, changed: string, p: string, a: string, d: char, b: string)
    requires Decode(raw).Ok? && '1' !in a + b && d != '1'
    requires Lowercase(raw) == p + "1" + (a + b) && Lowercase(changed) == p + "1" + (a + [d] + b)
    ensures InCharset(a)
    ensures Decode(changed).Ok? <==>
      WellTyped(changed) && CharsetIndex(d).Some? && GoodPayload(|a + b| + 1) && Step(State(p, a), ValueOf(d)) == State(p, a)
  {
    hide Decode, WellTyped, State, InCharset, CharsetIndex, GoodPayload, Step;
    LooksRightAlready(raw, p, a + b);
    NotOne(a, d, b);
    SlipExactly(raw, changed, p, a, p, a + [d], b);
    TwoPieces(a, [d]);
    TwoPieces(a + [d], b);
    OneCharacter(d);
    if CharsetIndex(d).Some? { StateOne(p, a, d); }
  }

  lemma NotOne(a: string, d: char, b: string)
    requires '1' !in a + b && d != '1'
    ensures '1' !in a + [d] + b && '1' !in [d] + b
  {
    assert forall i :: 0 <= i < |a| ==> a[i] == (a + b)[i];
    assert forall i :: 0 <= i < |b| ==> b[i] == (a + b)[|a| + i];
  }

  lemma WithoutOne(a: string, d: char, b: string)
    requires '1' !in a + [d] + b
    ensures '1' !in a + b && '1' !in b
  {
    var s := a + [d] + b;
    assert forall i :: 0 <= i < |a| ==> a[i] == s[i];
    assert forall i :: 0 <= i < |b| ==> b[i] == s[|a| + 1 + i];
  }

  /** A character taken out of the data: accepted exactly when it left the state it met
      unchanged, and the payload that is left is one decodeBech32 takes. */
  lemma DeletionExactly(raw: string, changed: string, p: string, a: string, d: char, b: string)
    requires Decode(raw).Ok? && '1' !in a + [d] + b
    requires Lowercase(raw) == p + "1" + (a + [d] + b) && Lowercase(changed) == p + "1" + (a + b)
    ensures InCharset(a) && CharsetIndex(d).Some?
    ensures Decode(changed).Ok? <==> WellTyped(changed) && GoodPayload(|a + b|) && Step(State(p, a), ValueOf(d)) == State(p, a)
  {
    hide Decode, WellTyped, State, InCharset, CharsetIndex, GoodPayload, Step;
    LooksRightAlready(raw, p, a + [d] + b);
    WithoutOne(a, d, b);
    SlipExactly(raw, changed, p, a + [d], p, a, b);
    TwoPieces(a, [d]);
    TwoPieces(a, b);
    OneCharacter(d);
    StateOne(p, a, d);
  }

  /** A data character replaced by another one that is not the separator is refused. */
  lemma ReplacementIsRefused(raw: string, changed: string, p: string, a: string, d: char, e: char, b: string)
    requires Decode(raw).Ok? && '1' !in a + [d] + b && e != '1' && e != d
    requires Lowercase(raw) == p + "1" + (a + [d] + b) && Lowercase(changed) == p + "1" + (a + [e] + b)
    ensures Decode(changed).Bad?
  {
    hide Decode, WellTyped, State, InCharset, CharsetIndex, GoodPayload, Step;
    LooksRightAlready(raw, p, a + [d] + b);
    WithoutOne(a, d, b);
    NotOne(a, e, b);
    SlipExactly(raw, changed, p, a + [d], p, a + [e], b);
    TwoPieces(a, [d]);
    TwoPieces(a, [e]);
    OneCharacter(d);
    OneCharacter(e);
    StateOne(p, a, d);
    if CharsetIndex(e).Some? {
      StateOne(p, a, e);
      StepTells(State(p, a), d, e);
    }
  }

  /** Typed in other letters that read the same: accepted exactly when well typed. */
  lemma SameLetters(raw: string, changed: string)
    requires Decode(raw).Ok? && Lowercase(changed) == Lowercase(raw)
    ensures Decode(changed).Ok? <==> WellTyped(changed)
    ensures WellTyped(changed) ==> Decode(changed) == Decode(raw)
  {
    hide DecodeText;
    DecodesExactly(raw);
    DecodesExactly(changed);
  }

  lemma LowerAt(raw: string, p: nat, c: char)
    requires p < |raw|
    ensures Lowercase(raw[p := c]) == Lowercase(raw)[..p] + [Lower(c)] + Lowercase(raw)[p + 1..]
    ensures Lowercase(raw) == Lowercase(raw)[..p] + [Lower(raw[p])] + Lowercase(raw)[p + 1..]
  {
    hide Lower;
  }

  lemma AtData(s: string, k: nat, p: nat, c: char)
    requires k < p < |s| && s[k] == '1'
    ensures s[..p] + [c] + s[p + 1..] == s[..k] + "1" + (s[k + 1..p] + [c] + s[p + 1..])
  {
  }

  lemma NoOneAfter(raw: string, k: nat)
    requires Decode(raw).Ok? && LastOne(Lowercase(raw)) == Some(k)
    ensures '1' !in Lowercase(raw)[k + 1..]
  {
  }

  /** As typed: a data character replaced by any other but the separator is accepted
      exactly when it reads as the same letter in a text still well typed, as the
      Kelvin sign does for a K. */
  lemma ReplacementExactly(raw: string, p: nat, c: char)
    requires Decode(raw).Ok? && LastOne(Lowercase(raw)).Some? && LastOne(Lowercase(raw)).value < p < |raw| && c != '1'
    ensures Decode(raw[p := c]).Ok? <==> Lower(c) == Lower(raw[p]) && WellTyped(raw[p := c])
  {
    hide Decode, WellTyped, Lowercase;
    var s, k := Lowercase(raw), LastOne(Lowercase(raw)).value;
    LowerLength(raw);
    LowerAt(raw, p, c);
    if Lower(c) == Lower(raw[p]) {
      SameLetters(raw, raw[p := c]);
    } else {
      var a, b := s[k + 1..p], s[p + 1..];
      NoOneAfter(raw, k);
      AtData(s, k, p, Lower(c));
      AtData(s, k, p, Lower(raw[p]));
      assert s[k + 1..] == a + [Lower(raw[p])] + b;
      ReplacementIsRefused(raw, raw[p := c], s[..k], a, Lower(raw[p]), Lower(c), b);
    }
  }

  lemma LowerLength(raw: string)
    ensures |Lowercase(raw)| == |raw|
  {
  }

  /** The Kelvin sign typed for a K in an upper-case address reads as the address. */
  lemma KelvinForK(raw: string, p: nat)
    requires Decode(raw).Ok? && raw == Uppercase(raw) && p < |raw| && raw[p] == 'K'
    ensures Decode(raw[p := KELVIN]) == Decode(raw)
  {
    hide Decode, Lowercase, Uppercase;
    KelvinIsUpper(raw, p);
    KelvinLowers(raw, p);
    DecodesExactly(raw);
    SameLetters(raw, raw[p := KELVIN]);
  }

  lemma KelvinIsUpper(raw: string, p: nat)
    requires raw == Uppercase(raw) && p < |raw|
    ensures raw[p := KELVIN] == Uppercase(raw[p := KELVIN])
  {
    var changed := raw[p := KELVIN];
    forall i | 0 <= i < |raw| ensures Uppercase(changed)[i] == changed[i] {
      assert Uppercase(raw)[i] == Upper(raw[i]);
    }
  }

  lemma KelvinLowers(raw: string, p: nat)
    requires p < |raw| && raw[p] == 'K'
    ensures Lowercase(raw[p := KELVIN]) == Lowercase(raw)
  {
  }

  lemma StepTells(s: word, d: char, e: char)
    requires CharsetIndex(d).Some? && CharsetIndex(e).Some? && d != e
    ensures Step(s, ValueOf(d)) != Step(s, ValueOf(e))
  {
    hide Step;
    ValuesTell([d], [e]);
    ValuesAreFiveBits([d]);
    ValuesAreFiveBits([e]);
    assert DataValues([d])[0] == ValueOf(d) && DataValues([e])[0] == ValueOf(e);
    NearItself(s, 1);
    StepsApart(s, s, ValueOf(d), ValueOf(e), 1, Step(s, ValueOf(d)), Step(s, ValueOf(e)));
    assert DataValues([d]) == [ValueOf(d)] && DataValues([e]) == [ValueOf(e)];
  }

  lemma FirstValues()
    ensures CharsetIndex('q').Some? && ValueOf('q') == 0 && CharsetIndex('p').Some? && ValueOf('p') == 1
  {
    assert CHARSET[0] == 'q' && CHARSET[1] == 'p';
    var i, j := CharsetIndex('q'), CharsetIndex('p');
    hide IndexBelow;
  }

  /** In an address that ends in p, a q put before that p is accepted whenever the
      payload it makes is one decodeBech32 takes: the state there is zero, and a q,
      whose value is zero, keeps it. */
  lemma QBeforeFinalP(raw: string, changed: string, p: string, a: string)
    requires Decode(raw).Ok? && '1' !in a + "p"
    requires Lowercase(raw) == p + "1" + (a + "p") && Lowercase(changed) == p + "1" + (a + "q" + "p")
    ensures Decode(changed).Ok? <==> WellTyped(changed) && GoodPayload(|a| + 2)
  {
    hide Decode, WellTyped, InCharset, CharsetIndex, GoodPayload, Step, Polymod;
    InsertionExactly(raw, changed, p, a, 'q', "p");
    FirstValues();
    FinalState(raw, p, a, "p");
    StateOne(p, a, 'p');
    ZeroBeforeFinalOne(State(p, a));
    StepFromZero(0);
  }

  lemma FinalState(raw: string, p: string, a: string, b: string)
    requires Decode(raw).Ok? && '1' !in a + b && Lowercase(raw) == p + "1" + (a + b)
    ensures InCharset(a + b) && State(p, a + b) == 1
  {
    hide Decode, WellTyped, InCharset, GoodPayload;
    DecodesExactly(raw);
    TextExactly(p, a + b);
  }

  /** Into the address of a key, 20 bytes, nothing but a separator goes unnoticed. */
  lemma KeyInsertionIsRefused(raw: string, changed: string, p: string, a: string, d: char, b: string)
    requires Decode(raw).Ok? && Decode(raw).bytes == 20 && '1' !in a + b && d != '1'
    requires Lowercase(raw) == p + "1" + (a + b) && Lowercase(changed) == p + "1" + (a + [d] + b)
    ensures Decode(changed).Bad?
  {
    hide Decode, WellTyped, InCharset, CharsetIndex, GoodPayload, Step, State;
    InsertionExactly(raw, changed, p, a, d, b);
    BytesOf(raw, p, a + b);
    KeyLength(|a + b|);
  }

  lemma KeyLength(n: nat)
    requires n >= 6 && GoodPayload(n) && (n - 6) * 5 / 8 == 20
    ensures !GoodPayload(n + 1)
  {
    assert n == 38;
  }

  lemma BytesOf(raw: string, p: string, data: string)
    requires Decode(raw).Ok? && '1' !in data && Lowercase(raw) == p + "1" + data
    ensures |data| >= 6 && GoodPayload(|data|) && Decode(raw) == Result.Ok(p, (|data| - 6) * 5 / 8)
  {
    LooksRightAlready(raw, p, data);
    hide Checksum, InCharset;
    Splits(p, data);
  }

  // ------------------------------------------------------------- a false separator

  /** A data character replaced by the separator: the text splits there. It is accepted
      exactly when what follows is long enough and whole, and its characters are met in
      the same state. */
  lemma OneForDataExactly(raw: string, changed: string, p: string, a: string, d: char, b: string)
    requires Decode(raw).Ok? && '1' !in a + [d] + b
    requires Lowercase(raw) == p + "1" + (a + [d] + b) && Lowercase(changed) == p + "1" + (a + "1" + b)
    ensures InCharset(a + [d])
    ensures Decode(changed).Ok? <==> WellTyped(changed) && GoodPayload(|b|) && State(p + "1" + a, "") == State(p, a + [d])
  {
    hide Decode, WellTyped, State, InCharset, CharsetIndex, GoodPayload;
    LooksRightAlready(raw, p, a + [d] + b);
    WithoutOne(a, d, b);
    FalseSeparator(p, a, b);
    SlipExactly(raw, changed, p, a + [d], p + "1" + a, "", b);
  }

  /** The same of a separator put in between. */
  lemma OneInDataExactly(raw: string, changed: string, p: string, a: string, b: string)
    requires Decode(raw).Ok? && '1' !in a + b
    requires Lowercase(raw) == p + "1" + (a + b) && Lowercase(changed) == p + "1" + (a + "1" + b)
    ensures InCharset(a)
    ensures Decode(changed).Ok? <==> WellTyped(changed) && GoodPayload(|b|) && State(p + "1" + a, "") == State(p, a)
  {
    hide Decode, WellTyped, State, InCharset, CharsetIndex, GoodPayload;
    LooksRightAlready(raw, p, a + b);
    NotOne(a, 'q', b);
    FalseSeparator(p, a, b);
    WithoutOne(a, 'q', b);
    SlipExactly(raw, changed, p, a, p + "1" + a, "", b);
  }

  lemma FalseSeparator(p: string, a: string, b: string)
    ensures p + "1" + (a + "1" + b) == (p + "1" + a) + "1" + ("" + b)
    ensures "" + b == b && p + "1" + a != "" && InCharset("")
  {
  }

  // -------------------------------------------------- in the prefix, or the separator

  /** Anything else in the place of the prefix: accepted exactly when the data is met in
      the same state. */
  lemma PrefixExactly(raw: string, changed: string, p: string, q: string, data: string)
    requires Decode(raw).Ok? && '1' !in data
    requires Lowercase(raw) == p + "1" + data && Lowercase(changed) == q + "1" + data
    ensures Decode(changed).Ok? <==> WellTyped(changed) && q != "" && State(q, "") == State(p, "")
  {
    hide Decode, WellTyped, State, InCharset;
    LooksRightAlready(raw, p, data);
    assert "" + data == data;
    SlipExactly(raw, changed, p, "", q, "", data);
  }

  /** The separator replaced by e, any text without one, the empty text too: the text
      then splits at a separator within the prefix, if there is one. */
  lemma SeparatorExactly(raw: string, changed: string, u: string, w: string, e: string, data: string)
    requires Decode(raw).Ok? && '1' !in w + e + data && '1' !in data
    requires Lowercase(raw) == u + "1" + w + "1" + data && Lowercase(changed) == u + "1" + (w + e + data)
    ensures Decode(changed).Ok? <==>
      WellTyped(changed) && u != "" && InCharset(w + e) && GoodPayload(|w + e + data|) && State(u, w + e) == State(u + "1" + w, "")
  {
    hide Decode, WellTyped, State, InCharset, GoodPayload;
    LooksRightAlready(raw, u + "1" + w, data);
    assert "" + data == data && w + e + data == (w + e) + data;
    SlipExactly(raw, changed, u + "1" + w, "", u, w + e, data);
    TwoPieces(w + e, data);
  }

  /** The separator exchanged with the character after it. */
  lemma SeparatorForwardExactly(raw: string, changed: string, p: string, d: char, b: string)
    requires Decode(raw).Ok? && '1' !in [d] + b
    requires Lowercase(raw) == p + "1" + ([d] + b) && Lowercase(changed) == p + [d] + "1" + b
    ensures InCharset([d])
    ensures Decode(changed).Ok? <==> WellTyped(changed) && GoodPayload(|b|) && State(p + [d], "") == State(p, [d])
  {
    hide Decode, WellTyped, State, InCharset, GoodPayload;
    assert [] + [d] + b == [d] + b;
    LooksRightAlready(raw, p, [d] + b);
    WithoutOne([], d, b);
    assert "" + b == b;
    TwoPieces("", b);
    SlipExactly(raw, changed, p, [d], p + [d], "", b);
  }

  /** The separator exchanged with the character before it. */
  lemma SeparatorBackExactly(raw: string, changed: string, q: string, e: char, data: string)
    requires Decode(raw).Ok? && '1' !in data && e != '1'
    requires Lowercase(raw) == q + [e] + "1" + data && Lowercase(changed) == q + "1" + ([e] + data)
    ensures Decode(changed).Ok? <==>
      WellTyped(changed) && q != "" && InCharset([e]) && GoodPayload(|data| + 1) && State(q, [e]) == State(q + [e], "")
  {
    hide Decode, WellTyped, State, InCharset, GoodPayload;
    LooksRightAlready(raw, q + [e], data);
    assert "" + data == data;
    NotOne([], e, data);
    SlipExactly(raw, changed, q + [e], "", q, [e], data);
    TwoPieces([e], data);
  }

  // ----------------------------------------------------- the values of a prefix

  lemma HighTells(m: nat, n: nat)
    requires m < 4 && n < 4
    ensures m as word < 32 && (m as word == n as word ==> m == n)
  {
    var a: word, b: word := m as word, n as word;
    assert a == (if m == 0 then 0 else if m == 1 then 1 else if m == 2 then 2 else 3);
    assert b == (if n == 0 then 0 else if n == 1 then 1 else if n == 2 then 2 else 3);
  }

  lemma OneCharacterTells(d: char, e: char)
    requires d as int < 128 && e as int < 128 && High(d) == High(e) && Low(d) == Low(e)
    ensures d == e
  {
    HighTells(d as int / 32, e as int / 32);
    WordTells(d as int % 32);
    WordTells(e as int % 32);
  }

  lemma PartsConcat(a: string, b: string)
    ensures Highs(a + b) == Highs(a) + Highs(b)
    ensures Lows(a + b) == Lows(a) + Lows(b)
  {
    hide High, Low;
  }

  lemma NothingRead()
    ensures InCharset("") && DataValues("") == []
  {
  }
}
