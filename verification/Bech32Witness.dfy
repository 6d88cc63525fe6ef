/** An office's address of 32 bytes, and two slips in it that decodeBech32 lets through. */
module Bech32Witness {
  import opened Basics
  import opened Bech32
  import opened Bech32Address
  import opened Bech32Typos

  const HEAD1: string := "p5nwu"
  const HEAD2: string := "cg0md"
  const MIDDLE: string := "rk07qd"

  /** n times q, whose value is zero. */
  function Qs(n: nat): (s: string)
    ensures |s| == n
  {
    seq(n, _ => 'q')
  }

  const HEAD: string := HEAD1 + HEAD2
  const TAIL: string := MIDDLE + Qs(41) + "p"

  /** yml1p5nwucg0mdrk07qdqqqqqqqqqqqqqqqqqqqqqqqqqqqqqqqqqqqqqqqqqp */
  const ADDRESS: string := "yml" + "1" + (HEAD + TAIL)

  /** What the prefix is when the d that ends HEAD is read as a 1. */
  const LONG_PREFIX: string := "yml1p5nwucg0m"

  // ------------------------------------------------------- one value after another

  lemma Moves(c: word, v: word, top: word, r: word, d: word)
    requires top == c >> 25 && r == Mixed(top) && d == ((c & 0x1ffffff) << 5) ^ v ^ r
    ensures Step(c, v) == d
  {
    hide Step, Mixed;
    StepIs(c, v, top, r);
  }

  lemma {:induction false} Chain(st: seq<word>, values: seq<word>)
    requires |st| == |values| + 1 && forall i :: 0 <= i < |values| ==> Step(st[i], values[i]) == st[i + 1]
    ensures PolymodFrom(st[0], values) == st[|values|]
    decreases |values|
  {
    hide Step;
    if values != [] { Chain(st[1..], values[1..]); }
  }

  lemma PrefixState()
    ensures PolymodFrom(0x1, [3, 3, 3, 0, 25, 13, 12]) == 0x4dd5515
  {
    hide Step, PolymodFrom;
    Moves(0x1, 3, 0x0, 0x0, 0x23);
    Moves(0x23, 3, 0x0, 0x0, 0x463);
    Moves(0x463, 3, 0x0, 0x0, 0x8c63);
    Moves(0x8c63, 0, 0x0, 0x0, 0x118c60);
    Moves(0x118c60, 25, 0x0, 0x0, 0x2318c19);
    Moves(0x2318c19, 13, 0x1, 0x3b6a57b2, 0x3d5bd49f);
    Moves(0x3d5bd49f, 12, 0x1e, 0x2fa7c6f9, 0x4dd5515);
    Chain([0x1, 0x23, 0x463, 0x8c63, 0x118c60, 0x2318c19, 0x3d5bd49f, 0x4dd5515], [3, 3, 3, 0, 25, 13, 12]);
  }

  lemma HeadState1()
    ensures PolymodFrom(0x4dd5515, [1, 20, 19, 14, 28]) == 0x3ea1f4
  {
    hide Step, PolymodFrom;
    Moves(0x4dd5515, 1, 0x2, 0x26508e6d, 0x3dfa2ccc);
    Moves(0x3dfa2ccc, 20, 0x1e, 0x2fa7c6f9, 0x10e25f6d);
    Moves(0x10e25f6d, 19, 0x8, 0x3d4233dd, 0x2109de6e);
    Moves(0x2109de6e, 14, 0x10, 0x2a1462b3, 0xb2faf7d);
    Moves(0xb2faf7d, 28, 0x5, 0x25cb4e48, 0x3ea1f4);
    Chain([0x4dd5515, 0x3dfa2ccc, 0x10e25f6d, 0x2109de6e, 0xb2faf7d, 0x3ea1f4], [1, 20, 19, 14, 28]);
  }

  lemma HeadState2()
    ensures PolymodFrom(0x3ea1f4, [24, 8, 15, 27, 13]) == 0x2c43cb0
  {
    hide Step, PolymodFrom;
    Moves(0x3ea1f4, 24, 0x0, 0x0, 0x7d43e98);
    Moves(0x7d43e98, 8, 0x3, 0x1d3ad9df, 0x27bd0ad7);
    Moves(0x27bd0ad7, 15, 0x13, 0x372ebb6c, 0x8fe183);
    Moves(0x8fe183, 27, 0x0, 0x0, 0x11fc307b);
    Moves(0x11fc307b, 13, 0x8, 0x3d4233dd, 0x2c43cb0);
    Chain([0x3ea1f4, 0x7d43e98, 0x27bd0ad7, 0x8fe183, 0x11fc307b, 0x2c43cb0], [24, 8, 15, 27, 13]);
  }

  lemma MiddleState()
    ensures PolymodFrom(0x2c43cb0, [3, 22, 15, 30, 0, 13]) == 0x0
  {
    hide Step, PolymodFrom;
    Moves(0x2c43cb0, 3, 0x1, 0x3b6a57b2, 0x23edc1b1);
    Moves(0x23edc1b1, 22, 0x11, 0x117e3501, 0x2cc60337);
    Moves(0x2cc60337, 15, 0x16, 0x12e5f524, 0xa2593cb);
    Moves(0xa2593cb, 30, 0x5, 0x25cb4e48, 0x21793736);
    Moves(0x21793736, 0, 0x10, 0x2a1462b3, 0x5328473);
    Moves(0x5328473, 13, 0x2, 0x26508e6d, 0x0);
    Chain([0x2c43cb0, 0x23edc1b1, 0x2cc60337, 0xa2593cb, 0x21793736, 0x5328473, 0x0], [3, 22, 15, 30, 0, 13]);
  }

  lemma LongPrefixState1()
    ensures PolymodFrom(0x1, [3, 3, 3, 1, 3, 1, 3]) == 0x4ddbc9a
  {
    hide Step, PolymodFrom;
    Moves(0x1, 3, 0x0, 0x0, 0x23);
    Moves(0x23, 3, 0x0, 0x0, 0x463);
    Moves(0x463, 3, 0x0, 0x0, 0x8c63);
    Moves(0x8c63, 1, 0x0, 0x0, 0x118c61);
    Moves(0x118c61, 3, 0x0, 0x0, 0x2318c23);
    Moves(0x2318c23, 1, 0x1, 0x3b6a57b2, 0x3d5bd3d3);
    Moves(0x3d5bd3d3, 3, 0x1e, 0x2fa7c6f9, 0x4ddbc9a);
    Chain([0x1, 0x23, 0x463, 0x8c63, 0x118c61, 0x2318c23, 0x3d5bd3d3, 0x4ddbc9a], [3, 3, 3, 1, 3, 1, 3]);
  }

  lemma LongPrefixState2()
    ensures PolymodFrom(0x4ddbc9a, [3, 3, 3, 3, 1, 3]) == 0x87f4b26
  {
    hide Step, PolymodFrom;
    Moves(0x4ddbc9a, 3, 0x2, 0x26508e6d, 0x3de71d2e);
    Moves(0x3de71d2e, 3, 0x1e, 0x2fa7c6f9, 0x1344633a);
    Moves(0x1344633a, 3, 0x9, 0x628646f, 0x2ea4032c);
    Moves(0x2ea4032c, 3, 0x17, 0x298fa296, 0x3d0fc715);
    Moves(0x3d0fc715, 1, 0x1e, 0x2fa7c6f9, 0xe5f2458);
    Moves(0xe5f2458, 3, 0x7, 0x39bc025, 0x87f4b26);
    Chain([0x4ddbc9a, 0x3de71d2e, 0x1344633a, 0x2ea4032c, 0x3d0fc715, 0xe5f2458, 0x87f4b26], [3, 3, 3, 3, 1, 3]);
  }

  lemma LongPrefixState3()
    ensures PolymodFrom(0x87f4b26, [0, 25, 13, 12, 17, 16, 21]) == 0x339b95af
  {
    hide Step, PolymodFrom;
    Moves(0x87f4b26, 0, 0x4, 0x1ea119fa, 0x11487d3a);
    Moves(0x11487d3a, 25, 0x8, 0x3d4233dd, 0x144d9484);
    Moves(0x144d9484, 13, 0xa, 0x1b12bdb0, 0x12a02d3d);
    Moves(0x12a02d3d, 12, 0x9, 0x628646f, 0x122dc3c3);
    Moves(0x122dc3c3, 17, 0x9, 0x628646f, 0x3901c1e);
    Moves(0x3901c1e, 16, 0x1, 0x3b6a57b2, 0x969d462);
    Moves(0x969d462, 21, 0x4, 0x1ea119fa, 0x339b95af);
    Chain([0x87f4b26, 0x11487d3a, 0x144d9484, 0x12a02d3d, 0x122dc3c3, 0x3901c1e, 0x969d462, 0x339b95af], [0, 25, 13, 12, 17, 16, 21]);
  }

  lemma LongPrefixState4()
    ensures PolymodFrom(0x339b95af, [14, 23, 21, 3, 7, 16, 13]) == 0x2c43cb0
  {
    hide Step, PolymodFrom;
    Moves(0x339b95af, 14, 0x19, 0x2c3c06dc, 0x1f4eb332);
    Moves(0x1f4eb332, 23, 0xf, 0x3ed9f3f8, 0x170f95af);
    Moves(0x170f95af, 21, 0xb, 0x2078ea02, 0x18a5ff7);
    Moves(0x18a5ff7, 3, 0x0, 0x0, 0x314bfee3);
    Moves(0x314bfee3, 7, 0x18, 0x1756516e, 0x3e298d09);
    Moves(0x3e298d09, 16, 0x1f, 0x14cd914b, 0x11fc307b);
    Moves(0x11fc307b, 13, 0x8, 0x3d4233dd, 0x2c43cb0);
    Chain([0x339b95af, 0x1f4eb332, 0x170f95af, 0x18a5ff7, 0x314bfee3, 0x3e298d09, 0x11fc307b, 0x2c43cb0], [14, 23, 21, 3, 7, 16, 13]);
  }

  // -------------------------------------------------------- the values of the data

  lemma CharsetAt(i: nat, c: char)
    requires i < 32 && CHARSET[i] == c
    ensures CharsetIndex(c) == Some(i)
  {
    hide IndexBelow;
  }

  lemma Words()
    ensures Word(0) == 0 && Word(1) == 1 && Word(3) == 3 && Word(8) == 8 && Word(13) == 13 && Word(14) == 14 && Word(15) == 15 && Word(19) == 19
    ensures Word(20) == 20 && Word(22) == 22 && Word(24) == 24 && Word(27) == 27 && Word(28) == 28 && Word(30) == 30
  {
  }

  lemma Head1Values()
    ensures InCharset(HEAD1) && DataValues(HEAD1) == [Word(1), Word(20), Word(19), Word(14), Word(28)]
  {
    hide IndexBelow, Word;
    CharsetAt(1, 'p');
    CharsetAt(20, '5');
    CharsetAt(19, 'n');
    CharsetAt(14, 'w');
    CharsetAt(28, 'u');
  }

  lemma Head2Values()
    ensures InCharset(HEAD2) && DataValues(HEAD2) == [Word(24), Word(8), Word(15), Word(27), Word(13)]
  {
    hide IndexBelow, Word;
    CharsetAt(24, 'c');
    CharsetAt(8, 'g');
    CharsetAt(15, '0');
    CharsetAt(27, 'm');
    CharsetAt(13, 'd');
  }

  lemma MiddleValues()
    ensures InCharset(MIDDLE) && DataValues(MIDDLE) == [Word(3), Word(22), Word(15), Word(30), Word(0), Word(13)]
  {
    hide IndexBelow, Word;
    CharsetAt(3, 'r');
    CharsetAt(22, 'k');
    CharsetAt(15, '0');
    CharsetAt(30, '7');
    CharsetAt(0, 'q');
    CharsetAt(13, 'd');
  }

  lemma ReadOn(x: string, y: string, c: word, d: word, e: word)
    requires InCharset(x) && InCharset(y) && PolymodFrom(c, DataValues(x)) == d && PolymodFrom(d, DataValues(y)) == e
    ensures InCharset(x + y) && PolymodFrom(c, DataValues(x + y)) == e
  {
    DataValuesConcat(x, y);
    PolymodConcat(c, DataValues(x), DataValues(y));
  }

  lemma ReadHead()
    ensures InCharset(HEAD) && PolymodFrom(0x4dd5515, DataValues(HEAD)) == 0x2c43cb0
  {
    hide InCharset, PolymodFrom, DataValues, Word;
    Words();
    Head1Values();
    Head2Values();
    HeadState1();
    HeadState2();
    ReadOn(HEAD1, HEAD2, 0x4dd5515, 0x3ea1f4, 0x2c43cb0);
  }

  /** The state zero stays zero. */
  lemma {:induction false} ReadQs(n: nat)
    ensures InCharset(Qs(n)) && PolymodFrom(0, DataValues(Qs(n))) == 0
  {
    FirstValues();
    if n > 0 {
      StepFromZero(0);
      ReadQs(n - 1);
      assert DataValues(Qs(n))[1..] == DataValues(Qs(n - 1));
    }
  }

  lemma ReadP()
    ensures InCharset("p") && PolymodFrom(0, DataValues("p")) == 1
  {
    FirstValues();
    StepFromZero(1);
    assert DataValues("p") == [1] && DataValues("p")[1..] == [];
  }

  lemma ReadTail()
    ensures InCharset(TAIL) && PolymodFrom(0x2c43cb0, DataValues(TAIL)) == 1
  {
    hide InCharset, PolymodFrom, DataValues, Word;
    Words();
    MiddleValues();
    MiddleState();
    ReadQs(41);
    ReadP();
    ReadOn(MIDDLE, Qs(41), 0x2c43cb0, 0, 0);
    ReadOn(MIDDLE + Qs(41), "p", 0x2c43cb0, 0, 1);
  }

  // ------------------------------------------------------ the values of a prefix

  lemma LowIs(c: char, n: nat, w: word)
    requires c as int % 32 == n && w == Word(n)
    ensures Low(c) == w
  {
  }

  lemma PrefixValues()
    ensures HrpExpand("yml") == [3, 3, 3, 0, 25, 13, 12]
  {
    assert Highs("yml") == [3, 3, 3];
    hide Low;
    LowIs('y', 25, 25);
    LowIs('m', 13, 13);
    LowIs('l', 12, 12);
    assert Lows("yml") == [25, 13, 12];
  }

  lemma LongPrefixHighs()
    ensures Highs("yml1p5n") == [3, 3, 3, 1, 3, 1, 3] && Highs("wucg0m") == [3, 3, 3, 3, 1, 3]
  {
  }

  lemma LongPrefixLows()
    ensures Lows("yml1p5") == [25, 13, 12, 17, 16, 21] && Lows("nwucg0m") == [14, 23, 21, 3, 7, 16, 13]
  {
    hide Low;
    LowIs('y', 25, 25);
    LowIs('m', 13, 13);
    LowIs('l', 12, 12);
    LowIs('1', 17, 17);
    LowIs('p', 16, 16);
    LowIs('5', 21, 21);
    LowIs('n', 14, 14);
    LowIs('w', 23, 23);
    LowIs('u', 21, 21);
    LowIs('c', 3, 3);
    LowIs('g', 7, 7);
    LowIs('0', 16, 16);
  }

  lemma LongPrefixValues()
    ensures HrpExpand(LONG_PREFIX) ==
      [3, 3, 3, 1, 3, 1, 3] + [3, 3, 3, 3, 1, 3] + [0, 25, 13, 12, 17, 16, 21] + [14, 23, 21, 3, 7, 16, 13]
  {
    hide Highs, Lows;
    LongPrefixHighs();
    LongPrefixLows();
    assert LONG_PREFIX == "yml1p5n" + "wucg0m" && LONG_PREFIX == "yml1p5" + "nwucg0m";
    PartsConcat("yml1p5n", "wucg0m");
    PartsConcat("yml1p5", "nwucg0m");
  }

  lemma LongPrefixRead()
    ensures InCharset("") && State(LONG_PREFIX, "") == 0x2c43cb0
  {
    hide PolymodFrom;
    NothingRead();
    LongPrefixValues();
    LongPrefixState1();
    LongPrefixState2();
    LongPrefixState3();
    LongPrefixState4();
    var a: seq<word>, b: seq<word>, c: seq<word>, d: seq<word> :=
      [3, 3, 3, 1, 3, 1, 3], [3, 3, 3, 3, 1, 3], [0, 25, 13, 12, 17, 16, 21], [14, 23, 21, 3, 7, 16, 13];
    PolymodConcat(1, a + b + c, d);
    PolymodConcat(1, a + b, c);
    PolymodConcat(1, a, b);
    assert HrpExpand(LONG_PREFIX) + [] == HrpExpand(LONG_PREFIX);
  }

  /** The checksum state after HEAD, and after all of the address. */
  lemma DataRead()
    ensures InCharset(HEAD) && InCharset(TAIL) && InCharset(HEAD + TAIL)
    ensures State("yml", HEAD) == 0x2c43cb0 && State("yml", HEAD + TAIL) == 1
  {
    hide PolymodFrom, InCharset;
    NothingRead();
    PrefixValues();
    PrefixState();
    assert HrpExpand("yml") + [] == HrpExpand("yml");
    ReadHead();
    StateThen("yml", "", HEAD);
    assert "" + HEAD == HEAD;
    ReadTail();
    StateThen("yml", HEAD, TAIL);
  }

  // ------------------------------------------------------------------- well typed

  predicate Plain(s: string) {
    forall i :: 0 <= i < |s| ==> '0' <= s[i] <= '9' || 'a' <= s[i] <= 'z'
  }

  lemma CharsetIsPlain(i: nat)
    requires i < |CHARSET|
    ensures '0' <= CHARSET[i] <= '9' || 'a' <= CHARSET[i] <= 'z'
  {
  }

  lemma DataIsPlain(s: string)
    requires InCharset(s)
    ensures Plain(s) && '1' !in s
  {
    forall i | 0 <= i < |s| ensures '0' <= s[i] <= '9' || 'a' <= s[i] <= 'z' {
      CharsetIsPlain(CharsetIndex(s[i]).value);
    }
    NoOnes(s);
  }

  lemma PlainIsTyped(s: string)
    requires Plain(s) && 1 <= |s| <= 90
    ensures WellTyped(s) && Lowercase(s) == s
  {
    assert Lowercase(s) == s;
  }

  lemma PlainConcat(a: string, b: string)
    requires Plain(a) && Plain(b)
    ensures Plain(a + b)
  {
  }

  /** The prefix, the separator and any such data. */
  lemma AddressIsTyped(data: string)
    requires Plain(data) && |data| <= 86
    ensures WellTyped("yml" + "1" + data) && Lowercase("yml" + "1" + data) == "yml" + "1" + data
  {
    assert Plain("yml" + "1");
    PlainConcat("yml" + "1", data);
    PlainIsTyped("yml" + "1" + data);
  }

  lemma AddressIsAccepted()
    ensures Decode(ADDRESS) == Result.Ok("yml", 32) && Lowercase(ADDRESS) == ADDRESS && '1' !in HEAD + TAIL
  {
    hide Decode, WellTyped, InCharset, Polymod;
    DataRead();
    DataIsPlain(HEAD + TAIL);
    AddressIsTyped(HEAD + TAIL);
    TextExactly("yml", HEAD + TAIL);
    DecodesExactly(ADDRESS);
    BytesOf(ADDRESS, "yml", HEAD + TAIL);
  }

  // -------------------------------------------------------------------- two slips

  lemma WithQ(a: string)
    requires InCharset(a + "p")
    ensures InCharset(a + "q" + "p")
  {
    hide InCharset, CharsetIndex;
    FirstValues();
    OneCharacter('q');
    OneCharacter('p');
    TwoPieces(a, "p");
    TwoPieces(a, "q");
    TwoPieces(a + "q", "p");
  }

  /** A q put in before the final p, and the address is accepted as one of 33 bytes. */
  lemma InsertedQIsAccepted()
    ensures Decode("yml" + "1" + (HEAD + (MIDDLE + Qs(41)) + "q" + "p")) == Result.Ok("yml", 33)
  {
    hide Decode, WellTyped, InCharset, Polymod, PolymodFrom, Plain, State;
    AddressIsAccepted();
    DataRead();
    var a := HEAD + (MIDDLE + Qs(41));
    Assoc(HEAD, MIDDLE + Qs(41), "p");
    WithQ(a);
    DataIsPlain(a + "q" + "p");
    AddressIsTyped(a + "q" + "p");
    var changed := "yml" + "1" + (a + "q" + "p");
    QBeforeFinalP(ADDRESS, changed, "yml", a);
    BytesOf(changed, "yml", a + "q" + "p");
  }

  /** The d that ends HEAD typed as a 1, and the address is accepted under the prefix
      that this makes, as one of 26 bytes. */
  lemma OneForDIsAccepted()
    ensures Decode("yml" + "1" + ("p5nwucg0m" + "1" + TAIL)) == Result.Ok(LONG_PREFIX, 26)
  {
    hide Decode, WellTyped, InCharset, Polymod;
    AddressIsAccepted();
    assert HEAD == "p5nwucg0m" + "d";
    DataRead();
    LongPrefixRead();
    DataIsPlain(TAIL);
    var changed := "yml" + "1" + ("p5nwucg0m" + "1" + TAIL);
    assert Plain("p5nwucg0m" + "1");
    PlainConcat("p5nwucg0m" + "1", TAIL);
    AddressIsTyped("p5nwucg0m" + "1" + TAIL);
    assert LONG_PREFIX == "yml" + "1" + "p5nwucg0m";
    OneForDataExactly(ADDRESS, changed, "yml", "p5nwucg0m", 'd', TAIL);
    assert changed == LONG_PREFIX + "1" + TAIL;
    BytesOf(changed, LONG_PREFIX, TAIL);
  }
}
