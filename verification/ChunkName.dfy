/** The file name of a 1.0 world chunk, as internal/backup/worldcheck.go prints it from an index entry. */
module ChunkName {
  import opened Bytes
  import opened Text
  import opened Decimal

  /** The seven bytes that name a chunk: three bytes and a word. */
  datatype ChunkId = ChunkId(e0: byte, e1: byte, e2: byte, word: uint32)

  function HexDigit(n: nat): char
    requires n < 16
  {
    if n < 10 then '0' + n as char else 'a' + (n - 10) as char
  }

  /** %02x */
  function Hex2(b: byte): string {
    [HexDigit(b as nat / 16), HexDigit(b as nat % 16)]
  }

  function Name(id: ChunkId): string {
    Join([Hex2(id.e1), Hex2(id.e0), "", Dec(id.e2 as nat), Dec(id.word) + ".chunk"], '_')
  }

  function DigitValue(c: char): nat {
    if '0' <= c <= '9' then (c - '0') as nat
    else if 'a' <= c <= 'f' then 10 + (c - 'a') as nat
    else 0
  }

  lemma {:induction false} HexDigitIsRead(n: nat)
    requires n < 16
    ensures DigitValue(HexDigit(n)) == n && HexDigit(n) != '_' && HexDigit(n) != '.'
  {
  }

  lemma {:induction false} DecHasNoBar(n: nat)
    ensures '_' !in Dec(n)
  {
    DecIsRead(n);
  }

  lemma {:induction false} Hex2IsRead(b: byte)
    ensures 16 * DigitValue(Hex2(b)[0]) + DigitValue(Hex2(b)[1]) == b as nat && '_' !in Hex2(b)
  {
    HexDigitIsRead(b as nat / 16);
    HexDigitIsRead(b as nat % 16);
  }

  lemma {:induction false} NameParts(id: ChunkId)
    ensures Split(Name(id), '_') == [Hex2(id.e1), Hex2(id.e0), "", Dec(id.e2 as nat), Dec(id.word) + ".chunk"]
  {
    Hex2IsRead(id.e1);
    Hex2IsRead(id.e0);
    DecHasNoBar(id.e2 as nat);
    DecHasNoBar(id.word);
    hide Hex2, Dec, Split, Join;
    var parts := [Hex2(id.e1), Hex2(id.e0), "", Dec(id.e2 as nat), Dec(id.word) + ".chunk"];
    assert '_' !in parts[4];
    SplitJoin(parts, '_');
  }

  /** Two chunks never share a file name. */
  lemma {:induction false} NameIsInjective(a: ChunkId, b: ChunkId)
    requires Name(a) == Name(b)
    ensures a == b
  {
    NameParts(a);
    NameParts(b);
    hide Split, Name, Dec;
    var pa := [Hex2(a.e1), Hex2(a.e0), "", Dec(a.e2 as nat), Dec(a.word) + ".chunk"];
    var pb := [Hex2(b.e1), Hex2(b.e0), "", Dec(b.e2 as nat), Dec(b.word) + ".chunk"];
    assert pa == pb;
    assert pa[0] == pb[0] && pa[1] == pb[1] && pa[3] == pb[3] && pa[4] == pb[4];
    SuffixCancels(Dec(a.word), Dec(b.word), ".chunk");
    hide Hex2;
    Hex2IsRead(a.e1);
    Hex2IsRead(b.e1);
    Hex2IsRead(a.e0);
    Hex2IsRead(b.e0);
    DecIsRead(a.e2 as nat);
    DecIsRead(b.e2 as nat);
    DecIsRead(a.word);
    DecIsRead(b.word);
  }

  lemma {:induction false} SuffixCancels(a: string, b: string, suffix: string)
    requires a + suffix == b + suffix
    ensures a == b
  {
    assert |a| == |b|;
    assert a == (a + suffix)[..|a|] && b == (b + suffix)[..|b|];
  }

  // ----- and the other way: what a name spells -----

  predicate IsHexDigit(c: char) { '0' <= c <= '9' || 'a' <= c <= 'f' }

  lemma {:induction false} HexDigitOfValue(c: char)
    requires IsHexDigit(c)
    ensures DigitValue(c) < 16 && HexDigit(DigitValue(c)) == c
  {
  }

  lemma {:induction false} PairIsHex2(c1: char, c0: char)
    requires IsHexDigit(c1) && IsHexDigit(c0)
    ensures 16 * DigitValue(c1) + DigitValue(c0) < 256
    ensures Hex2((16 * DigitValue(c1) + DigitValue(c0)) as byte) == [c1, c0]
  {
    HexDigitOfValue(c1);
    HexDigitOfValue(c0);
    hide HexDigit, DigitValue;
  }

  lemma {:induction false} JoinFive(a: string, b: string, c: string, d: string, e: string)
    ensures Join([a, b, c, d, e], '_') == a + "_" + b + "_" + c + "_" + d + "_" + e
  {
    var four, three, two, one := [b, c, d, e], [c, d, e], [d, e], [e];
    assert [a, b, c, d, e][1..] == four && four[1..] == three && three[1..] == two && two[1..] == one;
    assert Join(one, '_') == e && Join(two, '_') == d + "_" + e && Join(three, '_') == c + "_" + (d + "_" + e);
    assert Join(four, '_') == b + "_" + (c + "_" + (d + "_" + e));
  }

  /**
   Any two pairs of lower-case hexadecimal digits and two decimals without leading zeros, put together as a
   chunk's name, are the name of the chunk they spell, the second pair its first byte.
  */
  lemma {:induction false} NameIsSpelled(h1: char, h0: char, l1: char, l0: char, kind: string, word: string)
    requires IsHexDigit(h1) && IsHexDigit(h0) && IsHexDigit(l1) && IsHexDigit(l0)
    requires IsDecimal(kind) && IsDecimal(word) && Value(kind) < 256 && Value(word) < 0x1_0000_0000
    ensures
      var high, low := 16 * DigitValue(h1) + DigitValue(h0), 16 * DigitValue(l1) + DigitValue(l0);
      high < 256 && low < 256 &&
      Name(ChunkId(low as byte, high as byte, Value(kind) as byte, Value(word)))
      == [h1, h0] + "_" + [l1, l0] + "__" + kind + "_" + word + ".chunk"
  {
    hide DigitValue, Hex2, Dec, Join, IsDecimal, Value, IsHexDigit;
    PairIsHex2(h1, h0);
    PairIsHex2(l1, l0);
    ReadIsDec(kind);
    ReadIsDec(word);
    JoinFive([h1, h0], [l1, l0], "", kind, word + ".chunk");
    Bars([h1, h0], [l1, l0], kind, word);
  }

  lemma {:induction false} Bars(a: string, b: string, kind: string, word: string)
    ensures a + "_" + b + "_" + "" + "_" + kind + "_" + (word + ".chunk")
            == a + "_" + b + "__" + kind + "_" + word + ".chunk"
  {
  }

  /** As in this one. */
  lemma {:induction false} OneName()
    ensures Name(ChunkId(0x0a, 0x01, 5, 7)) == "01_0a__5_7.chunk"
  {
    assert "5"[..0] == "" && "7"[..0] == "";
    assert Value("5") == 5 && Value("7") == 7;
    NameIsSpelled('0', '1', '0', 'a', "5", "7");
    hide Name;
    assert ['0', '1'] + "_" + ['0', 'a'] + "__" + "5" + "_" + "7" + ".chunk" == "01_0a__5_7.chunk";
  }
}
