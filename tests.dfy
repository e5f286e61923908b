/** The repository's unit tests (`ser_string`, `ser_int`, `ser_list`,
    `ser_dict`), each expected output stated as a lemma about the model. */
module Tests {
  import opened Bytes
  import opened Decimal
  import opened KeyOrder
  import opened Bencode
  import opened SortedMap

  /** Peels off the last digit of a rendering; used to evaluate long literals. */
  lemma LastDigit(n: nat, prefix: seq<Byte>)
    requires n >= 10 && NatToDecimal(n / 10) == prefix
    ensures NatToDecimal(n) == prefix + [Digit(n % 10)]
  {
  }

  lemma SerString()
    ensures EncodeStr(Ascii("")) == Ascii("0:")
    ensures EncodeStr(Ascii("spam")) == Ascii("4:spam")
  {
  }

  lemma SerInt()
    ensures EncodeInt(0) == Ascii("i0e")
    ensures EncodeInt(-0) == Ascii("i0e")
    ensures EncodeInt(3) == Ascii("i3e")
    ensures EncodeInt(-3) == Ascii("i-3e")
  {
  }

  /** The digits of the largest 64-bit magnitudes, as byte values: the bytes
      below spell "9223372036854775807". */
  lemma MaxDigits()
    ensures NatToDecimal(9223372036854775807) == [57, 50, 50, 51, 51, 55, 50, 48, 51, 54, 56, 53, 52, 55, 55, 53, 56, 48, 55]
  {
    LastDigit(92, [57]);
    LastDigit(922, [57, 50]);
    LastDigit(9223, [57, 50, 50]);
    LastDigit(92233, [57, 50, 50, 51]);
    LastDigit(922337, [57, 50, 50, 51, 51]);
    LastDigit(9223372, [57, 50, 50, 51, 51, 55]);
    LastDigit(92233720, [57, 50, 50, 51, 51, 55, 50]);
    LastDigit(922337203, [57, 50, 50, 51, 51, 55, 50, 48]);
    LastDigit(9223372036, [57, 50, 50, 51, 51, 55, 50, 48, 51]);
    LastDigit(92233720368, [57, 50, 50, 51, 51, 55, 50, 48, 51, 54]);
    LastDigit(922337203685, [57, 50, 50, 51, 51, 55, 50, 48, 51, 54, 56]);
    LastDigit(9223372036854, [57, 50, 50, 51, 51, 55, 50, 48, 51, 54, 56, 53]);
    LastDigit(92233720368547, [57, 50, 50, 51, 51, 55, 50, 48, 51, 54, 56, 53, 52]);
    LastDigit(922337203685477, [57, 50, 50, 51, 51, 55, 50, 48, 51, 54, 56, 53, 52, 55]);
    LastDigit(9223372036854775, [57, 50, 50, 51, 51, 55, 50, 48, 51, 54, 56, 53, 52, 55, 55]);
    LastDigit(92233720368547758, [57, 50, 50, 51, 51, 55, 50, 48, 51, 54, 56, 53, 52, 55, 55, 53]);
    LastDigit(922337203685477580, [57, 50, 50, 51, 51, 55, 50, 48, 51, 54, 56, 53, 52, 55, 55, 53, 56]);
    LastDigit(9223372036854775807, [57, 50, 50, 51, 51, 55, 50, 48, 51, 54, 56, 53, 52, 55, 55, 53, 56, 48]);
  }

  /** The bytes below spell "9223372036854775808". */
  lemma MinDigits()
    ensures NatToDecimal(9223372036854775808) == [57, 50, 50, 51, 51, 55, 50, 48, 51, 54, 56, 53, 52, 55, 55, 53, 56, 48, 56]
  {
    LastDigit(92, [57]);
    LastDigit(922, [57, 50]);
    LastDigit(9223, [57, 50, 50]);
    LastDigit(92233, [57, 50, 50, 51]);
    LastDigit(922337, [57, 50, 50, 51, 51]);
    LastDigit(9223372, [57, 50, 50, 51, 51, 55]);
    LastDigit(92233720, [57, 50, 50, 51, 51, 55, 50]);
    LastDigit(922337203, [57, 50, 50, 51, 51, 55, 50, 48]);
    LastDigit(9223372036, [57, 50, 50, 51, 51, 55, 50, 48, 51]);
    LastDigit(92233720368, [57, 50, 50, 51, 51, 55, 50, 48, 51, 54]);
    LastDigit(922337203685, [57, 50, 50, 51, 51, 55, 50, 48, 51, 54, 56]);
    LastDigit(9223372036854, [57, 50, 50, 51, 51, 55, 50, 48, 51, 54, 56, 53]);
    LastDigit(92233720368547, [57, 50, 50, 51, 51, 55, 50, 48, 51, 54, 56, 53, 52]);
    LastDigit(922337203685477, [57, 50, 50, 51, 51, 55, 50, 48, 51, 54, 56, 53, 52, 55]);
    LastDigit(9223372036854775, [57, 50, 50, 51, 51, 55, 50, 48, 51, 54, 56, 53, 52, 55, 55]);
    LastDigit(92233720368547758, [57, 50, 50, 51, 51, 55, 50, 48, 51, 54, 56, 53, 52, 55, 55, 53]);
    LastDigit(922337203685477580, [57, 50, 50, 51, 51, 55, 50, 48, 51, 54, 56, 53, 52, 55, 55, 53, 56]);
    LastDigit(9223372036854775808, [57, 50, 50, 51, 51, 55, 50, 48, 51, 54, 56, 53, 52, 55, 55, 53, 56, 48]);
  }

  lemma SerIntMax()
    ensures EncodeInt(I64_MAX) == Ascii("i9223372036854775807e")
  {
    MaxShape();
    MaxDigits();
    MaxText();
  }

  lemma MaxShape()
    ensures EncodeInt(I64_MAX) == [TAG_INT] + NatToDecimal(9223372036854775807) + [TAG_END]
  {
  }

  /** The bracketed bytes spell the digits of "i9223372036854775807e". */
  lemma MaxText()
    ensures Ascii("i9223372036854775807e") == [TAG_INT] + [57, 50, 50, 51, 51, 55, 50, 48, 51, 54, 56, 53, 52, 55, 55, 53, 56, 48, 55] + [TAG_END]
  {
  }

  lemma SerIntMin()
    ensures EncodeInt(I64_MIN) == Ascii("i-9223372036854775808e")
  {
    MinShape();
    MinDigits();
    MinText();
  }

  lemma MinShape()
    ensures EncodeInt(I64_MIN) == [TAG_INT] + ([MINUS] + NatToDecimal(9223372036854775808)) + [TAG_END]
  {
    assert -I64_MIN == 9223372036854775808;
    assert IntToDecimal(I64_MIN) == [MINUS] + NatToDecimal(9223372036854775808);
  }

  /** The bracketed bytes spell the digits of "i-9223372036854775808e". */
  lemma MinText()
    ensures Ascii("i-9223372036854775808e") == [TAG_INT] + ([MINUS] + [57, 50, 50, 51, 51, 55, 50, 48, 51, 54, 56, 53, 52, 55, 55, 53, 56, 48, 56]) + [TAG_END]
  {
  }

  lemma SerListEmpty()
    ensures EncodeList([]) == Ascii("le")
  {
  }

  lemma SerListInts()
    ensures EncodeList([BInt(1), BInt(2)]) == Ascii("li1ei2ee")
  {
    ListOfTwo(BInt(1), BInt(2));
    IntTexts();
    assert Ascii("li1ei2ee") == [TAG_LIST] + (Ascii("i1e") + Ascii("i2e")) + [TAG_END];
  }

  /** The `[T]` slice case of `ser_list`; slices and vectors share one encoder. */
  lemma SerListSlice()
    ensures EncodeList([BInt(1), BInt(2), BInt(3)]) == Ascii("li1ei2ei3ee")
  {
    ListOfThree(BInt(1), BInt(2), BInt(3));
    IntTexts();
    SliceText();
  }

  lemma SliceText()
    ensures Ascii("li1ei2ei3ee") == [TAG_LIST] + (Ascii("i1e") + (Ascii("i2e") + Ascii("i3e"))) + [TAG_END]
  {
  }

  lemma SerListStrings()
    ensures EncodeList([BStr(Ascii("hi")), BStr(Ascii("world"))]) == Ascii("l2:hi5:worlde")
  {
    ListOfTwo(BStr(Ascii("hi")), BStr(Ascii("world")));
    StrTexts();
    assert Ascii("l2:hi5:worlde") == [TAG_LIST] + (Ascii("2:hi") + Ascii("5:world")) + [TAG_END];
  }

  lemma IntTexts()
    ensures Encode(BInt(1)) == Ascii("i1e")
    ensures Encode(BInt(2)) == Ascii("i2e")
    ensures Encode(BInt(3)) == Ascii("i3e")
  {
  }

  lemma StrTexts()
    ensures Encode(BStr(Ascii("hi"))) == Ascii("2:hi")
    ensures Encode(BStr(Ascii("world"))) == Ascii("5:world")
  {
  }

  lemma PairConcat(a: Value, b: Value)
    ensures ConcatItems([a, b]) == Encode(a) + Encode(b)
  {
    assert [a, b][1..] == [b] && [b][1..] == [];
    assert ConcatItems([b]) == Encode(b);
  }

  lemma ListOfTwo(a: Value, b: Value)
    ensures EncodeList([a, b]) == [TAG_LIST] + (Encode(a) + Encode(b)) + [TAG_END]
  {
    EncodeListShape([a, b]);
    assert Encode(BList([a, b])) == EncodeList([a, b]);
    PairConcat(a, b);
  }

  lemma ListOfThree(a: Value, b: Value, c: Value)
    ensures EncodeList([a, b, c]) == [TAG_LIST] + (Encode(a) + (Encode(b) + Encode(c))) + [TAG_END]
  {
    EncodeListShape([a, b, c]);
    assert Encode(BList([a, b, c])) == EncodeList([a, b, c]);
    assert [a, b, c][1..] == [b, c];
    PairConcat(b, c);
  }

  /** The map `sut1` of `ser_dict` after its two inserts. */
  function Sut1(): map<seq<Byte>, Value> {
    map[Ascii("name1") := BStr(Ascii("value")), Ascii("name2") := BInt(50)]
  }

  /** Iterating `sut1` visits "name1" before "name2". */
  lemma Sut1Entries()
    ensures Entries(Sut1()) == [Entry(Ascii("name1"), BStr(Ascii("value"))), Entry(Ascii("name2"), BInt(50))]
  {
    var k1, k2 := Ascii("name1"), Ascii("name2");
    var es := [Entry(k1, BStr(Ascii("value"))), Entry(k2, BInt(50))];
    assert Less(k1, k2) by {
      assert k1 == [k1[0]] + k1[1..] && k2 == [k2[0]] + k2[1..];
    }
    assert AsMap(es) == Sut1();
    EntriesUnique(es, Sut1());
  }

  /** The dictionary encoder on the entries of `sut1`, in iteration order. */
  lemma Sut1Encoding()
    ensures EncodeDict([Entry(Ascii("name1"), BStr(Ascii("value"))), Entry(Ascii("name2"), BInt(50))])
      == Ascii("d5:name15:value5:name2i50ee")
  {
    var e1 := Entry(Ascii("name1"), BStr(Ascii("value")));
    var e2 := Entry(Ascii("name2"), BInt(50));
    var p1, p2 := EncodeStr(e1.key) + Encode(e1.value), EncodeStr(e2.key) + Encode(e2.value);
    EncodeDictShape([e1, e2]);
    assert ConcatEntries([e2]) == p2 by {
      assert [e2][1..] == [];
    }
    assert ConcatEntries([e1, e2]) == p1 + p2 by {
      assert [e1, e2][1..] == [e2];
    }
    FirstEntryText();
    SecondEntryText();
    Sut1Text();
  }

  lemma FirstEntryText()
    ensures EncodeStr(Ascii("name1")) + Encode(BStr(Ascii("value"))) == Ascii("5:name15:value")
  {
  }

  lemma SecondEntryText()
    ensures EncodeStr(Ascii("name2")) + Encode(BInt(50)) == Ascii("5:name2i50e")
  {
  }

  lemma Sut1Text()
    ensures Ascii("d5:name15:value5:name2i50ee") == [TAG_DICT] + (Ascii("5:name15:value") + Ascii("5:name2i50e")) + [TAG_END]
  {
  }

  lemma SerDictEmpty()
    ensures EncodeDict(Entries(map[])) == Ascii("de")
  {
    EntriesUnique([], map[]);
  }

  lemma SerDict()
    ensures EncodeDict(Entries(Sut1())) == Ascii("d5:name15:value5:name2i50ee")
  {
    Sut1Entries();
    Sut1Encoding();
  }
}
