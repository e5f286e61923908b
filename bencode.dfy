/** The `Bencode` trait and its implementations, with Rust's dynamic dispatch
    over `&str`, `i64`, `Vec<T>`/`[T]` and `BTreeMap<String, Box<dyn Bencode>>`
    replaced by pattern matching on a closed datatype of values. */
module Bencode {
  import opened Bytes
  import opened Decimal
  import opened KeyOrder

  const I64_MIN: int := -0x8000_0000_0000_0000
  const I64_MAX: int := 0x7FFF_FFFF_FFFF_FFFF

  type I64 = n: int | I64_MIN <= n <= I64_MAX

  /** A value the encoder accepts. A dictionary is held as the sequence of its
      entries in the order its map iterates them; for a `BTreeMap` that order
      is ascending by key (see WellFormed and the SortedMap module). */
  datatype Value =
    | BStr(bytes: seq<Byte>)
    | BInt(n: I64)
    | BList(items: seq<Value>)
    | BDict(entries: seq<Entry>)

  datatype Entry = Entry(key: seq<Byte>, value: Value)

  /** The keys of a dictionary's entries come in strictly ascending order,
      which is what iterating a `BTreeMap` yields. */
  predicate Ascending(es: seq<Entry>) {
    forall i, j :: 0 <= i < j < |es| ==> Less(es[i].key, es[j].key)
  }

  /** Every dictionary anywhere inside the value lists its keys in ascending order. */
  predicate WellFormed(v: Value)
    decreases v
  {
    match v
    case BStr(_) => true
    case BInt(_) => true
    case BList(items) => forall i :: 0 <= i < |items| ==> WellFormed(items[i])
    case BDict(es) => Ascending(es) && forall i :: 0 <= i < |es| ==> WellFormed(es[i].value)
  }

  /** `impl Bencode for &str`: the byte length, a colon, the bytes. */
  function EncodeStr(s: seq<Byte>): (r: seq<Byte>)
    ensures |r| >= |s| + 2 && IsDigit(r[0])
    ensures r[|r| - |s| - 1] == COLON && r[|r| - |s|..] == s
  {
    NatToDecimal(|s|) + [COLON] + s
  }

  /** `impl Bencode for i64`: 'i', the decimal value, 'e'. */
  function EncodeInt(n: I64): (r: seq<Byte>)
    ensures |r| >= 3 && r[0] == TAG_INT && r[|r| - 1] == TAG_END
    ensures r[1] == MINUS <==> n < 0
  {
    [TAG_INT] + IntToDecimal(n) + [TAG_END]
  }

  /** The `bencode` of any value; the first byte tells its kind, and every
      kind but the byte string ends with 'e'. */
  function Encode(v: Value): (r: seq<Byte>)
    ensures |r| >= 2
    ensures IsDigit(r[0]) <==> v.BStr?
    ensures r[0] == TAG_INT <==> v.BInt?
    ensures r[0] == TAG_LIST <==> v.BList?
    ensures r[0] == TAG_DICT <==> v.BDict?
    ensures !v.BStr? ==> r[|r| - 1] == TAG_END
    decreases v
  {
    match v
    case BStr(s) => EncodeStr(s)
    case BInt(n) => EncodeInt(n)
    case BList(items) => EncodeList(items)
    case BDict(es) => EncodeDict(es)
  }

  /** `impl Bencode for Vec<T>` and `impl Bencode for [T]`, whose bodies are the same. */
  function EncodeList(items: seq<Value>): (r: seq<Byte>)
    ensures |r| >= 2 + 2 * |items| && r[0] == TAG_LIST && r[|r| - 1] == TAG_END
    decreases items, 1
  {
    [TAG_LIST] + FoldItems([], items) + [TAG_END]
  }

  /** The `iter().fold` of the list encoders: the accumulator is rebuilt as
      itself followed by the next element's encoding. */
  function FoldItems(acc: seq<Byte>, items: seq<Value>): (r: seq<Byte>)
    ensures |r| >= |acc| + 2 * |items| && r[..|acc|] == acc
    decreases items, 0
  {
    if items == [] then acc else FoldItems(acc + Encode(items[0]), items[1..])
  }

  /** `impl Bencode for BTreeMap<String, Box<dyn Bencode>>`. */
  function EncodeDict(es: seq<Entry>): (r: seq<Byte>)
    ensures |r| >= 2 + 4 * |es| && r[0] == TAG_DICT && r[|r| - 1] == TAG_END
    decreases es, 1
  {
    [TAG_DICT] + FoldEntries([], es) + [TAG_END]
  }

  /** The `iter().fold` of the dictionary encoder: each step appends the key
      encoded as a byte string and then the value's encoding. */
  function FoldEntries(acc: seq<Byte>, es: seq<Entry>): (r: seq<Byte>)
    ensures |r| >= |acc| + 4 * |es| && r[..|acc|] == acc
    decreases es, 0
  {
    if es == [] then acc
    else FoldEntries(acc + EncodeStr(es[0].key) + Encode(es[0].value), es[1..])
  }

  /** Reference definition: the element encodings concatenated in order, no separators. */
  function ConcatItems(items: seq<Value>): seq<Byte> {
    if items == [] then [] else Encode(items[0]) + ConcatItems(items[1..])
  }

  /** Reference definition: key encoding then value encoding, entry by entry. */
  function ConcatEntries(es: seq<Entry>): seq<Byte> {
    if es == [] then [] else EncodeStr(es[0].key) + Encode(es[0].value) + ConcatEntries(es[1..])
  }

  /** The left fold with accumulator `acc` is `acc` followed by the concatenation. */
  lemma {:induction false} FoldItemsConcat(acc: seq<Byte>, items: seq<Value>)
    ensures FoldItems(acc, items) == acc + ConcatItems(items)
    decreases items
  {
    if items != [] {
      FoldItemsConcat(acc + Encode(items[0]), items[1..]);
    }
  }

  lemma {:induction false} FoldEntriesConcat(acc: seq<Byte>, es: seq<Entry>)
    ensures FoldEntries(acc, es) == acc + ConcatEntries(es)
    decreases es
  {
    if es != [] {
      FoldEntriesConcat(acc + EncodeStr(es[0].key) + Encode(es[0].value), es[1..]);
    }
  }

  /** A list encodes as 'l', its elements' encodings in order, 'e'. */
  lemma EncodeListShape(items: seq<Value>)
    ensures Encode(BList(items)) == [TAG_LIST] + ConcatItems(items) + [TAG_END]
  {
    FoldItemsConcat([], items);
  }

  /** A dictionary encodes as 'd', each entry's key and value encodings in the
      order of its entries, 'e'. */
  lemma EncodeDictShape(es: seq<Entry>)
    ensures Encode(BDict(es)) == [TAG_DICT] + ConcatEntries(es) + [TAG_END]
  {
    FoldEntriesConcat([], es);
  }

  /** A byte string's encoding splits at its first colon: the digits before it
      are the byte length with no leading zero, and everything after it is the
      string itself. */
  lemma EncodeStrSplits(s: seq<Byte>)
    ensures var r := EncodeStr(s); var k := DigitRun(r);
      0 < k < |r| && r[k] == COLON && (forall j :: 0 <= j < k ==> r[j] != COLON) &&
      Canonical(r[..k]) && ParseNat(r[..k]) == |s| && r[k + 1..] == s
  {
    var r := EncodeStr(s);
    var ds := NatToDecimal(|s|);
    assert r == ds + ([COLON] + s);
    DigitRunOf(ds, [COLON] + s);
    assert r[..|ds|] == ds;
    ParseNatToDecimal(|s|);
  }

  /** An integer's encoding is 'i', an optional '-' that appears exactly for a
      negative value, a magnitude without leading zeros that reads back as the
      absolute value, and 'e'. In particular zero is "i0e", never "i-0e". */
  lemma EncodeIntShape(n: I64)
    ensures var r := EncodeInt(n);
      |r| >= 3 && r[0] == TAG_INT && r[|r| - 1] == TAG_END &&
      (r[1] == MINUS <==> n < 0) &&
      var mag := if n < 0 then r[2..|r| - 1] else r[1..|r| - 1];
      Canonical(mag) && (n < 0 ==> mag != [ZERO]) &&
      ParseNat(mag) == (if n < 0 then -(n as int) else n as int)
  {
    var r := EncodeInt(n);
    var d := IntToDecimal(n);
    assert r[1..|r| - 1] == d;
    if n < 0 {
      var m: nat := -(n as int);
      assert d == [MINUS] + NatToDecimal(m);
      assert r[2..|r| - 1] == d[1..] == NatToDecimal(m);
      ParseNatToDecimal(m);
    } else {
      ParseNatToDecimal(n as nat);
    }
  }
}
