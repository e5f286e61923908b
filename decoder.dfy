/** A reference decoder for the grammar the encoder produces. The repository
    has no decoder; this one exists to state what the encoder's output means:
    every encoding reads back as the value encoded, whatever follows it, so
    encodings are self-delimiting and distinct values never share one. */
module Decoder {
  import opened Bytes
  import opened Decimal
  import opened Bencode

  datatype Option<T> = None | Some(value: T)

  /** `length ":" raw-bytes`; yields the bytes and what follows them. */
  function DecodeStr(s: seq<Byte>): (r: Option<(seq<Byte>, seq<Byte>)>)
    ensures r.Some? ==> |r.value.1| < |s|
  {
    var k := DigitRun(s);
    if k == 0 || k == |s| || s[k] != COLON then None
    else
      var n := ParseNat(s[..k]);
      if |s| - (k + 1) < n then None
      else Some((s[k + 1..k + 1 + n], s[k + 1 + n..]))
  }

  /** `"-"? digits "e"` after the 'i' tag, in the 64-bit range. */
  function DecodeInt(s: seq<Byte>): (r: Option<(I64, seq<Byte>)>)
    ensures r.Some? ==> |r.value.1| < |s|
  {
    var neg := |s| > 0 && s[0] == MINUS;
    var t := if neg then s[1..] else s;
    var k := DigitRun(t);
    if k == 0 || k == |t| || t[k] != TAG_END then None
    else
      var m := ParseNat(t[..k]);
      var n := if neg then 0 - m else m;
      if n < I64_MIN || n > I64_MAX then None else Some((n, t[k + 1..]))
  }

  /** One value from the front of `s`, and what follows it. */
  function DecodeValue(s: seq<Byte>): (r: Option<(Value, seq<Byte>)>)
    ensures r.Some? ==> |r.value.1| < |s|
    decreases |s|, 0
  {
    if s == [] then None
    else if s[0] == TAG_INT then
      match DecodeInt(s[1..])
      case None => None
      case Some((n, rest)) => Some((BInt(n), rest))
    else if s[0] == TAG_LIST then
      match DecodeItems(s[1..])
      case None => None
      case Some((items, rest)) => Some((BList(items), rest))
    else if s[0] == TAG_DICT then
      match DecodeEntries(s[1..])
      case None => None
      case Some((es, rest)) => Some((BDict(es), rest))
    else
      match DecodeStr(s)
      case None => None
      case Some((bytes, rest)) => Some((BStr(bytes), rest))
  }

  /** `value* "e"`: list elements up to and including the terminator. */
  function DecodeItems(s: seq<Byte>): (r: Option<(seq<Value>, seq<Byte>)>)
    ensures r.Some? ==> |r.value.1| < |s|
    decreases |s|, 1
  {
    if s == [] then None
    else if s[0] == TAG_END then Some(([], s[1..]))
    else
      match DecodeValue(s)
      case None => None
      case Some((v, rest)) =>
        match DecodeItems(rest)
        case None => None
        case Some((vs, rest')) => Some(([v] + vs, rest'))
  }

  /** `(bytestring value)* "e"`: dictionary entries up to and including the terminator. */
  function DecodeEntries(s: seq<Byte>): (r: Option<(seq<Entry>, seq<Byte>)>)
    ensures r.Some? ==> |r.value.1| < |s|
    decreases |s|, 1
  {
    if s == [] then None
    else if s[0] == TAG_END then Some(([], s[1..]))
    else
      match DecodeStr(s)
      case None => None
      case Some((key, rest)) =>
        match DecodeValue(rest)
        case None => None
        case Some((v, rest')) =>
          match DecodeEntries(rest')
          case None => None
          case Some((es, rest'')) => Some(([Entry(key, v)] + es, rest''))
  }

  lemma DecodeStrEncode(s: seq<Byte>, rest: seq<Byte>)
    ensures DecodeStr(EncodeStr(s) + rest) == Some((s, rest))
  {
    var ds := NatToDecimal(|s|);
    var w := EncodeStr(s) + rest;
    assert w == ds + ([COLON] + s + rest);
    DigitRunOf(ds, [COLON] + s + rest);
    assert w[..|ds|] == ds;
    ParseNatToDecimal(|s|);
    assert w[|ds| + 1..|ds| + 1 + |s|] == s;
    assert w[|ds| + 1 + |s|..] == rest;
  }

  lemma DecodeIntEncode(n: I64, rest: seq<Byte>)
    ensures DecodeInt(IntToDecimal(n) + [TAG_END] + rest) == Some((n, rest))
  {
    if n < 0 {
      var m: nat := -(n as int);
      assert IntToDecimal(n) + [TAG_END] + rest == [MINUS] + (NatToDecimal(m) + [TAG_END] + rest);
      DecodeNegative(m, rest);
    } else {
      DecodeNonNegative(n as nat, rest);
    }
  }

  lemma DecodeNegative(m: nat, rest: seq<Byte>)
    requires 0 < m <= -I64_MIN
    ensures var r := DecodeInt([MINUS] + (NatToDecimal(m) + [TAG_END] + rest));
      r.Some? && r.value.0 == -(m as int) && r.value.1 == rest
  {
    var t := NatToDecimal(m) + [TAG_END] + rest;
    assert ([MINUS] + t)[1..] == t;
    TerminatedDigits(m, rest);
  }

  lemma DecodeNonNegative(m: nat, rest: seq<Byte>)
    requires m <= I64_MAX
    ensures var r := DecodeInt(NatToDecimal(m) + [TAG_END] + rest);
      r.Some? && r.value.0 == m && r.value.1 == rest
  {
    TerminatedDigits(m, rest);
  }

  /** The digits of `m` followed by 'e' are measured and read back exactly. */
  lemma TerminatedDigits(m: nat, rest: seq<Byte>)
    ensures var ds := NatToDecimal(m); var t := ds + [TAG_END] + rest;
      DigitRun(t) == |ds| && t[..|ds|] == ds && t[|ds|] == TAG_END &&
      ParseNat(t[..|ds|]) == m && t[|ds| + 1..] == rest
  {
    var ds := NatToDecimal(m);
    var t := ds + [TAG_END] + rest;
    assert t == ds + ([TAG_END] + rest);
    DigitRunOf(ds, [TAG_END] + rest);
    assert t[..|ds|] == ds;
    ParseNatToDecimal(m);
  }

  /** Every encoding reads back as the value encoded, and decoding stops
      exactly at its end. */
  lemma {:induction false} DecodeEncode(v: Value, rest: seq<Byte>)
    ensures DecodeValue(Encode(v) + rest) == Some((v, rest))
    decreases v, 1
  {
    match v
    case BStr(s) =>
      DecodeStrEncode(s, rest);
    case BInt(n) =>
      assert Encode(v) + rest == [TAG_INT] + (IntToDecimal(n) + [TAG_END] + rest);
      DecodeIntEncode(n, rest);
    case BList(items) =>
      DecodeListEncode(items, rest);
    case BDict(es) =>
      DecodeDictEncode(es, rest);
  }

  lemma {:induction false} DecodeListEncode(items: seq<Value>, rest: seq<Byte>)
    ensures DecodeValue(Encode(BList(items)) + rest) == Some((BList(items), rest))
    decreases items, 2
  {
    var w := Encode(BList(items)) + rest;
    var body := ConcatItems(items) + [TAG_END] + rest;
    EncodeListShape(items);
    assert w == [TAG_LIST] + body && w[1..] == body;
    DecodeItemsEncode(items, rest);
  }

  lemma {:induction false} DecodeDictEncode(es: seq<Entry>, rest: seq<Byte>)
    ensures DecodeValue(Encode(BDict(es)) + rest) == Some((BDict(es), rest))
    decreases es, 2
  {
    var w := Encode(BDict(es)) + rest;
    var body := ConcatEntries(es) + [TAG_END] + rest;
    EncodeDictShape(es);
    assert w == [TAG_DICT] + body && w[1..] == body;
    DecodeEntriesEncode(es, rest);
  }

  lemma {:induction false} DecodeItemsEncode(items: seq<Value>, rest: seq<Byte>)
    ensures DecodeItems(ConcatItems(items) + [TAG_END] + rest) == Some((items, rest))
    decreases items, 0
  {
    if items != [] {
      var after := ConcatItems(items[1..]) + [TAG_END] + rest;
      var w := ConcatItems(items) + [TAG_END] + rest;
      SplitFirstItem(items, rest);
      DecodeEncode(items[0], after);
      DecodeItemsEncode(items[1..], rest);
      DecodeItemsStep(w, items, after, rest);
    }
  }

  lemma {:induction false} DecodeEntriesEncode(es: seq<Entry>, rest: seq<Byte>)
    ensures DecodeEntries(ConcatEntries(es) + [TAG_END] + rest) == Some((es, rest))
    decreases es, 0
  {
    if es != [] {
      var after := ConcatEntries(es[1..]) + [TAG_END] + rest;
      var afterKey := Encode(es[0].value) + after;
      var w := ConcatEntries(es) + [TAG_END] + rest;
      SplitFirstEntry(es, rest);
      DecodeStrEncode(es[0].key, afterKey);
      DecodeEncode(es[0].value, after);
      DecodeEntriesEncode(es[1..], rest);
      DecodeEntriesStep(w, es, afterKey, after, rest);
    }
  }

  /** The encoded items, split after the first item. */
  lemma SplitFirstItem(items: seq<Value>, rest: seq<Byte>)
    requires items != []
    ensures var w := ConcatItems(items) + [TAG_END] + rest;
      w == Encode(items[0]) + (ConcatItems(items[1..]) + [TAG_END] + rest) &&
      w != [] && w[0] != TAG_END
  {
    var e := Encode(items[0]);
    assert ConcatItems(items) + [TAG_END] + rest == e + (ConcatItems(items[1..]) + [TAG_END] + rest);
    assert e[0] != TAG_END;
  }

  /** One step of DecodeItems: the first value, then the remaining items. */
  lemma DecodeItemsStep(w: seq<Byte>, items: seq<Value>, after: seq<Byte>, rest: seq<Byte>)
    requires items != [] && w != [] && w[0] != TAG_END
    requires DecodeValue(w) == Some((items[0], after))
    requires DecodeItems(after) == Some((items[1..], rest))
    ensures DecodeItems(w) == Some((items, rest))
  {
    assert items == [items[0]] + items[1..];
  }

  /** The encoded entries, split after the first entry's key. */
  lemma SplitFirstEntry(es: seq<Entry>, rest: seq<Byte>)
    requires es != []
    ensures var w := ConcatEntries(es) + [TAG_END] + rest;
      w == EncodeStr(es[0].key) + (Encode(es[0].value) + (ConcatEntries(es[1..]) + [TAG_END] + rest)) &&
      w != [] && IsDigit(w[0])
  {
    var k := EncodeStr(es[0].key);
    ConcatEntriesCons(es, rest);
    assert IsDigit(k[0]);
  }

  /** The first entry's key and value encodings, then the rest. */
  lemma ConcatEntriesCons(es: seq<Entry>, rest: seq<Byte>)
    requires es != []
    ensures ConcatEntries(es) + [TAG_END] + rest
         == EncodeStr(es[0].key) + (Encode(es[0].value) + (ConcatEntries(es[1..]) + [TAG_END] + rest))
  {
  }

  /** One step of DecodeEntries: the first key and value, then the remaining entries. */
  lemma DecodeEntriesStep(w: seq<Byte>, es: seq<Entry>, afterKey: seq<Byte>, after: seq<Byte>, rest: seq<Byte>)
    requires es != [] && w != [] && w[0] != TAG_END
    requires DecodeStr(w) == Some((es[0].key, afterKey))
    requires DecodeValue(afterKey) == Some((es[0].value, after))
    requires DecodeEntries(after) == Some((es[1..], rest))
    ensures DecodeEntries(w) == Some((es, rest))
  {
    assert es == [Entry(es[0].key, es[0].value)] + es[1..];
  }

  /** Self-delimitation: if two encodings, each followed by some bytes, are the
      same byte sequence, the values and the trailing bytes are the same. So no
      encoding is a proper prefix of another, and encoding is injective. */
  lemma EncodeSelfDelimiting(a: Value, b: Value, ra: seq<Byte>, rb: seq<Byte>)
    requires Encode(a) + ra == Encode(b) + rb
    ensures a == b && ra == rb
  {
    DecodeEncode(a, ra);
    DecodeEncode(b, rb);
  }

  /** A concatenation of encodings splits back into the values it came from. */
  lemma {:induction false} ConcatItemsInjective(xs: seq<Value>, ys: seq<Value>)
    requires ConcatItems(xs) == ConcatItems(ys)
    ensures xs == ys
    decreases |xs|
  {
    if xs != [] && ys != [] {
      EncodeSelfDelimiting(xs[0], ys[0], ConcatItems(xs[1..]), ConcatItems(ys[1..]));
      ConcatItemsInjective(xs[1..], ys[1..]);
      assert xs == [xs[0]] + xs[1..] && ys == [ys[0]] + ys[1..];
    }
  }
}
