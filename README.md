# Bencode encoder, modelled and proved in Dafny

The repository is a small Rust bencode encoder: bencode is the serialisation
described in the "bencoding" section of BEP 3, The BitTorrent Protocol
Specification. A trait `Bencode` with one method, `bencode(&self) -> String`,
is implemented for four kinds of value:

- byte strings (`&str`): the byte length in decimal, `:`, then the bytes;
- integers (`i64`): `i`, the decimal value, `e`;
- lists (`Vec<T>` and `[T]`): `l`, the element encodings in order, `e`;
- dictionaries (`BTreeMap<String, Box<dyn Bencode>>`): `d`, then for each entry
  in the map's ascending key order the key encoded as a byte string followed by
  the value's encoding, then `e`.

Every implementation is one `format!` expression. The list and dictionary
encoders first build their contents with `iter().fold`, which rebuilds the
accumulator on each step. The model is therefore purely functional. Each
encoder is a Dafny function. Each fold is a recursive left fold with the same
accumulator. A separate right-recursive concatenation serves as the reference
definition the folds are proved equal to.

Modules:

- `Bytes` (bytes.dfy): the byte type, the grammar's tag bytes, and `Ascii`.
  `Ascii` spells a test literal as bytes.
- `Decimal` (decimal.dfy): `{}` formatting of a `usize` length and of an `i64`.
  It is proved canonical (no leading zeros, no `-0`) and invertible.
- `KeyOrder` (keyorder.dfy): the `Ord` of `String` keys. This is byte-wise
  lexicographic order, with a proper prefix first. It is proved to be a strict
  total order.
- `Bencode` (bencode.dfy): the value datatype and the five encoders. It also
  holds the fold and shape lemmas.
- `SortedMap` (sortedmap.dfy): what the dictionary encoder relies on from
  `BTreeMap`. Its `iter()` lists every entry exactly once, with keys strictly
  ascending, and that listing is unique.
- `Decoder` (decoder.dfy): a reference decoder. The repository has none. It is
  the encoder's inverse partner. Every encoding decodes back to its value,
  whatever bytes follow it. So encodings are self-delimiting and injective, and
  element encodings can be concatenated with no separators.
- `Tests` (tests.dfy): the expected outputs of the repository's unit tests,
  one lemma per assertion group.

Rust's trait objects and generic impls become one closed datatype
`Value = BStr | BInt | BList | BDict`, and dispatch becomes pattern matching.
A dictionary value stores its entries in iteration order. `WellFormed` requires
them to be in ascending key order, and `SortedMap.Entries` produces that order
from a map.

The source has no `Clone` impl: both the `: Clone` bound on the trait
(src/main.rs:3) and the impl (src/main.rs:37-41) are commented out. Its
`Vec<T>` lists are homogeneous. The model's values are immutable datatypes, so
dictionaries and lists nest at any depth, and copying a value copies it.

## Model

| member | source | states |
|---|---|---|
| Decimal.NatToDecimal | src/main.rs:9-10 | The `{}` form of the byte length: one or more digits, no leading zero, and it starts with `0` exactly when the length is 0 |
| Decimal.ParseNatToDecimal | src/main.rs:9-10 | Reading the rendered digits back gives exactly the number rendered |
| Decimal.NatToDecimalParse | src/main.rs:9-10 | Every canonical digit string is the rendering of its value, so the rendering is a bijection onto canonical digit strings |
| Decimal.IntToDecimal | src/main.rs:15-16 | The `{}` form of an `i64` starts with `-` exactly when the value is negative; after the `-` comes a canonical magnitude that does not start with `0` (so never `-0`); without a sign it is canonical |
| Decimal.IntToDecimalParse | src/main.rs:15-16 | Reading the signed rendering back gives the integer, over the full range including `i64::MIN` |
| KeyOrder.Less | src/main.rs:43 | The `Ord` of the `String` keys: only distinct keys are ordered, and a proper prefix comes before any longer key it starts; that it is a strict total order is `KeyOrder.LessTransitive` and `KeyOrder.LessTotal` |
| KeyOrder.LessTransitive | src/main.rs:43 | The byte-wise order of `String` keys in the `BTreeMap` is transitive |
| KeyOrder.LessTotal | src/main.rs:43 | Any two distinct keys are ordered one way or the other |
| Bencode.Encode | src/main.rs:3-49 | Dispatch over the four kinds: every encoding has at least two bytes; its first byte is a digit exactly for a string and `i`/`l`/`d` exactly for an integer/list/dictionary; every non-string encoding ends in `e` |
| Bencode.EncodeStr | src/main.rs:7-12 | A string's encoding is longer than its bytes by at least two, starts with a digit, and ends with a colon followed by the bytes unchanged; the full split is `Bencode.EncodeStrSplits` |
| Bencode.EncodeStrSplits | src/main.rs:7-12 | A string's encoding splits at its first colon: the digits before it are canonical and read back as the byte count, and everything after it is the bytes unchanged |
| Bencode.EncodeInt | src/main.rs:14-18 | An integer's encoding has at least three bytes, starts with `i`, ends with `e`, and its second byte is `-` exactly for a negative value; the full shape is `Bencode.EncodeIntShape` |
| Bencode.EncodeIntShape | src/main.rs:14-18 | An integer's encoding is `i`, a `-` present exactly for negative values, a canonical magnitude (not `0` after a `-`) that reads back as the absolute value, then `e` |
| Bencode.FoldItems | src/main.rs:22-23 | The list fold keeps the accumulator as a prefix and adds at least two bytes per element; what it adds is stated by `Bencode.FoldItemsConcat` |
| Bencode.FoldItemsConcat | src/main.rs:22-23 | The list encoder's left fold from accumulator `acc` is `acc` followed by the element encodings concatenated in order |
| Bencode.EncodeList | src/main.rs:20-34 | A list's encoding starts with `l`, ends with `e`, and has at least two bytes per element plus two; its contents are stated by `Bencode.EncodeListShape` |
| Bencode.EncodeListShape | src/main.rs:20-34 | A list (both the `Vec<T>` and the `[T]` impl) encodes as `l`, its element encodings in order with no separators, then `e` |
| Bencode.FoldEntries | src/main.rs:45-46 | The dictionary fold keeps the accumulator as a prefix and adds at least four bytes per entry; what it adds is stated by `Bencode.FoldEntriesConcat` |
| Bencode.FoldEntriesConcat | src/main.rs:45-46 | The dictionary encoder's left fold from `acc` is `acc` followed by each entry's key-as-string encoding and value encoding, in entry order |
| Bencode.EncodeDict | src/main.rs:43-49 | A dictionary's encoding starts with `d`, ends with `e`, and has at least four bytes per entry plus two; its contents are stated by `Bencode.EncodeDictShape` |
| Bencode.EncodeDictShape | src/main.rs:43-49 | A dictionary encodes as `d`, each entry's key encoding then value encoding in iteration order, then `e` |
| SortedMap.Entries | src/main.rs:45 | `BTreeMap::iter` lists entries with strictly ascending keys, and the listing denotes exactly the map |
| SortedMap.EntriesUnique | src/main.rs:45 | Any ascending listing that denotes the map is the one `iter` gives, so the output order is fully determined by the map |
| SortedMap.EntriesWellFormed | src/main.rs:43-49 | A map whose values are well formed yields a dictionary value that is well formed, with keys ascending at every level |
| SortedMap.EncodeMap | src/main.rs:43-49 | Encoding a `BTreeMap` gives `d`, then for every entry in ascending key order the key as a byte string and the value's encoding, then `e` |
| Decoder.DecodeEncode | src/main.rs:7-49 | Every encoding, followed by any bytes, decodes back to the value encoded, and decoding stops exactly at the encoding's end |
| Decoder.EncodeSelfDelimiting | src/main.rs:22-24 | If two encodings, each followed by some bytes, are the same byte sequence, then the values and the trailing bytes are equal. So no encoding is a proper prefix of another, and encoding is injective |
| Decoder.ConcatItemsInjective | src/main.rs:22-24 | Concatenated element encodings (the list body) split back into exactly the elements they came from |
| Tests.SerString | src/main.rs:59-62 | `""` encodes as `0:` and `spam` as `4:spam` |
| Tests.SerInt | src/main.rs:65-69 | `0` and `-0` encode as `i0e`, `3` as `i3e`, `-3` as `i-3e` |
| Tests.SerIntMax | src/main.rs:70 | `i64::MAX` encodes as `i9223372036854775807e` |
| Tests.SerIntMin | src/main.rs:71 | `i64::MIN` encodes as `i-9223372036854775808e` |
| Tests.SerListEmpty | src/main.rs:76 | The empty list encodes as `le` |
| Tests.SerListInts | src/main.rs:77 | `vec!(1, 2)` encodes as `li1ei2ee` |
| Tests.SerListSlice | src/main.rs:78 | The slice `[1, 2, 3]` encodes as `li1ei2ei3ee` |
| Tests.SerListStrings | src/main.rs:79 | `vec!("hi", "world")` encodes as `l2:hi5:worlde` |
| Tests.SerDictEmpty | src/main.rs:86 | The empty map encodes as `de` |
| Tests.Sut1Entries | src/main.rs:87-89 | The map built by inserting `name1` and `name2` is iterated `name1` first |
| Tests.SerDict | src/main.rs:87-90 | That map encodes as `d5:name15:value5:name2i50ee` |

## Left out

- `fn main() {}` (src/main.rs:99) is empty and has nothing to model.
- The commented-out `Clone` impl (src/main.rs:37-41) is dead code.
- The commented-out nested-dictionary test (src/main.rs:92-95) is dead code.
  Its expected string also leaves out the `k1` entry, so it is not used as an
  expected output. Nested dictionaries and lists are covered by the recursive
  datatype and by `Decoder.DecodeEncode`.
- Trait objects (`Box<dyn Bencode>`) and the generic bounds `T: Bencode` are
  modelled by one closed datatype. This is slightly more general than the
  source, whose `Vec<T>` lists hold one element type only, while `BList` may
  mix kinds.
- The `Vec<T>` and `[T]` impls have identical bodies (src/main.rs:20-34), so
  one function, `EncodeList`, models both.
- `BTreeMap` internals are not modelled: nodes, balancing, and `insert` (used
  by the tests at src/main.rs:87-89). A map is a Dafny `map`. Only the order
  its iteration produces is modelled, as `SortedMap.Entries`. The tests' map is
  written as a map display.
- UTF-8 validity of `&str` and `String` is not modelled: content is an opaque
  byte sequence, and `len()` is its byte count. The output is a byte sequence
  rather than a Rust `String`.
- Cost is not modelled. Each `format!` in a fold copies the whole accumulator,
  so building a list is quadratic; only the resulting bytes are modelled.
- Integers are unbounded in Dafny. `I64` restricts values to the 64-bit range,
  and magnitudes are computed without a bound, so `i64::MIN` needs no special
  case. This matches Rust's formatting, which does not overflow there either.
- The `Decoder` module has no counterpart in the repository. It exists only to
  state what the encoder's output means.
