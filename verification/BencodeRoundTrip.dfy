/** The encoding of the "bencoding" section of BEP 3, and the theorem that the decoder
    inverts it on exactly the values the decoder can produce. */
module RoundTrip {
  import opened Prelude
  import opened Bencode
  import opened BencodeLaws

  datatype Value =
    | VInt(value: int)
    | VStr(text: string)
    | VList(items: seq<Value>)
    | VDict(pairs: seq<Pair>)

  datatype Pair = Pair(key: string, value: Value)

  // ----- encoding ----------------------------------------------------------

  function Decimal(n: nat): (r: string)
    ensures AllDigits(r) && r != []
  {
    (if n < 10 then [] else Decimal(n / 10)) + [(n % 10 + '0' as int) as char]
  }

  function Number(v: int): string {
    if v < 0 then "-" + Decimal(-v) else Decimal(v)
  }

  function EncodeString(s: string): string {
    Decimal(|s|) + ":" + s
  }

  function Encode(v: Value): string
    decreases v, 1
  {
    match v
    case VInt(n) => "i" + Number(n) + "e"
    case VStr(s) => EncodeString(s)
    case VList(items) => "l" + EncodeItems(items)
    case VDict(pairs) => "d" + EncodePairs(pairs)
  }

  /** The items and the closing 'e'. */
  function EncodeItems(vs: seq<Value>): string
    decreases vs, 0
  {
    if vs == [] then "e" else Encode(vs[0]) + EncodeItems(vs[1..])
  }

  function EncodePairs(ps: seq<Pair>): string
    decreases ps, 0
  {
    if ps == [] then "e" else EncodeString(ps[0].key) + Encode(ps[0].value) + EncodePairs(ps[1..])
  }

  ghost predicate DistinctKeys(ps: seq<Pair>) {
    forall j, k :: 0 <= j < k < |ps| ==> ps[j].key != ps[k].key
  }

  ghost predicate DistinctEntries(es: seq<Entry>) {
    forall j, k :: 0 <= j < k < |es| ==> es[j].key != es[k].key
  }

  /** 64-bit integers, strings of at most 2^27 bytes, distinct keys in any order. */
  ghost predicate Encodable(v: Value) {
    match v
    case VInt(n) => INT_MIN <= n <= INT_MAX
    case VStr(s) => |s| <= MAX_STRING_LEN
    case VList(items) => forall k :: 0 <= k < |items| ==> Encodable(items[k])
    case VDict(pairs) =>
      && DistinctKeys(pairs)
      && forall k :: 0 <= k < |pairs| ==> |pairs[k].key| <= MAX_STRING_LEN && Encodable(pairs[k].value)
  }

  // ----- what a decoded item says, without its spans -----------------------

  function Strip(x: Item): Value
    decreases x, 1
  {
    match x
    case IntItem(n, _, _) => VInt(n)
    case StrItem(s, _, _) => VStr(s)
    case ListItem(items, _, _) => VList(StripItems(items))
    case DictItem(entries, _, _) => VDict(StripEntries(entries))
  }

  function StripItems(xs: seq<Item>): (r: seq<Value>)
    ensures |r| == |xs| && forall k :: 0 <= k < |xs| ==> r[k] == Strip(xs[k])
    decreases xs, 0
  {
    if xs == [] then [] else [Strip(xs[0])] + StripItems(xs[1..])
  }

  function StripEntries(es: seq<Entry>): (r: seq<Pair>)
    ensures |r| == |es| && forall k :: 0 <= k < |es| ==> r[k] == Pair(es[k].key, Strip(es[k].value))
    decreases es, 0
  {
    if es == [] then [] else [Pair(es[0].key, Strip(es[0].value))] + StripEntries(es[1..])
  }

  lemma {:induction false} StripOfShift(x: Item, d: int)
    ensures Strip(Shift(x, d)) == Strip(x)
    decreases x
  {
    match x
    case ListItem(items, _, _) =>
      StripItemsOfShift(items, d);
    case DictItem(entries, _, _) =>
      StripEntriesOfShift(entries, d);
    case _ =>
  }

  lemma {:induction false} StripItemsOfShift(xs: seq<Item>, d: int)
    ensures StripItems(ShiftItems(xs, d)) == StripItems(xs)
    decreases xs
  {
    forall k | 0 <= k < |xs| ensures Strip(Shift(xs[k], d)) == Strip(xs[k]) {
      StripOfShift(xs[k], d);
    }
  }

  lemma {:induction false} StripEntriesOfShift(es: seq<Entry>, d: int)
    ensures StripEntries(ShiftEntries(es, d)) == StripEntries(es)
    decreases es
  {
    forall k | 0 <= k < |es| ensures Strip(Shift(es[k].value, d)) == Strip(es[k].value) {
      StripOfShift(es[k].value, d);
    }
  }

  // ----- numbers -----------------------------------------------------------

  lemma {:induction false} DecimalReads(n: nat)
    ensures DigitsValue(Decimal(n)) == n
  {
    var s := Decimal(n);
    assert s[..|s| - 1] == if n < 10 then [] else Decimal(n / 10);
    if n >= 10 {
      DecimalReads(n / 10);
    }
  }

  /** The decimal text of a number reads back as it exactly when it fits 64 bits. */
  lemma NumberReads(v: int)
    ensures ParseNumber(Number(v)) == if INT_MIN <= v <= INT_MAX then Some(v) else None
  {
    hide Decimal, DigitsValue, Digits;
    var n := if v < 0 then -v else v;
    var d := Decimal(n);
    DecimalReads(n);
    assert IsDigit(d[0]);
    if v < 0 {
      assert ("-" + d)[1..] == d;
    }
  }

  /** The first delimiter after a text that does not contain it. */
  lemma FindAfter(a: string, i: nat, text: string, delim: char)
    requires i + |text| < |a| && a[i..i + |text|] == text && delim !in text && a[i + |text|] == delim
    ensures Find(a, i, delim) == Some(i + |text|)
  {
    forall k | i <= k < i + |text| ensures a[k] != delim {
      assert a[k] == text[k - i];
    }
  }

  lemma NumberAvoids(v: int)
    ensures 'e' !in Number(v) && (v >= 0 ==> ':' !in Number(v))
  {
  }

  // ----- the round trip ----------------------------------------------------

  /** Decoding s gives v and consumes it all. */
  ghost predicate ReadsAs(s: string, v: Value) {
    Decode(s).Some? && Strip(Decode(s).value) == v
  }

  lemma IntTrip(n: int)
    requires INT_MIN <= n <= INT_MAX
    ensures ReadsAs(Encode(VInt(n)), VInt(n))
  {
    hide ParseNumber, Number;
    var s := Encode(VInt(n));
    NumberReads(n);
    NumberAvoids(n);
    assert s[1..1 + |Number(n)|] == Number(n);
    FindAfter(s, 1, Number(n), 'e');
  }

  lemma StringTrip(text: string)
    requires |text| <= MAX_STRING_LEN
    ensures ReadsAs(EncodeString(text), VStr(text))
    ensures Decode(EncodeString(text)).value == StrItem(text, 0, |EncodeString(text)|)
  {
    hide ParseNumber, Decimal;
    var s, d := EncodeString(text), Decimal(|text|);
    assert Number(|text|) == d;
    NumberReads(|text|);
    NumberAvoids(|text|);
    assert s[0] == d[0] && IsDigit(d[0]);
    assert s[0..0 + |d|] == d;
    FindAfter(s, 0, d, ':');
    assert s[|d| + 1..] == text;
  }

  lemma NoItemAtEnd(s: string, i: nat)
    ensures DecodeItem(s, i).Some? ==> i < |s| && s[i] != 'e'
  {
  }

  /** A text that decodes on its own is read the same way wherever it stands. */
  lemma ReadsWhereverItStands(s: string, i: nat, p: string, v: Value)
    requires ReadsAs(p, v) && Agree(p, 0, |p|, s, i)
    ensures DecodeItem(s, i).Some? && DecodeItem(s, i).value.1 == i + |p|
    ensures Strip(DecodeItem(s, i).value.0) == v
    ensures DecodeItem(s, i).value.0 == Shift(Decode(p).value, i)
    ensures i < |s| && s[i] != 'e'
  {
    NoItemAtEnd(s, i);
    hide DecodeItem, Strip, Shift, Agree;
    ItemRelocates(p, 0, s, i);
    StripOfShift(Decode(p).value, i);
  }

  lemma Parts(p: string, q: string, r: string)
    ensures Agree(p, 0, |p|, p + q + r, 0)
    ensures Agree(q, 0, |q|, p + q + r, |p|)
    ensures Agree(r, 0, |r|, p + q + r, |p| + |q|)
  {
  }

  lemma {:induction false} Trip(v: Value)
    requires Encodable(v)
    ensures ReadsAs(Encode(v), v)
    decreases v, 1
  {
    hide DecodeItem, DecodeItems, DecodePairs, EncodeString, EncodeItems, EncodePairs, Strip, Shift;
    match v
    case VInt(n) =>
      IntTrip(n);
    case VStr(s) =>
      StringTrip(s);
    case VList(items) =>
      ItemsTrip(items);
      ListTrip(items);
    case VDict(pairs) =>
      PairsTrip(pairs);
      DictTrip(pairs);
  }

  lemma ListTrip(items: seq<Value>)
    requires var s := EncodeItems(items);
      DecodeItems(s, 0).Some? && DecodeItems(s, 0).value.1 == |s| && StripItems(DecodeItems(s, 0).value.0) == items
    ensures ReadsAs(Encode(VList(items)), VList(items))
  {
    hide DecodeItems, DecodePairs, EncodeItems, ShiftItems, StripItems;
    var s := EncodeItems(items);
    ItemsRelocate(s, 0, "l" + s, 1);
    StripItemsOfShift(DecodeItems(s, 0).value.0, 1);
  }

  lemma DictTrip(pairs: seq<Pair>)
    requires DistinctKeys(pairs)
    requires var s := EncodePairs(pairs);
      DecodePairs(s, 0).Some? && DecodePairs(s, 0).value.1 == |s| && StripEntries(DecodePairs(s, 0).value.0) == pairs
    ensures ReadsAs(Encode(VDict(pairs)), VDict(pairs))
  {
    hide DecodeItems, DecodePairs, EncodePairs, ShiftEntries, StripEntries, InsertAll;
    var s := EncodePairs(pairs);
    var es := DecodePairs(s, 0).value.0;
    PairsRelocate(s, 0, "d" + s, 1);
    StripEntriesOfShift(es, 1);
    assert [] + ShiftEntries(es, 1) == ShiftEntries(es, 1);
    DistinctInsertAll([], ShiftEntries(es, 1));
  }

  lemma ItemsParts(vs: seq<Value>)
    requires vs != []
    ensures var s, p, r := EncodeItems(vs), Encode(vs[0]), EncodeItems(vs[1..]);
      Agree(p, 0, |p|, s, 0) && Agree(r, 0, |r|, s, |p|) && |s| == |p| + |r|
  {
    hide Agree;
    Parts("", Encode(vs[0]), EncodeItems(vs[1..]));
    assert EncodeItems(vs) == "" + Encode(vs[0]) + EncodeItems(vs[1..]);
  }

  lemma {:induction false} ItemsTrip(vs: seq<Value>)
    requires forall k :: 0 <= k < |vs| ==> Encodable(vs[k])
    ensures var s := EncodeItems(vs);
      DecodeItems(s, 0).Some? && DecodeItems(s, 0).value.1 == |s| && StripItems(DecodeItems(s, 0).value.0) == vs
    decreases vs, 0
  {
    hide DecodeItem, DecodeItems, Encode, EncodeItems, Encodable, Strip, StripItems, Shift, Agree, ReadsAs;
    var s := EncodeItems(vs);
    if vs == [] {
      NoItems();
    } else {
      var p, r := Encode(vs[0]), EncodeItems(vs[1..]);
      ItemsParts(vs);
      Trip(vs[0]);
      ReadsWhereverItStands(s, 0, p, vs[0]);
      ItemsTrip(vs[1..]);
      ItemsRelocate(r, 0, s, |p|);
      StripItemsOfShift(DecodeItems(r, 0).value.0, |p|);
      ItemsPrepend(s, 0);
    }
  }

  lemma NoItems()
    ensures EncodeItems([]) == "e" && DecodeItems("e", 0) == Some(([], 1)) && StripItems([]) == []
  {
  }

  /** One step of the list loop, seen through Strip. */
  lemma ItemsPrepend(s: string, i: nat)
    requires i < |s| && s[i] != 'e'
    requires DecodeItem(s, i).Some? && DecodeItems(s, DecodeItem(s, i).value.1).Some?
    ensures var (x, next) := DecodeItem(s, i).value;
      var (rest, end) := DecodeItems(s, next).value;
      && DecodeItems(s, i).Some? && DecodeItems(s, i).value.1 == end
      && StripItems(DecodeItems(s, i).value.0) == [Strip(x)] + StripItems(rest)
  {
    hide DecodeItem, Strip;
    var (x, next) := DecodeItem(s, i).value;
    var rest := DecodeItems(s, next).value.0;
    assert DecodeItems(s, i).value.0 == [x] + rest;
  }

  lemma PairsParts(ps: seq<Pair>)
    requires ps != []
    ensures var s, p, q, r := EncodePairs(ps), EncodeString(ps[0].key), Encode(ps[0].value), EncodePairs(ps[1..]);
      && Agree(p, 0, |p|, s, 0) && Agree(q, 0, |q|, s, |p|) && Agree(r, 0, |r|, s, |p| + |q|)
      && |s| == |p| + |q| + |r|
  {
    hide Agree;
    Parts(EncodeString(ps[0].key), Encode(ps[0].value), EncodePairs(ps[1..]));
  }

  lemma {:induction false} PairsTrip(ps: seq<Pair>)
    requires forall k :: 0 <= k < |ps| ==> |ps[k].key| <= MAX_STRING_LEN && Encodable(ps[k].value)
    ensures var s := EncodePairs(ps);
      DecodePairs(s, 0).Some? && DecodePairs(s, 0).value.1 == |s| && StripEntries(DecodePairs(s, 0).value.0) == ps
    decreases ps, 0
  {
    hide DecodeItem, DecodePairs, Encode, EncodePairs, EncodeString, Encodable, Strip;
    hide StripEntries, Shift, Agree, ReadsAs, Decode;
    var s := EncodePairs(ps);
    if ps == [] {
      NoPairs();
    } else {
      var p, q, r := EncodeString(ps[0].key), Encode(ps[0].value), EncodePairs(ps[1..]);
      PairsParts(ps);
      KeyReads(ps[0].key, s, 0);
      Trip(ps[0].value);
      ReadsWhereverItStands(s, |p|, q, ps[0].value);
      PairsTrip(ps[1..]);
      PairsRelocate(r, 0, s, |p| + |q|);
      StripEntriesOfShift(DecodePairs(r, 0).value.0, |p| + |q|);
      PairsPrepend(s, 0);
    }
  }

  lemma KeyReads(key: string, s: string, i: nat)
    requires |key| <= MAX_STRING_LEN
    requires Agree(EncodeString(key), 0, |EncodeString(key)|, s, i)
    ensures i < |s| && s[i] != 'e'
    ensures DecodeItem(s, i).Some? && DecodeItem(s, i).value.1 == i + |EncodeString(key)|
    ensures DecodeItem(s, i).value.0.StrItem? && DecodeItem(s, i).value.0.text == key
  {
    hide DecodeItem, EncodeString, Agree, Shift;
    StringTrip(key);
    ReadsWhereverItStands(s, i, EncodeString(key), VStr(key));
    ShiftKeepsText(Decode(EncodeString(key)).value, i);
  }

  lemma NoPairs()
    ensures EncodePairs([]) == "e" && DecodePairs("e", 0) == Some(([], 1)) && StripEntries([]) == []
  {
  }

  /** One step of the dictionary loop, seen through Strip. */
  lemma PairsPrepend(s: string, i: nat)
    requires i < |s| && s[i] != 'e'
    requires DecodeItem(s, i).Some? && DecodeItem(s, i).value.0.StrItem?
    requires DecodeItem(s, DecodeItem(s, i).value.1).Some?
    requires DecodePairs(s, DecodeItem(s, DecodeItem(s, i).value.1).value.1).Some?
    ensures var (key, mid) := DecodeItem(s, i).value;
      var (x, next) := DecodeItem(s, mid).value;
      var (rest, end) := DecodePairs(s, next).value;
      && DecodePairs(s, i).Some? && DecodePairs(s, i).value.1 == end
      && StripEntries(DecodePairs(s, i).value.0) == [Pair(key.text, Strip(x))] + StripEntries(rest)
  {
    hide DecodeItem, Strip;
    var (key, mid) := DecodeItem(s, i).value;
    var (x, next) := DecodeItem(s, mid).value;
    var rest := DecodePairs(s, next).value.0;
    assert DecodePairs(s, i).value.0 == [Entry(key.text, x)] + rest;
  }

  /** Nothing is dropped from a dictionary whose keys differ. */
  lemma {:induction false} DistinctInsertAll(acc: seq<Entry>, more: seq<Entry>)
    requires DistinctEntries(acc + more)
    ensures InsertAll(acc, more) == acc + more
    decreases |more|
  {
    if more == [] {
      assert acc + more == acc;
    } else {
      var all := acc + more;
      assert forall k :: 0 <= k < |acc| ==> all[k].key == acc[k].key != all[|acc|].key;
      assert acc + [more[0]] + more[1..] == acc + more;
      DistinctInsertAll(acc + [more[0]], more[1..]);
    }
  }

  // ----- and only the encodable values -------------------------------------

  ghost predicate Clean(es: seq<Entry>) {
    forall k :: 0 <= k < |es| ==> |es[k].key| <= MAX_STRING_LEN && Encodable(Strip(es[k].value))
  }

  lemma {:induction false} InsertAllIsClean(acc: seq<Entry>, more: seq<Entry>)
    requires Clean(acc) && Clean(more) && DistinctEntries(acc)
    ensures Clean(InsertAll(acc, more)) && DistinctEntries(InsertAll(acc, more))
    decreases |more|
  {
    hide Encodable, Strip;
    if more != [] {
      InsertAllIsClean(Insert(acc, more[0]), more[1..]);
    }
  }

  /** Whatever is decoded is a value that can be encoded. */
  lemma {:induction false} DecodedIsEncodable(a: string, i: nat)
    requires DecodeItem(a, i).Some?
    ensures Encodable(Strip(DecodeItem(a, i).value.0))
    decreases |a| - i, 0
  {
    hide DecodeItems, DecodePairs, InsertAll, Find;
    if a[i] == 'l' {
      ItemsAreEncodable(a, i + 1);
    } else if a[i] == 'd' {
      PairsAreClean(a, i + 1);
      InsertAllIsClean([], DecodePairs(a, i + 1).value.0);
    }
  }

  lemma {:induction false} ItemsAreEncodable(a: string, i: nat)
    requires DecodeItems(a, i).Some?
    ensures forall k :: 0 <= k < |DecodeItems(a, i).value.0| ==> Encodable(Strip(DecodeItems(a, i).value.0[k]))
    decreases |a| - i, 1
  {
    hide DecodeItem, DecodePairs, Encodable, Strip;
    if a[i] != 'e' {
      DecodedIsEncodable(a, i);
      ItemsAreEncodable(a, DecodeItem(a, i).value.1);
    }
  }

  lemma {:induction false} PairsAreClean(a: string, i: nat)
    requires DecodePairs(a, i).Some?
    ensures Clean(DecodePairs(a, i).value.0)
    decreases |a| - i, 1
  {
    hide DecodeItem, DecodeItems, Encodable, Strip;
    if a[i] != 'e' {
      var (key, mid) := DecodeItem(a, i).value;
      DecodedIsEncodable(a, i);
      KeyIsShort(key);
      DecodedIsEncodable(a, mid);
      PairsAreClean(a, DecodeItem(a, mid).value.1);
    }
  }

  lemma KeyIsShort(key: Item)
    requires key.StrItem? && Encodable(Strip(key))
    ensures |key.text| <= MAX_STRING_LEN
  {
  }

  /** Decoding inverts encoding on exactly the encodable values: for 64-bit integers,
      strings within the limit and distinct keys in any order, and for nothing else. */
  lemma RoundTripIffEncodable(v: Value)
    ensures ReadsAs(Encode(v), v) <==> Encodable(v)
  {
    hide Encode, Encodable, Strip, DecodeItem;
    if ReadsAs(Encode(v), v) {
      DecodedIsEncodable(Encode(v), 0);
    }
    if Encodable(v) {
      Trip(v);
    }
  }

  /** Different encodable values have different encodings, and none is a prefix of another. */
  lemma EncodingsArePrefixFree(v: Value, w: Value)
    requires Encodable(v) && Encodable(w) && Encode(v) <= Encode(w)
    ensures v == w
  {
    hide Encode, Encodable, Strip, Decode;
    Trip(v);
    Trip(w);
    PrefixFree(Encode(v), Encode(w));
  }
}
