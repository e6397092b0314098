/** Laws of the decoder: what it reads depends only on the bytes it consumes, the
    recorded spans are those bytes, and decoding inverts encoding. */
module BencodeLaws {
  import opened Prelude
  import opened Bencode

  // ----- moving an encoding ------------------------------------------------

  /** The same value with every recorded offset moved by d. */
  function Shift(x: Item, d: int): Item
    decreases x, 1
  {
    match x
    case IntItem(v, s, l) => IntItem(v, s + d, l)
    case StrItem(t, s, l) => StrItem(t, s + d, l)
    case ListItem(items, s, l) => ListItem(ShiftItems(items, d), s + d, l)
    case DictItem(entries, s, l) => DictItem(ShiftEntries(entries, d), s + d, l)
  }

  function ShiftItems(xs: seq<Item>, d: int): (r: seq<Item>)
    ensures |r| == |xs| && forall k :: 0 <= k < |xs| ==> r[k] == Shift(xs[k], d)
    decreases xs, 0
  {
    if xs == [] then [] else [Shift(xs[0], d)] + ShiftItems(xs[1..], d)
  }

  function ShiftEntries(es: seq<Entry>, d: int): (r: seq<Entry>)
    ensures |r| == |es| && forall k :: 0 <= k < |es| ==> r[k] == Entry(es[k].key, Shift(es[k].value, d))
    decreases es, 0
  {
    if es == [] then [] else [Entry(es[0].key, Shift(es[0].value, d))] + ShiftEntries(es[1..], d)
  }

  /** a from i to e reads like b from j on. */
  ghost predicate Agree(a: string, i: nat, e: nat, b: string, j: nat) {
    && i <= e <= |a| && j + (e - i) <= |b|
    && forall k :: i <= k < e ==> a[k] == b[k - i + j]
  }

  lemma {:induction false} FindRelocates(a: string, i: nat, e: nat, b: string, j: nat, delim: char)
    requires Agree(a, i, e, b, j)
    requires Find(a, i, delim).Some? && Find(a, i, delim).value < e
    ensures Find(b, j, delim) == Some(Find(a, i, delim).value - i + j)
    decreases e - i
  {
    if a[i] != delim {
      FindRelocates(a, i + 1, e, b, j + 1, delim);
    }
  }

  lemma AgreeSlice(a: string, i: nat, e: nat, b: string, j: nat, lo: nat, hi: nat)
    requires Agree(a, i, e, b, j) && i <= lo <= hi <= e
    ensures lo - i + j >= 0 && hi - i + j <= |b| && a[lo..hi] == b[lo - i + j..hi - i + j]
    ensures Agree(a, lo, hi, b, lo - i + j)
  {
    assert forall k :: lo <= k < hi ==> a[k] == b[k - i + j];
  }

  lemma AgreeAt(a: string, i: nat, e: nat, b: string, j: nat)
    requires Agree(a, i, e, b, j) && i < e
    ensures i < |a| && j < |b| && a[i] == b[j] && j + (e - i) <= |b|
  {
  }

  lemma StringRelocates(a: string, i: nat, b: string, j: nat)
    requires DecodeString(a, i).Some? && Agree(a, i, DecodeString(a, i).value.1, b, j)
    ensures var (x, e) := DecodeString(a, i).value;
      DecodeString(b, j) == Some((Shift(x, j - i), e - i + j))
  {
    hide Agree, ParseNumber, Find;
    var (x, e) := DecodeString(a, i).value;
    AgreeAt(a, i, e, b, j);
    var colon := Find(a, i, ':').value;
    FindRelocates(a, i, e, b, j, ':');
    AgreeSlice(a, i, e, b, j, i, colon);
    AgreeSlice(a, i, e, b, j, colon + 1, e);
  }

  lemma IntRelocates(a: string, i: nat, b: string, j: nat)
    requires i < |a| && DecodeInt(a, i).Some? && Agree(a, i, DecodeInt(a, i).value.1, b, j)
    ensures var (x, e) := DecodeInt(a, i).value;
      j < |b| && DecodeInt(b, j) == Some((Shift(x, j - i), e - i + j))
  {
    hide Agree, ParseNumber, Find;
    var (x, e) := DecodeInt(a, i).value;
    AgreeAt(a, i, e, b, j);
    AgreeSlice(a, i, e, b, j, i + 1, e);
    FindRelocates(a, i + 1, e, b, j + 1, 'e');
    AgreeSlice(a, i, e, b, j, i + 1, e - 1);
  }

  /** What is decoded depends on the consumed bytes only; elsewhere, the same bytes give
      the same value with shifted offsets. */
  lemma {:induction false} ItemRelocates(a: string, i: nat, b: string, j: nat)
    requires DecodeItem(a, i).Some? && Agree(a, i, DecodeItem(a, i).value.1, b, j)
    ensures var (x, e) := DecodeItem(a, i).value;
      DecodeItem(b, j) == Some((Shift(x, j - i), e - i + j))
    decreases |a| - i, 0
  {
    hide Agree, DecodeInt, DecodeString, DecodeItems, DecodePairs, InsertAll, ShiftItems, ShiftEntries, Insert;
    var e := DecodeItem(a, i).value.1;
    AgreeAt(a, i, e, b, j);
    if a[i] == 'i' {
      IntRelocates(a, i, b, j);
    } else if a[i] == 'l' {
      AgreeSlice(a, i, e, b, j, i + 1, e);
      ItemsRelocate(a, i + 1, b, j + 1);
    } else if a[i] == 'd' {
      AgreeSlice(a, i, e, b, j, i + 1, e);
      PairsRelocate(a, i + 1, b, j + 1);
      var pairs := DecodePairs(a, i + 1).value.0;
      InsertAllShifts([], pairs, j - i);
    } else {
      StringRelocates(a, i, b, j);
    }
  }

  lemma {:induction false} ItemsRelocate(a: string, i: nat, b: string, j: nat)
    requires DecodeItems(a, i).Some? && Agree(a, i, DecodeItems(a, i).value.1, b, j)
    ensures var (xs, e) := DecodeItems(a, i).value;
      DecodeItems(b, j) == Some((ShiftItems(xs, j - i), e - i + j))
    decreases |a| - i, 1
  {
    hide Agree, DecodeItem, DecodePairs, Shift;
    var e := DecodeItems(a, i).value.1;
    AgreeAt(a, i, e, b, j);
    if a[i] != 'e' {
      var (x, next) := DecodeItem(a, i).value;
      AgreeSlice(a, i, e, b, j, i, next);
      ItemRelocates(a, i, b, j);
      AgreeSlice(a, i, e, b, j, next, e);
      ItemsRelocate(a, next, b, next - i + j);
    }
  }

  lemma ShiftKeepsText(x: Item, d: int)
    ensures Shift(x, d).StrItem? <==> x.StrItem?
    ensures x.StrItem? ==> Shift(x, d).text == x.text
  {
  }

  lemma {:induction false} PairsRelocate(a: string, i: nat, b: string, j: nat)
    requires DecodePairs(a, i).Some? && Agree(a, i, DecodePairs(a, i).value.1, b, j)
    ensures var (ps, e) := DecodePairs(a, i).value;
      DecodePairs(b, j) == Some((ShiftEntries(ps, j - i), e - i + j))
    decreases |a| - i, 1
  {
    hide Agree, DecodeItem, DecodeItems, Shift;
    var e := DecodePairs(a, i).value.1;
    AgreeAt(a, i, e, b, j);
    if a[i] != 'e' {
      var (key, mid) := DecodeItem(a, i).value;
      var next := DecodeItem(a, mid).value.1;
      ShiftKeepsText(key, j - i);
      AgreeSlice(a, i, e, b, j, i, mid);
      ItemRelocates(a, i, b, j);
      AgreeSlice(a, i, e, b, j, mid, next);
      ItemRelocates(a, mid, b, mid - i + j);
      AgreeSlice(a, i, e, b, j, next, e);
      PairsRelocate(a, next, b, next - i + j);
    }
  }

  lemma ShiftKeepsKeys(es: seq<Entry>, d: int, key: string)
    ensures HasKey(ShiftEntries(es, d), key) <==> HasKey(es, key)
  {
    if HasKey(es, key) {
      var k :| 0 <= k < |es| && es[k].key == key;
      assert ShiftEntries(es, d)[k].key == key;
    }
  }

  lemma {:induction false} InsertAllShifts(acc: seq<Entry>, more: seq<Entry>, d: int)
    ensures InsertAll(ShiftEntries(acc, d), ShiftEntries(more, d)) == ShiftEntries(InsertAll(acc, more), d)
    decreases |more|
  {
    if more != [] {
      var e := more[0];
      ShiftKeepsKeys(acc, d, e.key);
      var e' := Entry(e.key, Shift(e.value, d));
      assert ShiftEntries(acc + [e], d) == ShiftEntries(acc, d) + [e'];
      assert Insert(ShiftEntries(acc, d), e') == ShiftEntries(Insert(acc, e), d);
      assert ShiftEntries(more, d)[1..] == ShiftEntries(more[1..], d);
      InsertAllShifts(Insert(acc, e), more[1..], d);
    }
  }

  /** No accepted input is a proper prefix of another. */
  lemma PrefixFree(a: string, b: string)
    requires Decode(a).Some? && Decode(b).Some? && a <= b
    ensures a == b
  {
    ItemRelocates(a, 0, b, 0);
  }

  // ----- recorded spans ----------------------------------------------------

  /** The values directly inside x, in the order they were read. */
  function Children(x: Item): seq<Item> {
    match x
    case ListItem(items, _, _) => items
    case DictItem(entries, _, _) => Values(entries)
    case _ => []
  }

  function Values(es: seq<Entry>): (r: seq<Item>)
    ensures |r| == |es| && forall k :: 0 <= k < |es| ==> r[k] == es[k].value
  {
    seq(|es|, k requires 0 <= k < |es| => es[k].value)
  }

  /** The item reached from x by a path of child positions. */
  function At(x: Item, path: seq<nat>): Option<Item> {
    if path == [] then Some(x)
    else if path[0] >= |Children(x)| then None
    else At(Children(x)[path[0]], path[1..])
  }

  /** The bytes that an item's span covers. */
  function Bytes(input: string, x: Item): string
    requires 0 <= x.start && x.start + x.len <= |input|
  {
    input[x.start..x.start + x.len]
  }

  /** Reading at y's recorded start gives y and ends at its recorded end. */
  ghost predicate DecodedAt(a: string, y: Item) {
    y.start >= 0 && DecodeItem(a, y.start) == Some((y, y.start + y.len))
  }

  /** Items read one after another from lo to hi. */
  ghost predicate InOrder(a: string, xs: seq<Item>, lo: int, hi: int) {
    && (forall k :: 0 <= k < |xs| ==> DecodedAt(a, xs[k]) && lo <= xs[k].start && xs[k].start + xs[k].len <= hi)
    && (forall j, k :: 0 <= j < k < |xs| ==> xs[j].start + xs[j].len <= xs[k].start)
  }

  lemma SpanIsExact(a: string, i: nat)
    requires DecodeItem(a, i).Some?
    ensures var (x, e) := DecodeItem(a, i).value; x.start == i && x.len == e - i && DecodedAt(a, x)
  {
  }

  lemma InOrderPrepend(a: string, x: Item, xs: seq<Item>, lo: int, hi: int)
    requires DecodedAt(a, x) && lo <= x.start && x.start + x.len <= hi
    requires InOrder(a, xs, x.start + x.len, hi)
    ensures InOrder(a, [x] + xs, lo, hi)
  {
    hide DecodeItem;
  }

  lemma {:induction false} ItemsInOrder(a: string, i: nat)
    requires DecodeItems(a, i).Some?
    ensures var (xs, e) := DecodeItems(a, i).value; InOrder(a, xs, i, e - 1)
    decreases |a| - i
  {
    hide DecodeItem, DecodePairs, DecodedAt;
    if a[i] != 'e' {
      var (x, next) := DecodeItem(a, i).value;
      SpanIsExact(a, i);
      ItemsInOrder(a, next);
      InOrderPrepend(a, x, DecodeItems(a, next).value.0, i, DecodeItems(a, i).value.1 - 1);
    }
  }

  lemma {:induction false} PairsInOrder(a: string, i: nat)
    requires DecodePairs(a, i).Some?
    ensures var (ps, e) := DecodePairs(a, i).value; InOrder(a, Values(ps), i, e - 1)
    decreases |a| - i
  {
    hide DecodeItem, DecodeItems, DecodedAt;
    if a[i] != 'e' {
      var mid := DecodeItem(a, i).value.1;
      var (x, next) := DecodeItem(a, mid).value;
      var (ps, e) := DecodePairs(a, next).value;
      SpanIsExact(a, mid);
      PairsInOrder(a, next);
      InOrderPrepend(a, x, Values(ps), i, e - 1);
      assert Values(DecodePairs(a, i).value.0) == [x] + Values(ps);
    }
  }

  /** Dropping the later duplicates of a key leaves the rest in order. */
  lemma {:induction false} InsertAllInOrder(a: string, acc: seq<Entry>, more: seq<Entry>, lo: int, hi: int)
    requires InOrder(a, Values(acc + more), lo, hi)
    ensures InOrder(a, Values(InsertAll(acc, more)), lo, hi)
    decreases |more|
  {
    hide DecodedAt;
    if more == [] {
      assert acc + more == acc;
    } else {
      var next := Insert(acc, more[0]);
      if HasKey(acc, more[0].key) {
        var xs, ys := Values(acc + more), Values(acc + more[1..]);
        forall k | 0 <= k < |ys|
          ensures ys[k] == xs[if k < |acc| then k else k + 1]
        {
        }
      } else {
        assert next + more[1..] == acc + more;
      }
      InsertAllInOrder(a, next, more[1..], lo, hi);
    }
  }

  /** Every child is read where its span says, after the previous child's span, and
      strictly inside its parent's. */
  lemma ChildrenInOrder(a: string, x: Item)
    requires DecodedAt(a, x)
    ensures InOrder(a, Children(x), x.start + 1, x.start + x.len - 1)
  {
    hide InOrder, DecodePairs, DecodeItems, InsertAll, Values;
    match x
    case ListItem(items, _, _) =>
      ItemsInOrder(a, x.start + 1);
    case DictItem(entries, _, _) =>
      PairsInOrder(a, x.start + 1);
      var pairs := DecodePairs(a, x.start + 1).value.0;
      assert [] + pairs == pairs;
      InsertAllInOrder(a, [], pairs, x.start + 1, x.start + x.len - 1);
    case _ =>
      NothingInOrder(a, x.start + 1, x.start + x.len - 1);
  }

  lemma NothingInOrder(a: string, lo: int, hi: int)
    ensures InOrder(a, [], lo, hi)
  {
  }

  /** At any depth: the span of a nested item lies inside the whole, and its bytes decoded
      alone give that item with offsets counted from its own start. */
  lemma {:induction false} NestedDecodesAlone(a: string, x: Item, path: seq<nat>)
    requires DecodedAt(a, x) && At(x, path).Some?
    ensures var y := At(x, path).value;
      && x.start <= y.start && y.start + y.len <= x.start + x.len <= |a|
      && (path != [] ==> y.len < x.len)
      && DecodedAt(a, y)
      && Decode(Bytes(a, y)) == Some(Shift(y, -y.start))
    decreases |path|
  {
    hide DecodeItem, Children, Shift;
    if path == [] {
      var own := Bytes(a, x);
      ItemRelocates(a, x.start, own, 0);
    } else {
      ChildrenInOrder(a, x);
      NestedDecodesAlone(a, Children(x)[path[0]], path[1..]);
    }
  }

  lemma ChildDecodesAlone(a: string, x: Item, k: nat)
    requires DecodedAt(a, x) && k < |Children(x)|
    ensures var y := Children(x)[k];
      && x.start < y.start && y.start + y.len < x.start + x.len <= |a|
      && Decode(Bytes(a, y)) == Some(Shift(y, -y.start))
  {
    hide DecodeItem, Children, Shift, Decode;
    ChildrenInOrder(a, x);
    NestedDecodesAlone(a, Children(x)[k], []);
    NestedDecodesAlone(a, x, []);
  }
}
