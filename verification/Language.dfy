/** The texts the decoder accepts, as a grammar on texts: what a text says, without the decoder's
    own functions for numbers, positions and dictionaries. */
module Language {
  import opened Prelude
  import opened Bencode
  import opened RoundTrip

  // ----- numbers -----------------------------------------------------------

  function Pow10(n: nat): nat {
    if n == 0 then 1 else 10 * Pow10(n - 1)
  }

  /** The sum of the digits, each times its power of ten. */
  function PlaceValue(s: string): int {
    if s == [] then 0 else (s[0] as int - 48) * Pow10(|s| - 1) + PlaceValue(s[1..])
  }

  /** At least one character, all of them '0' to '9'; leading zeros are allowed. */
  ghost predicate Natural(s: string) {
    s != [] && forall k :: 0 <= k < |s| ==> 48 <= s[k] as int <= 57
  }

  lemma {:induction false} PlaceValueSnoc(s: string, c: char)
    ensures PlaceValue(s + [c]) == 10 * PlaceValue(s) + (c as int - 48)
  {
    if s == [] {
      assert [c][1..] == [];
    } else {
      assert (s + [c])[1..] == s[1..] + [c];
      PlaceValueSnoc(s[1..], c);
      assert Pow10(|s|) == 10 * Pow10(|s| - 1);
      assert (s[0] as int - 48) * (10 * Pow10(|s| - 1)) == 10 * ((s[0] as int - 48) * Pow10(|s| - 1));
    }
  }

  lemma {:induction false} DigitsArePlaces(s: string)
    requires forall k :: 0 <= k < |s| ==> 48 <= s[k] as int <= 57
    ensures DigitsValue(s) == PlaceValue(s)
  {
    if s != [] {
      var n := |s| - 1;
      DigitsArePlaces(s[..n]);
      PlaceValueSnoc(s[..n], s[n]);
      assert s[..n] + [s[n]] == s;
    }
  }

  /** An optional minus before a natural number, the whole within 64 bits. */
  ghost predicate Numeral(t: string, v: int) {
    && -0x8000_0000_0000_0000 <= v <= 0x7FFF_FFFF_FFFF_FFFF
    && ((Natural(t) && v == PlaceValue(t)) || (t != [] && t[0] == '-' && Natural(t[1..]) && v == -PlaceValue(t[1..])))
  }

  /** Exactly the numerals are numbers, and this is their value. */
  lemma NumberIff(t: string, v: int)
    ensures ParseNumber(t) == Some(v) <==> Numeral(t, v)
  {
    hide DigitsValue, PlaceValue;
    var digits := if t != [] && t[0] == '-' then t[1..] else t;
    if AllDigits(digits) {
      DigitsArePlaces(digits);
    }
    if t != [] && t[0] == '-' {
      assert !Natural(t) by {
        assert t[0] as int == 45;
      }
    }
  }

  // ----- values ------------------------------------------------------------

  /** The pairs whose key did not come before. */
  ghost function FirstOnly(raw: seq<Pair>): seq<Pair> {
    if raw == [] then []
    else
      var n := |raw| - 1;
      if exists k :: 0 <= k < n && raw[k].key == raw[n].key then FirstOnly(raw[..n]) else FirstOnly(raw[..n]) + [raw[n]]
  }

  /** What a text says. */
  ghost predicate Says(t: string, v: Value)
    decreases |t|, 0
  {
    match v
    case VInt(n) => |t| >= 2 && t[0] == 'i' && t[|t| - 1] == 'e' && Numeral(t[1..|t| - 1], n)
    case VStr(s) => exists k :: 0 <= k < |t| && SaysString(t, k, s)
    case VList(items) => |t| >= 2 && t[0] == 'l' && SaysItems(t[1..], items)
    case VDict(pairs) =>
      |t| >= 2 && t[0] == 'd' && exists raw :: SaysPairs(t[1..], raw) && pairs == FirstOnly(raw)
  }

  /** A length in digits, a colon, and so many characters, at most 2^27. */
  ghost predicate SaysString(t: string, k: nat, s: string)
    requires k < |t|
  {
    t[k] == ':' && t[k + 1..] == s && Natural(t[..k]) && PlaceValue(t[..k]) == |s| <= 0x800_0000
  }

  /** Texts of the items, one after the other, and an 'e'. */
  ghost predicate SaysItems(t: string, vs: seq<Value>)
    decreases |t|, 1
  {
    if vs == [] then t == "e"
    else exists k :: 0 < k < |t| && Says(t[..k], vs[0]) && SaysItems(t[k..], vs[1..])
  }

  /** Texts of the keys and values in turn, and an 'e'. */
  ghost predicate SaysPairs(t: string, ps: seq<Pair>)
    decreases |t|, 1
  {
    if ps == [] then t == "e"
    else exists j, k :: 0 < j < k < |t| && SaysPair(t, j, k, ps[0]) && SaysPairs(t[k..], ps[1..])
  }

  ghost predicate SaysPair(t: string, j: nat, k: nat, p: Pair)
    requires 0 < j < k < |t|
    decreases |t|, 0
  {
    Says(t[..j], VStr(p.key)) && Says(t[j..k], p.value)
  }

  // ----- what is decoded is what the text says -----------------------------

  lemma SubText(a: string, i: nat, end: nat, j: nat, k: nat)
    requires i <= end <= |a| && j <= k <= end - i
    ensures a[i..end][j..k] == a[i + j..i + k]
  {
    var u, w := a[i..end][j..k], a[i + j..i + k];
    forall m | 0 <= m < |u| ensures u[m] == w[m] {
      assert u[m] == a[i..end][j + m];
    }
  }

  lemma StringSays(a: string, i: nat)
    requires i < |a| && IsDigit(a[i]) && DecodeString(a, i).Some?
    ensures var (x, end) := DecodeString(a, i).value; i < end <= |a| && Says(a[i..end], Strip(x))
  {
    hide ParseNumber, PlaceValue;
    var colon := Find(a, i, ':').value;
    var n := ParseNumber(a[i..colon]).value;
    NumberIff(a[i..colon], n);
    var end := colon + 1 + n;
    var t := a[i..end];
    SubText(a, i, end, 0, colon - i);
    SubText(a, i, end, colon - i + 1, end - i);
    assert SaysString(t, colon - i, a[colon + 1..end]);
  }

  lemma IntSays(a: string, i: nat)
    requires i < |a| && a[i] == 'i' && DecodeInt(a, i).Some?
    ensures var (x, end) := DecodeInt(a, i).value; i < end <= |a| && Says(a[i..end], Strip(x))
  {
    hide ParseNumber, Numeral;
    var e := Find(a, i + 1, 'e').value;
    NumberIff(a[i + 1..e], ParseNumber(a[i + 1..e]).value);
    SubText(a, i, e + 1, 1, e - i);
  }

  lemma {:induction false} DecodedSays(a: string, i: nat)
    requires DecodeItem(a, i).Some?
    ensures var (x, end) := DecodeItem(a, i).value; i < end <= |a| && Says(a[i..end], Strip(x))
    decreases |a| - i, 0
  {
    hide DecodeItems, DecodePairs, DecodeString, DecodeInt, SaysItems, SaysPairs, Numeral, InsertAll, FirstOnly;
    var (x, end) := DecodeItem(a, i).value;
    if a[i] == 'i' {
      IntSays(a, i);
    } else if a[i] == 'l' {
      ItemsSay(a, i + 1);
      SubText(a, i, end, 1, end - i);
    } else if a[i] == 'd' {
      PairsSay(a, i + 1);
      SubText(a, i, end, 1, end - i);
      FirstOnlyIs(DecodePairs(a, i + 1).value.0);
    } else {
      StringSays(a, i);
    }
  }

  lemma {:induction false} ItemsSay(a: string, i: nat)
    requires DecodeItems(a, i).Some?
    ensures var (xs, end) := DecodeItems(a, i).value; i < end <= |a| && SaysItems(a[i..end], StripItems(xs))
    decreases |a| - i, 1
  {
    hide DecodeItem, Says, Strip;
    if a[i] == 'e' {
      assert a[i..i + 1] == "e";
    } else {
      DecodedSays(a, i);
      var (x, next) := DecodeItem(a, i).value;
      ItemsSay(a, next);
      var (xs, end) := DecodeItems(a, i).value;
      var t, rest := a[i..end], DecodeItems(a, next).value.0;
      SubText(a, i, end, 0, next - i);
      SubText(a, i, end, next - i, end - i);
      assert StripItems(xs)[0] == Strip(x) && xs[1..] == rest && StripItems(xs)[1..] == StripItems(rest);
      assert 0 < next - i < |t| && Says(t[..next - i], StripItems(xs)[0]);
    }
  }

  lemma {:induction false} PairsSay(a: string, i: nat)
    requires DecodePairs(a, i).Some?
    ensures var (es, end) := DecodePairs(a, i).value; i < end <= |a| && SaysPairs(a[i..end], StripEntries(es))
    decreases |a| - i, 1
  {
    hide DecodeItem, Says, Strip;
    if a[i] == 'e' {
      assert a[i..i + 1] == "e";
    } else {
      DecodedSays(a, i);
      var (key, mid) := DecodeItem(a, i).value;
      DecodedSays(a, mid);
      var (x, next) := DecodeItem(a, mid).value;
      PairsSay(a, next);
      var (es, end) := DecodePairs(a, i).value;
      var t, rest := a[i..end], DecodePairs(a, next).value.0;
      KeyStrips(key);
      SubText(a, i, end, 0, mid - i);
      SubText(a, i, end, mid - i, next - i);
      SubText(a, i, end, next - i, end - i);
      assert es[0] == Entry(key.text, x) && es[1..] == rest && StripEntries(es)[1..] == StripEntries(rest);
      assert SaysPair(t, mid - i, next - i, StripEntries(es)[0]);
    }
  }

  lemma KeyStrips(key: Item)
    requires key.StrItem?
    ensures Strip(key) == VStr(key.text)
  {
  }

  /** Inserting without overwriting keeps the first value of each key. */
  lemma {:induction false} FirstOnlyIs(es: seq<Entry>)
    ensures StripEntries(InsertAll([], es)) == FirstOnly(StripEntries(es))
    ensures forall key :: HasKey(InsertAll([], es), key) <==> HasKey(es, key)
    decreases |es|
  {
    hide Strip, StripEntries, InsertAll, FirstOnly, HasKey;
    NothingInserted();
    if es != [] {
      var n := |es| - 1;
      var init := InsertAll([], es[..n]);
      FirstOnlyIs(es[..n]);
      InsertAllSnoc([], es[..n], es[n]);
      assert es[..n] + [es[n]] == es;
      StripSnoc(es[..n], es[n]);
      StripSnoc(init, es[n]);
      FirstOnlySnoc(es[..n], es[n]);
      forall key ensures HasKey(InsertAll([], es), key) <==> HasKey(es, key) {
        HasKeySnoc(es[..n], es[n], key);
        HasKeySnoc(init, es[n], key);
      }
    }
  }

  lemma NothingInserted()
    ensures InsertAll([], []) == [] && StripEntries([]) == [] && FirstOnly([]) == []
  {
  }

  lemma StripSnoc(es: seq<Entry>, e: Entry)
    ensures StripEntries(es + [e]) == StripEntries(es) + [Pair(e.key, Strip(e.value))]
  {
    hide Strip;
  }

  lemma FirstOnlySnoc(es: seq<Entry>, e: Entry)
    ensures var ps, p := StripEntries(es), Pair(e.key, Strip(e.value));
      FirstOnly(ps + [p]) == if HasKey(es, e.key) then FirstOnly(ps) else FirstOnly(ps) + [p]
  {
    hide Strip;
    var ps, p := StripEntries(es), Pair(e.key, Strip(e.value));
    var all, n := ps + [p], |ps|;
    assert all[..n] == ps && all[n] == p;
    assert (exists k :: 0 <= k < n && all[k].key == p.key) <==> HasKey(es, e.key) by {
      if k :| 0 <= k < |es| && es[k].key == e.key {
        assert all[k].key == p.key;
      }
      if k :| 0 <= k < n && all[k].key == p.key {
        assert es[k].key == e.key;
      }
    }
  }

  lemma HasKeySnoc(es: seq<Entry>, e: Entry, key: string)
    ensures HasKey(es + [e], key) <==> HasKey(es, key) || e.key == key
  {
    if HasKey(es, key) {
      var k :| 0 <= k < |es| && es[k].key == key;
      assert (es + [e])[k].key == key;
    }
    if e.key == key {
      assert (es + [e])[|es|].key == key;
    }
  }

  lemma {:induction false} InsertAllSnoc(dict: seq<Entry>, more: seq<Entry>, e: Entry)
    ensures InsertAll(dict, more + [e]) == Insert(InsertAll(dict, more), e)
    decreases |more|
  {
    hide Insert;
    if more == [] {
      assert [e][1..] == [];
      assert more + [e] == [e];
    } else {
      assert (more + [e])[1..] == more[1..] + [e] && (more + [e])[0] == more[0];
      InsertAllSnoc(Insert(dict, more[0]), more[1..], e);
    }
  }

  // ----- what a text says is what is decoded -------------------------------

  /** The text stands at position i. */
  ghost predicate StandsAt(t: string, a: string, i: nat) {
    i + |t| <= |a| && a[i..i + |t|] == t
  }

  lemma StandsPart(t: string, a: string, i: nat, j: nat, k: nat)
    requires StandsAt(t, a, i) && j <= k <= |t|
    ensures StandsAt(t[j..k], a, i + j)
  {
    var u, w := t[j..k], a[i + j..i + j + (k - j)];
    forall m | 0 <= m < |u| ensures u[m] == w[m] {
      assert u[m] == t[j + m] == a[i..i + |t|][j + m] == a[i + j + m];
    }
    assert u == w;
  }

  ghost predicate ReadsTo(a: string, i: nat, end: nat, v: Value) {
    DecodeItem(a, i).Some? && DecodeItem(a, i).value.1 == end && Strip(DecodeItem(a, i).value.0) == v
  }

  lemma SaidInt(t: string, n: int, a: string, i: nat)
    requires Says(t, VInt(n)) && StandsAt(t, a, i)
    ensures ReadsTo(a, i, i + |t|, VInt(n))
  {
    hide ParseNumber, PlaceValue;
    var text := t[1..|t| - 1];
    NumberIff(text, n);
    StandsPart(t, a, i, 1, |t| - 1);
    assert a[i] == t[0] && a[i + |t| - 1] == t[|t| - 1];
    NoneOf(text, 'e');
    FindAfter(a, i + 1, text, 'e');
  }

  lemma NoneOf(text: string, c: char)
    requires c == 'e' || c == ':'
    requires Natural(text) || (text != [] && text[0] == '-' && Natural(text[1..]))
    ensures c !in text
  {
    forall k | 0 <= k < |text| ensures text[k] != c {
      if k > 0 {
        assert text[k] == text[1..][k - 1];
      }
    }
  }

  lemma SaidString(t: string, s: string, a: string, i: nat)
    requires Says(t, VStr(s)) && StandsAt(t, a, i)
    ensures ReadsTo(a, i, i + |t|, VStr(s))
  {
    hide ParseNumber, PlaceValue;
    var k :| 0 <= k < |t| && SaysString(t, k, s);
    var text := t[..k];
    NumberIff(text, |s|);
    StandsPart(t, a, i, 0, k);
    StandsPart(t, a, i, k + 1, |t|);
    assert a[i + k] == t[k] && a[i] == t[0] == text[0];
    NoneOf(text, ':');
    FindAfter(a, i, text, ':');
    assert a[i + k + 1..i + |t|] == s by {
      assert a[i + k + 1..i + |t|] == t[k + 1..];
    }
    StringReads(a, i, k, s);
  }

  lemma StringReads(a: string, i: nat, k: nat, s: string)
    requires i < |a| && IsDigit(a[i]) && Find(a, i, ':') == Some(i + k) && i + k + 1 + |s| <= |a|
    requires ParseNumber(a[i..i + k]) == Some(|s|) && |s| <= MAX_STRING_LEN && a[i + k + 1..i + k + 1 + |s|] == s
    ensures ReadsTo(a, i, i + k + 1 + |s|, VStr(s))
  {
    hide ParseNumber, Find;
  }

  lemma {:induction false} SaidIsDecoded(t: string, v: Value, a: string, i: nat)
    requires Says(t, v) && StandsAt(t, a, i)
    ensures ReadsTo(a, i, i + |t|, v)
    decreases |t|, 0
  {
    hide DecodeItem, DecodeItems, DecodePairs, SaysItems, SaysPairs, InsertAll, FirstOnly, Strip, ReadsTo;
    match v
    case VInt(n) => SaidInt(t, n, a, i);
    case VStr(s) => SaidString(t, s, a, i);
    case VList(items) =>
      StandsPart(t, a, i, 1, |t|);
      SaidItems(t[1..], items, a, i + 1);
      assert a[i] == t[0];
      ListIs(a, i, items, i + |t|);
    case VDict(pairs) =>
      var raw :| SaysPairs(t[1..], raw) && pairs == FirstOnly(raw);
      StandsPart(t, a, i, 1, |t|);
      SaidPairs(t[1..], raw, a, i + 1);
      assert a[i] == t[0];
      DictIs(a, i, raw, i + |t|);
  }

  lemma ListIs(a: string, i: nat, items: seq<Value>, end: nat)
    requires i < |a| && a[i] == 'l' && DecodeItems(a, i + 1).Some?
    requires StripItems(DecodeItems(a, i + 1).value.0) == items && DecodeItems(a, i + 1).value.1 == end
    ensures ReadsTo(a, i, end, VList(items))
  {
    hide DecodeItems;
  }

  lemma DictIs(a: string, i: nat, raw: seq<Pair>, end: nat)
    requires i < |a| && a[i] == 'd' && DecodePairs(a, i + 1).Some?
    requires StripEntries(DecodePairs(a, i + 1).value.0) == raw && DecodePairs(a, i + 1).value.1 == end
    ensures ReadsTo(a, i, end, VDict(FirstOnly(raw)))
  {
    hide DecodePairs, InsertAll, FirstOnly;
    FirstOnlyIs(DecodePairs(a, i + 1).value.0);
  }

  lemma {:induction false} SaidItems(t: string, vs: seq<Value>, a: string, i: nat)
    requires SaysItems(t, vs) && StandsAt(t, a, i)
    ensures DecodeItems(a, i).Some? && DecodeItems(a, i).value.1 == i + |t|
    ensures StripItems(DecodeItems(a, i).value.0) == vs
    decreases |t|, 1
  {
    hide DecodeItem, DecodeItems, Says, Strip, StripItems;
    if vs == [] {
      assert a[i] == t[0];
      NoItemsAt(a, i);
    } else {
      var k :| 0 < k < |t| && Says(t[..k], vs[0]) && SaysItems(t[k..], vs[1..]);
      StandsPart(t, a, i, 0, k);
      StandsPart(t, a, i, k, |t|);
      SaidIsDecoded(t[..k], vs[0], a, i);
      SaidItems(t[k..], vs[1..], a, i + k);
      ItemsAt(a, i, i + k, vs[0], vs[1..], i + |t|);
      assert [vs[0]] + vs[1..] == vs;
    }
  }

  lemma NoItemsAt(a: string, i: nat)
    requires i < |a| && a[i] == 'e'
    ensures DecodeItems(a, i) == Some(([], i + 1)) && DecodePairs(a, i) == Some(([], i + 1))
    ensures StripItems([]) == [] && StripEntries([]) == []
  {
  }

  lemma ItemsAt(a: string, i: nat, next: nat, v: Value, vs: seq<Value>, end: nat)
    requires ReadsTo(a, i, next, v) && DecodeItems(a, next).Some? && DecodeItems(a, next).value.1 == end
    requires StripItems(DecodeItems(a, next).value.0) == vs
    ensures DecodeItems(a, i).Some? && DecodeItems(a, i).value.1 == end
    ensures StripItems(DecodeItems(a, i).value.0) == [v] + vs
  {
    hide DecodeItem, Strip;
    NotTheEnd(a, i);
    var x, rest := DecodeItem(a, i).value.0, DecodeItems(a, next).value.0;
    assert ([x] + rest)[1..] == rest;
  }

  lemma {:induction false} SaidPairs(t: string, ps: seq<Pair>, a: string, i: nat)
    requires SaysPairs(t, ps) && StandsAt(t, a, i)
    ensures DecodePairs(a, i).Some? && DecodePairs(a, i).value.1 == i + |t|
    ensures StripEntries(DecodePairs(a, i).value.0) == ps
    decreases |t|, 1
  {
    hide DecodeItem, DecodePairs, Says, Strip, StripEntries;
    if ps == [] {
      assert a[i] == t[0];
      NoItemsAt(a, i);
    } else {
      var j, k :| 0 < j < k < |t| && SaysPair(t, j, k, ps[0]) && SaysPairs(t[k..], ps[1..]);
      StandsPart(t, a, i, 0, j);
      StandsPart(t, a, i, j, k);
      StandsPart(t, a, i, k, |t|);
      SaidIsDecoded(t[..j], VStr(ps[0].key), a, i);
      SaidIsDecoded(t[j..k], ps[0].value, a, i + j);
      SaidPairs(t[k..], ps[1..], a, i + k);
      PairsAt(a, i, i + j, i + k, ps[0], ps[1..], i + |t|);
      assert [ps[0]] + ps[1..] == ps;
    }
  }

  lemma PairsAt(a: string, i: nat, mid: nat, next: nat, p: Pair, ps: seq<Pair>, end: nat)
    requires ReadsTo(a, i, mid, VStr(p.key)) && ReadsTo(a, mid, next, p.value)
    requires DecodePairs(a, next).Some? && DecodePairs(a, next).value.1 == end
    requires StripEntries(DecodePairs(a, next).value.0) == ps
    ensures DecodePairs(a, i).Some? && DecodePairs(a, i).value.1 == end
    ensures StripEntries(DecodePairs(a, i).value.0) == [p] + ps
  {
    hide DecodeItem, Strip;
    NotTheEnd(a, i);
    var key, x, rest := DecodeItem(a, i).value.0, DecodeItem(a, mid).value.0, DecodePairs(a, next).value.0;
    TextOf(key, p.key);
    assert ([Entry(key.text, x)] + rest)[1..] == rest;
  }

  lemma TextOf(key: Item, text: string)
    requires Strip(key) == VStr(text)
    ensures key.StrItem? && key.text == text
  {
  }

  lemma NotTheEnd(a: string, i: nat)
    requires DecodeItem(a, i).Some?
    ensures i < |a| && a[i] != 'e'
  {
  }

  /** The decoder accepts a text as a value if and only if that is what the text says. */
  lemma AcceptedIff(t: string, v: Value)
    ensures (Decode(t).Some? && Strip(Decode(t).value) == v) <==> Says(t, v)
  {
    hide DecodeItem, Says, Strip;
    if Decode(t).Some? {
      DecodedSays(t, 0);
      assert t[0..|t|] == t;
    }
    if Says(t, v) {
      assert StandsAt(t, t, 0);
      SaidIsDecoded(t, v, t, 0);
    }
  }
}
