/** The Bencode decoder.  A byte of the input is a char.  Every decoded item records
    where its encoding starts and how long it is. */
module Bencode {
  import opened Prelude

  const MAX_STRING_LEN: int := 0x800_0000
  const INT_MIN: int := -0x8000_0000_0000_0000
  const INT_MAX: int := 0x7FFF_FFFF_FFFF_FFFF

  datatype Item =
    | IntItem(value: int, start: int, len: nat)
    | StrItem(text: string, start: int, len: nat)
    | ListItem(items: seq<Item>, start: int, len: nat)
    | DictItem(entries: seq<Entry>, start: int, len: nat)

  /** A dictionary keeps its entries in the order they were first inserted. */
  datatype Entry = Entry(key: string, value: Item)

  // ----- numbers in text ---------------------------------------------------

  predicate IsDigit(c: char) {
    '0' <= c <= '9'
  }

  ghost predicate AllDigits(s: string) {
    forall k :: 0 <= k < |s| ==> IsDigit(s[k])
  }

  function DigitsValue(s: string): nat {
    if s == [] then 0
    else
      var c := s[|s| - 1];
      10 * DigitsValue(s[..|s| - 1]) + (if IsDigit(c) then c as int - '0' as int else 0)
  }

  predicate Digits(s: string)
    ensures Digits(s) <==> AllDigits(s)
  {
    if s == [] then true else IsDigit(s[|s| - 1]) && Digits(s[..|s| - 1])
  }

  /** The whole text as a signed 64-bit number: an optional minus and at least one digit. */
  function ParseNumber(s: string): Option<int> {
    var negative := s != [] && s[0] == '-';
    var digits := if negative then s[1..] else s;
    if digits == [] || !Digits(digits) then None
    else
      var n: int := DigitsValue(digits);
      var v := if negative then -n else n;
      if INT_MIN <= v <= INT_MAX then Some(v) else None
  }

  // ----- the decoder as a function -----------------------------------------

  /** The first position from pos on that holds the delimiter. */
  function Find(input: string, pos: nat, delim: char): (r: Option<nat>)
    ensures r.Some? ==> pos <= r.value < |input| && input[r.value] == delim
    ensures r.Some? ==> forall k :: pos <= k < r.value ==> input[k] != delim
    ensures r == None ==> forall k :: pos <= k < |input| ==> input[k] != delim
    decreases |input| - pos
  {
    if pos >= |input| then None
    else if input[pos] == delim then Some(pos)
    else Find(input, pos + 1, delim)
  }

  function DecodeString(input: string, pos: nat): (r: Option<(Item, nat)>)
    ensures r.Some? ==> pos < r.value.1 <= |input|
  {
    match Find(input, pos, ':')
    case None => None
    case Some(colon) =>
      match ParseNumber(input[pos..colon])
      case None => None
      case Some(n) =>
        if n < 0 || n > MAX_STRING_LEN || colon + 1 + n > |input| then None
        else
          var end := colon + 1 + n;
          Some((StrItem(input[colon + 1..end], pos, end - pos), end))
  }

  function DecodeInt(input: string, pos: nat): (r: Option<(Item, nat)>)
    requires pos < |input|
    ensures r.Some? ==> pos < r.value.1 <= |input|
  {
    match Find(input, pos + 1, 'e')
    case None => None
    case Some(e) =>
      match ParseNumber(input[pos + 1..e])
      case None => None
      case Some(v) => Some((IntItem(v, pos, e + 1 - pos), e + 1))
  }

  /** One value starting at pos, and the position after it. */
  function DecodeItem(input: string, pos: nat): (r: Option<(Item, nat)>)
    ensures r.Some? ==> pos < r.value.1 <= |input|
    decreases |input| - pos, 0
  {
    if pos >= |input| then None
    else if input[pos] == 'i' then DecodeInt(input, pos)
    else if input[pos] == 'l' then
      match DecodeItems(input, pos + 1)
      case None => None
      case Some((items, end)) => Some((ListItem(items, pos, end - pos), end))
    else if input[pos] == 'd' then
      match DecodePairs(input, pos + 1)
      case None => None
      case Some((pairs, end)) => Some((DictItem(InsertAll([], pairs), pos, end - pos), end))
    else if IsDigit(input[pos]) then DecodeString(input, pos)
    else None
  }

  /** The values up to the closing 'e', which is consumed. */
  function DecodeItems(input: string, pos: nat): (r: Option<(seq<Item>, nat)>)
    ensures r.Some? ==> pos < r.value.1 <= |input|
    decreases |input| - pos, 1
  {
    if pos >= |input| then None
    else if input[pos] == 'e' then Some(([], pos + 1))
    else
      match DecodeItem(input, pos)
      case None => None
      case Some((item, next)) =>
        match DecodeItems(input, next)
        case None => None
        case Some((rest, end)) => Some(([item] + rest, end))
  }

  /** Keys and values up to the closing 'e'; a key that is not a string is refused. */
  function DecodePairs(input: string, pos: nat): (r: Option<(seq<Entry>, nat)>)
    ensures r.Some? ==> pos < r.value.1 <= |input|
    decreases |input| - pos, 1
  {
    if pos >= |input| then None
    else if input[pos] == 'e' then Some(([], pos + 1))
    else
      match DecodeItem(input, pos)
      case None => None
      case Some((key, mid)) =>
        if !key.StrItem? then None
        else
          match DecodeItem(input, mid)
          case None => None
          case Some((value, next)) =>
            match DecodePairs(input, next)
            case None => None
            case Some((rest, end)) => Some(([Entry(key.text, value)] + rest, end))
  }

  predicate HasKey(entries: seq<Entry>, key: string) {
    exists k :: 0 <= k < |entries| && entries[k].key == key
  }

  /** Insertion does not overwrite: the first value of a key stays. */
  function Insert(entries: seq<Entry>, e: Entry): seq<Entry> {
    if HasKey(entries, e.key) then entries else entries + [e]
  }

  function InsertAll(entries: seq<Entry>, more: seq<Entry>): seq<Entry>
    decreases |more|
  {
    if more == [] then entries else InsertAll(Insert(entries, more[0]), more[1..])
  }

  /** A complete input is one value with nothing left over. */
  function Decode(input: string): Option<Item> {
    match DecodeItem(input, 0)
    case None => None
    case Some((item, end)) => if end == |input| then Some(item) else None
  }

  // ----- how far the loops have come ---------------------------------------

  /** The items read so far, followed by those still to come, are those from the start. */
  ghost predicate ItemsSoFar(input: string, from: nat, pos: nat, items: seq<Item>) {
    match DecodeItems(input, pos)
    case None => DecodeItems(input, from) == None
    case Some((rest, end)) => DecodeItems(input, from) == Some((items + rest, end))
  }

  lemma ItemsStart(input: string, from: nat)
    ensures ItemsSoFar(input, from, from, [])
  {
    var r := DecodeItems(input, from);
    assert r.Some? ==> [] + r.value.0 == r.value.0;
  }

  lemma ItemsStep(input: string, from: nat, pos: nat, items: seq<Item>)
    requires ItemsSoFar(input, from, pos, items) && pos < |input| && input[pos] != 'e'
    ensures match DecodeItem(input, pos)
      case None => DecodeItems(input, from) == None
      case Some((item, next)) => ItemsSoFar(input, from, next, items + [item])
  {
    var d := DecodeItem(input, pos);
    if d.Some? && DecodeItems(input, d.value.1).Some? {
      var rest := DecodeItems(input, d.value.1).value.0;
      assert items + ([d.value.0] + rest) == items + [d.value.0] + rest;
    }
  }

  lemma ItemsDone(input: string, from: nat, pos: nat, items: seq<Item>)
    requires ItemsSoFar(input, from, pos, items) && (pos < |input| ==> input[pos] == 'e')
    ensures DecodeItems(input, from) == if pos < |input| then Some((items, pos + 1)) else None
  {
    assert items + [] == items;
  }

  /** The entries inserted so far, and then those still to come, give the whole dictionary. */
  ghost predicate PairsSoFar(input: string, from: nat, pos: nat, dict: seq<Entry>) {
    match DecodePairs(input, pos)
    case None => DecodePairs(input, from) == None
    case Some((rest, end)) =>
      && DecodePairs(input, from).Some? && DecodePairs(input, from).value.1 == end
      && InsertAll([], DecodePairs(input, from).value.0) == InsertAll(dict, rest)
  }

  lemma PairsStart(input: string, from: nat)
    ensures PairsSoFar(input, from, from, [])
  {
  }

  lemma PairsStep(input: string, from: nat, pos: nat, dict: seq<Entry>)
    requires PairsSoFar(input, from, pos, dict) && pos < |input| && input[pos] != 'e'
    ensures match DecodeItem(input, pos)
      case None => DecodePairs(input, from) == None
      case Some((key, mid)) =>
        if !key.StrItem? then DecodePairs(input, from) == None
        else match DecodeItem(input, mid)
          case None => DecodePairs(input, from) == None
          case Some((value, next)) => PairsSoFar(input, from, next, Insert(dict, Entry(key.text, value)))
  {
    var k := DecodeItem(input, pos);
    if k.Some? && k.value.0.StrItem? {
      var v := DecodeItem(input, k.value.1);
      if v.Some? && DecodePairs(input, v.value.1).Some? {
        var rest := DecodePairs(input, v.value.1).value.0;
        var e := Entry(k.value.0.text, v.value.0);
        assert ([e] + rest)[0] == e && ([e] + rest)[1..] == rest;
      }
    }
  }

  lemma PairsDone(input: string, from: nat, pos: nat, dict: seq<Entry>)
    requires PairsSoFar(input, from, pos, dict) && (pos < |input| ==> input[pos] == 'e')
    ensures if pos < |input|
      then DecodePairs(input, from).Some? && DecodePairs(input, from).value.1 == pos + 1
        && InsertAll([], DecodePairs(input, from).value.0) == dict
      else DecodePairs(input, from) == None
  {
  }

  // ----- the decoder as it runs --------------------------------------------

  /** An input stream with a read position; a parse error leaves no result. */
  class Stream {
    const input: string
    var pos: nat

    constructor (input: string)
      ensures this.input == input && pos == 0
    {
      this.input := input;
      pos := 0;
    }

    /** Reads up to the delimiter and consumes it; None if the input ends first. */
    method GetLine(delim: char) returns (line: Option<string>)
      requires pos <= |input|
      modifies this
      ensures match Find(input, old(pos), delim)
        case None => line == None
        case Some(k) => line == Some(input[old(pos)..k]) && pos == k + 1
    {
      var from := pos;
      while pos < |input| && input[pos] != delim
        invariant from <= pos <= |input|
        invariant Find(input, from, delim) == Find(input, pos, delim)
        decreases |input| - pos
      {
        pos := pos + 1;
      }
      if pos == |input| {
        return None;
      }
      line := Some(input[from..pos]);
      pos := pos + 1;
    }

    /** What every parser promises: it does what the function says, at its position. */
    ghost predicate Reads(from: nat, spec: Option<(Item, nat)>, r: Option<Item>)
      reads this
    {
      match spec
      case None => r == None
      case Some((item, end)) => r == Some(item) && pos == end
    }

    method ParseString() returns (r: Option<Item>)
      requires pos <= |input|
      modifies this
      ensures Reads(old(pos), DecodeString(input, old(pos)), r)
    {
      var start := pos;
      var line := GetLine(':');
      if line == None {
        return None;
      }
      var length := ParseNumber(line.value);
      if length == None || length.value < 0 || length.value > MAX_STRING_LEN || pos + length.value > |input| {
        return None;
      }
      var text := input[pos..pos + length.value];
      pos := pos + length.value;
      r := Some(StrItem(text, start, pos - start));
    }

    method ParseInt() returns (r: Option<Item>)
      requires 0 < pos <= |input|
      modifies this
      ensures Reads(old(pos) - 1, DecodeInt(input, old(pos) - 1), r)
    {
      var start := pos - 1;
      var line := GetLine('e');
      if line == None {
        return None;
      }
      var value := ParseNumber(line.value);
      if value == None {
        return None;
      }
      r := Some(IntItem(value.value, start, pos - start));
    }

    method ParseList() returns (r: Option<Item>)
      requires 0 < pos <= |input|
      modifies this
      ensures match DecodeItems(input, old(pos))
        case None => r == None
        case Some((items, end)) => r == Some(ListItem(items, old(pos) - 1, end - (old(pos) - 1))) && pos == end
      decreases |input| - pos, 1
    {
      hide DecodeItems, DecodeItem, ItemsSoFar;
      var start := pos - 1;
      ghost var from := pos;
      var items: seq<Item> := [];
      ItemsStart(input, from);
      while pos < |input| && input[pos] != 'e'
        invariant from <= pos <= |input| && ItemsSoFar(input, from, pos, items)
        decreases |input| - pos
      {
        ItemsStep(input, from, pos, items);
        var item := Parse();
        if item == None {
          return None;
        }
        items := items + [item.value];
      }
      ItemsDone(input, from, pos, items);
      if pos == |input| {
        return None;
      }
      pos := pos + 1;
      r := Some(ListItem(items, start, pos - start));
    }

    method ParseDict() returns (r: Option<Item>)
      requires 0 < pos <= |input|
      modifies this
      ensures match DecodePairs(input, old(pos))
        case None => r == None
        case Some((pairs, end)) =>
          r == Some(DictItem(InsertAll([], pairs), old(pos) - 1, end - (old(pos) - 1))) && pos == end
      decreases |input| - pos, 1
    {
      hide DecodePairs, DecodeItem, PairsSoFar, InsertAll, Insert;
      var start := pos - 1;
      ghost var from := pos;
      var dict: seq<Entry> := [];
      PairsStart(input, from);
      while pos < |input| && input[pos] != 'e'
        invariant from <= pos <= |input| && PairsSoFar(input, from, pos, dict)
        decreases |input| - pos
      {
        PairsStep(input, from, pos, dict);
        var key := Parse();
        if key == None || !key.value.StrItem? {
          return None;
        }
        var value := Parse();
        if value == None {
          return None;
        }
        dict := Insert(dict, Entry(key.value.text, value.value));
      }
      PairsDone(input, from, pos, dict);
      if pos == |input| {
        return None;
      }
      pos := pos + 1;
      r := Some(DictItem(dict, start, pos - start));
    }

    method Parse() returns (r: Option<Item>)
      requires pos <= |input|
      modifies this
      ensures Reads(old(pos), DecodeItem(input, old(pos)), r)
      decreases |input| - pos, 0
    {
      hide DecodeString, DecodeInt, DecodeItems, DecodePairs, InsertAll, Find;
      if pos == |input| {
        return None;
      }
      var c := input[pos];
      pos := pos + 1;
      match c
      case 'i' => r := ParseInt();
      case 'l' => r := ParseList();
      case 'd' => r := ParseDict();
      case _ =>
        if IsDigit(c) {
          pos := pos - 1;
          r := ParseString();
        } else {
          r := None;
        }
    }

    method BDecode() returns (r: Option<Item>)
      requires pos == 0
      modifies this
      ensures r == Decode(input)
    {
      r := Parse();
      if r.Some? && pos != |input| {
        r := None;
      }
    }
  }
}
