/** Reading a torrent file: the file layout in the torrent's address space, and the bytes
    whose digest identifies the torrent. */
module Metadata {
  import opened Prelude
  import opened Files
  import opened Bencode
  import opened BencodeLaws
  import opened RoundTrip

  /** A path is the list of its components. */
  datatype Info = Info(
    name: string,
    pieceLength: nat,
    files: seq<FileInfo>,
    paths: seq<seq<string>>,
    pieces: string)

  datatype Torrent<D> = Torrent(announce: string, announceList: seq<seq<string>>, info: Info, infoHash: D)

  /** Conversion of a signed 64-bit integer to an unsigned one. */
  function ToSize(v: int): (r: nat)
    ensures r < TWO_TO_64 && (0 <= v < TWO_TO_64 ==> r == v)
  {
    v % 0x1_0000_0000_0000_0000
  }

  lemma ToSizeAdd(a: int, b: int)
    ensures ToSize(ToSize(a) + b) == ToSize(a + b)
  {
  }

  // ----- fields of a dictionary --------------------------------------------

  function Lookup(es: seq<Entry>, key: string): (r: Option<Item>)
    ensures r.Some? <==> HasKey(es, key)
    ensures r.Some? ==> exists k :: 0 <= k < |es| && es[k] == Entry(key, r.value)
  {
    if es == [] then None
    else if es[0].key == key then Some(es[0].value)
    else Lookup(es[1..], key)
  }

  function StringField(es: seq<Entry>, key: string): Option<string> {
    var x := Lookup(es, key);
    if x.Some? && x.value.StrItem? then Some(x.value.text) else None
  }

  function IntField(es: seq<Entry>, key: string): Option<int> {
    var x := Lookup(es, key);
    if x.Some? && x.value.IntItem? then Some(x.value.value) else None
  }

  function ListField(es: seq<Entry>, key: string): Option<seq<Item>> {
    var x := Lookup(es, key);
    if x.Some? && x.value.ListItem? then Some(x.value.items) else None
  }

  function DictField(es: seq<Entry>, key: string): Option<seq<Entry>> {
    var x := Lookup(es, key);
    if x.Some? && x.value.DictItem? then Some(x.value.entries) else None
  }

  lemma {:induction false} LookupDistinct(es: seq<Entry>, k: nat)
    requires k < |es| && DistinctEntries(es)
    ensures Lookup(es, es[k].key) == Some(es[k].value)
  {
    if k > 0 {
      assert es[0].key != es[k].key;
      LookupDistinct(es[1..], k - 1);
    }
  }

  lemma {:induction false} LookupJoin(es: seq<Entry>, more: seq<Entry>, key: string)
    ensures Lookup(es + more, key) == if HasKey(es, key) then Lookup(es, key) else Lookup(more, key)
  {
    if es == [] {
      assert es + more == more;
    } else {
      assert (es + more)[1..] == es[1..] + more;
      LookupJoin(es[1..], more, key);
      assert HasKey(es, key) <==> Lookup(es, key).Some?;
      assert HasKey(es[1..], key) <==> Lookup(es[1..], key).Some?;
    }
  }

  /** A field of a dictionary that repeats a key is the first value given for it. */
  lemma {:induction false} FirstValueStays(dict: seq<Entry>, more: seq<Entry>, key: string)
    ensures Lookup(InsertAll(dict, more), key) == Lookup(dict + more, key)
    decreases |more|
  {
    hide Lookup;
    if more == [] {
      assert dict + more == dict;
    } else {
      var e, next := more[0], Insert(dict, more[0]);
      FirstValueStays(next, more[1..], key);
      LookupJoin(next, more[1..], key);
      LookupJoin(dict, more, key);
      InsertLooksUp(dict, e, key);
      LookupJoin([e], more[1..], key);
      assert [e] + more[1..] == more;
    }
  }

  lemma InsertLooksUp(dict: seq<Entry>, e: Entry, key: string)
    ensures Lookup(Insert(dict, e), key) == if HasKey(dict, key) then Lookup(dict, key) else Lookup([e], key)
  {
    LookupJoin(dict, [e], key);
  }

  /** The texts of a list of strings; None if an element is not a string. */
  function Texts(xs: seq<Item>): (r: Option<seq<string>>)
    ensures r.Some? <==> forall k :: 0 <= k < |xs| ==> xs[k].StrItem?
    ensures r.Some? ==> |r.value| == |xs| && forall k :: 0 <= k < |xs| ==> xs[k].text == r.value[k]
  {
    if xs == [] then Some([])
    else
      var rest := Texts(xs[..|xs| - 1]);
      var x := xs[|xs| - 1];
      if rest.Some? && x.StrItem? then Some(rest.value + [x.text]) else None
  }

  ghost predicate ValidFileEntry(es: seq<Entry>) {
    && IntField(es, "length").Some?
    && ListField(es, "path").Some?
    && Texts(ListField(es, "path").value).Some?
  }

  ghost predicate ValidFile(x: Item) {
    x.DictItem? && ValidFileEntry(x.entries)
  }

  /** What a readable "info" dictionary must hold; "length" is looked at before "files". */
  ghost predicate ValidInfo(es: seq<Entry>) {
    && StringField(es, "name").Some?
    && IntField(es, "piece length").Some?
    && StringField(es, "pieces").Some?
    && if HasKey(es, "length") then IntField(es, "length").Some? else ValidFiles(es)
  }

  ghost predicate ValidFiles(es: seq<Entry>) {
    && ListField(es, "files").Some?
    && forall k :: 0 <= k < |ListField(es, "files").value| ==> ValidFile(ListField(es, "files").value[k])
  }

  // ----- the layout --------------------------------------------------------

  /** Each file starts at the sum of the lengths before it, as a 64-bit unsigned number. */
  ghost predicate Summed(files: seq<FileInfo>) {
    forall k :: 0 <= k < |files| ==>
      files[k].startOff == ToSize(TotalLength(files[..k])) && files[k].length < TWO_TO_64
  }

  ghost predicate FileOf(x: Item, name: string, file: FileInfo, path: seq<string>) {
    && ValidFile(x)
    && path != [] && path[0] == name
    && FileEntryOf(x.entries, file.length, path[1..])
  }

  ghost predicate FileEntryOf(es: seq<Entry>, length: nat, path: seq<string>) {
    && ValidFileEntry(es)
    && length == ToSize(IntField(es, "length").value)
    && path == Texts(ListField(es, "path").value).value
  }

  ghost predicate FilesOf(xs: seq<Item>, name: string, files: seq<FileInfo>, paths: seq<seq<string>>) {
    && |files| == |paths| == |xs|
    && forall k :: 0 <= k < |xs| ==> FileOf(xs[k], name, files[k], paths[k])
  }

  ghost predicate InfoOf(es: seq<Entry>, i: Info) {
    && ValidInfo(es)
    && i.name == StringField(es, "name").value
    && i.pieceLength == ToSize(IntField(es, "piece length").value)
    && i.pieces == StringField(es, "pieces").value
    && Summed(i.files)
    && if HasKey(es, "length") then
         i.files == [FileInfo(0, ToSize(IntField(es, "length").value))] && i.paths == [[i.name]]
       else
         FilesOf(ListField(es, "files").value, i.name, i.files, i.paths)
  }

  method ParseFileEntry(es: seq<Entry>) returns (r: Option<(nat, seq<string>)>)
    ensures r.Some? <==> ValidFileEntry(es)
    ensures r.Some? ==> FileEntryOf(es, r.value.0, r.value.1)
  {
    var length := IntField(es, "length");
    var list := ListField(es, "path");
    if length == None || list == None {
      return None;
    }
    var path: seq<string> := [];
    for i := 0 to |list.value|
      invariant Texts(list.value[..i]) == Some(path)
    {
      assert list.value[..i + 1][..i] == list.value[..i];
      if !list.value[i].StrItem? {
        return None;
      }
      path := path + [list.value[i].text];
    }
    assert list.value[..|list.value|] == list.value;
    r := Some((ToSize(length.value), path));
  }

  method ParseFiles(xs: seq<Item>, name: string) returns (r: Option<(seq<FileInfo>, seq<seq<string>>)>)
    ensures r.Some? <==> forall k :: 0 <= k < |xs| ==> ValidFile(xs[k])
    ensures r.Some? ==> FilesOf(xs, name, r.value.0, r.value.1) && Summed(r.value.0)
  {
    hide ValidFileEntry, FileEntryOf, FileOf, Summed, TotalLength;
    NoFiles();
    var files: seq<FileInfo>, paths: seq<seq<string>> := [], [];
    var curOffset: nat := 0;
    for i := 0 to |xs|
      invariant FilesOf(xs[..i], name, files, paths) && Summed(files)
      invariant forall k :: 0 <= k < i ==> ValidFile(xs[k])
      invariant curOffset == ToSize(TotalLength(files))
    {
      if !xs[i].DictItem? {
        return None;
      }
      var entry := ParseFileEntry(xs[i].entries);
      if entry == None {
        return None;
      }
      var (length, path) := entry.value;
      IsFileOf(xs[i], name, FileInfo(curOffset, length), [name] + path);
      SummedSnoc(files, FileInfo(curOffset, length));
      files := files + [FileInfo(curOffset, length)];
      paths := paths + [[name] + path];
      curOffset := ToSize(curOffset + length);
    }
    r := Some((files, paths));
  }

  lemma NoFiles()
    ensures Summed([]) && TotalLength([]) == 0
  {
  }

  lemma IsFileOf(x: Item, name: string, file: FileInfo, path: seq<string>)
    requires x.DictItem? && path != [] && path[0] == name && FileEntryOf(x.entries, file.length, path[1..])
    ensures FileOf(x, name, file, path) && file.length < TWO_TO_64
  {
  }

  lemma OneMore(files: seq<FileInfo>, file: FileInfo)
    ensures TotalLength(files + [file]) == TotalLength(files) + file.length
  {
    assert (files + [file])[..|files|] == files;
  }

  lemma SummedSnoc(files: seq<FileInfo>, file: FileInfo)
    requires Summed(files) && file.startOff == ToSize(TotalLength(files)) && file.length < TWO_TO_64
    ensures Summed(files + [file])
    ensures ToSize(TotalLength(files + [file])) == ToSize(file.startOff + file.length)
  {
    hide ToSize, TotalLength;
    var all := files + [file];
    OneMore(files, file);
    ToSizeAdd(TotalLength(files), file.length);
    forall k | 0 <= k < |all|
      ensures all[k].startOff == ToSize(TotalLength(all[..k])) && all[k].length < TWO_TO_64
    {
      assert all[..k] == if k < |files| then files[..k] else files;
    }
  }

  method ParseInfo(es: seq<Entry>) returns (r: Option<Info>)
    ensures r.Some? <==> ValidInfo(es)
    ensures r.Some? ==> InfoOf(es, r.value)
  {
    hide Lookup;
    var name, pieceLength, pieces := StringField(es, "name"), IntField(es, "piece length"), StringField(es, "pieces");
    if name == None || pieceLength == None || pieces == None {
      return None;
    }
    var files: seq<FileInfo>, paths: seq<seq<string>>;
    if Lookup(es, "length").Some? {
      var length := IntField(es, "length");
      if length == None {
        return None;
      }
      files, paths := [FileInfo(0, ToSize(length.value))], [[name.value]];
    } else {
      var list := ListField(es, "files");
      if list == None {
        return None;
      }
      var parsed := ParseFiles(list.value, name.value);
      if parsed == None {
        return None;
      }
      files, paths := parsed.value.0, parsed.value.1;
    }
    r := Some(Info(name.value, ToSize(pieceLength.value), files, paths, pieces.value));
  }

  /** The layout that the file writer needs is what was parsed exactly when the offsets of
      the files do not wrap: everything before the last file ends below 2^64. */
  lemma ContiguousIffNoWrap(files: seq<FileInfo>)
    requires Summed(files)
    ensures Contiguous(files) <==> files == [] || TotalLength(files[..|files| - 1]) < TWO_TO_64
  {
    hide ToSize, TotalLength;
    if files != [] {
      if Contiguous(files) {
        FileRange(files, |files| - 1);
      }
      if TotalLength(files[..|files| - 1]) < TWO_TO_64 {
        SummedIsContiguous(files);
      }
    }
  }

  lemma SummedIsContiguous(files: seq<FileInfo>)
    requires Summed(files) && files != [] && TotalLength(files[..|files| - 1]) < TWO_TO_64
    ensures Contiguous(files)
  {
    hide ToSize;
    var before := files[..|files| - 1];
    forall k | 0 <= k < |files| ensures StartsAtEnd(files, k) {
      assert files[..k] == before[..k];
      PrefixLength(before, k);
      if k > 0 {
        assert files[..k][..k - 1] == files[..k - 1] == before[..k - 1];
        PrefixLength(before, k - 1);
      }
    }
  }

  /** A file entry of that length with an empty path. */
  function FileOfLength(n: int): Item {
    DictItem([Entry("length", IntItem(n, 0, 0)), Entry("path", ListItem([], 0, 0))], 0, 0)
  }

  lemma LengthIsRead(n: int)
    ensures ValidFile(FileOfLength(n)) && IntField(FileOfLength(n).entries, "length") == Some(n)
  {
    var es := FileOfLength(n).entries;
    assert es[0].key == "length" && es[1..][0].key == "path";
    assert "path"[0] != "length"[0];
  }

  lemma SumsWrap(files: seq<FileInfo>)
    requires |files| == 3 && Summed(files)
    requires files[0].length == TWO_TO_64 - 1 && files[1].length == 1
    ensures files[2].startOff == 0 && !Contiguous(files)
  {
    assert files[..2][..1] == files[..1] && files[..1][..0] == [];
    assert TotalLength(files[..1]) == files[0].length;
    assert TotalLength(files[..2]) == TWO_TO_64;
    ContiguousIffNoWrap(files);
  }

  /** A list that is accepted and whose layout is not contiguous: the lengths -1, 1 and 1. */
  lemma WrappingLayout(name: string, files: seq<FileInfo>, paths: seq<seq<string>>)
    requires FilesOf([FileOfLength(-1), FileOfLength(1), FileOfLength(1)], name, files, paths) && Summed(files)
    ensures forall x :: x in [FileOfLength(-1), FileOfLength(1), FileOfLength(1)] ==> ValidFile(x)
    ensures files[2].startOff == 0 && !Contiguous(files)
  {
    hide ValidFileEntry, Lookup, Summed, Contiguous;
    var xs := [FileOfLength(-1), FileOfLength(1), FileOfLength(1)];
    LengthIsRead(-1);
    LengthIsRead(1);
    assert FileOf(xs[0], name, files[0], paths[0]) && FileOf(xs[1], name, files[1], paths[1]);
    SumsWrap(files);
  }

  // ----- the info-hash -----------------------------------------------------

  /** Position k of a dictionary read from the input spans exactly its own encoding. */
  ghost predicate Exact(input: string, x: Item, v: Value) {
    0 <= x.start && x.start + x.len <= |input| && Bytes(input, x) == Encode(v)
  }

  /** The first of the pairs is read with its own span, and the others where it ends. */
  lemma FirstPairExact(a: string, i: nat, ps: seq<Pair>)
    requires ps != [] && |ps[0].key| <= MAX_STRING_LEN && Encodable(ps[0].value)
    requires Agree(EncodePairs(ps), 0, |EncodePairs(ps)|, a, i) && DecodePairs(a, i).Some?
    ensures var n := i + |EncodeString(ps[0].key)| + |Encode(ps[0].value)|;
      var es := DecodePairs(a, i).value.0;
      && Agree(EncodePairs(ps[1..]), 0, |EncodePairs(ps[1..])|, a, n) && DecodePairs(a, n).Some?
      && es != [] && es[0].key == ps[0].key && Exact(a, es[0].value, ps[0].value)
      && es[1..] == DecodePairs(a, n).value.0
  {
    hide DecodeItem, DecodeItems, DecodePairs, Encode, EncodePairs, EncodeString;
    hide Encodable, Strip, Agree, ReadsAs, Exact;
    var s := EncodePairs(ps);
    var p, q, r := EncodeString(ps[0].key), Encode(ps[0].value), EncodePairs(ps[1..]);
    PairsParts(ps);
    AgreeVia(p, s, 0, a, i);
    AgreeVia(q, s, |p|, a, i);
    AgreeVia(r, s, |p| + |q|, a, i);
    KeyReads(ps[0].key, a, i);
    Trip(ps[0].value);
    ReadsWhereverItStands(a, i + |p|, q, ps[0].value);
    SpanIsExact(a, i + |p|);
    ExactWhereItAgrees(a, DecodeItem(a, i + |p|).value.0, ps[0].value);
    PairsUnfold(a, i);
  }

  /** Where the pairs of an encoded dictionary are read, every value's span is its encoding. */
  lemma {:induction false} PairsExact(a: string, i: nat, ps: seq<Pair>)
    requires forall k :: 0 <= k < |ps| ==> |ps[k].key| <= MAX_STRING_LEN && Encodable(ps[k].value)
    requires Agree(EncodePairs(ps), 0, |EncodePairs(ps)|, a, i)
    ensures DecodePairs(a, i).Some? && |DecodePairs(a, i).value.0| == |ps|
    ensures forall k :: 0 <= k < |ps| ==>
      DecodePairs(a, i).value.0[k].key == ps[k].key && Exact(a, DecodePairs(a, i).value.0[k].value, ps[k].value)
    decreases |ps|
  {
    hide DecodeItem, DecodeItems, DecodePairs, Encode, EncodePairs, EncodeString;
    hide Encodable, Strip, Agree, ReadsAs, Exact;
    PairsTrip(ps);
    PairsRelocate(EncodePairs(ps), 0, a, i);
    if ps != [] {
      FirstPairExact(a, i, ps);
      PairsExact(a, i + |EncodeString(ps[0].key)| + |Encode(ps[0].value)|, ps[1..]);
    }
  }

  lemma AgreeVia(p: string, s: string, at: nat, a: string, i: nat)
    requires Agree(p, 0, |p|, s, at) && Agree(s, 0, |s|, a, i)
    ensures Agree(p, 0, |p|, a, i + at)
  {
    forall k | 0 <= k < |p| ensures p[k] == a[k + (i + at)] {
      assert p[k] == s[k + at] == a[k + at + i];
    }
  }

  lemma ExactWhereItAgrees(a: string, x: Item, v: Value)
    requires x.start >= 0 && x.len == |Encode(v)| && Agree(Encode(v), 0, |Encode(v)|, a, x.start)
    ensures Exact(a, x, v)
  {
    hide Encode;
    var s := Encode(v);
    forall k | 0 <= k < |s| ensures Bytes(a, x)[k] == s[k] {
      assert s[k] == a[k + x.start];
    }
  }

  lemma PairsUnfold(a: string, i: nat)
    requires i < |a| && a[i] != 'e'
    requires DecodePairs(a, i).Some?
    ensures DecodeItem(a, i).Some? && DecodeItem(a, i).value.0.StrItem?
    ensures DecodeItem(a, DecodeItem(a, i).value.1).Some?
    ensures var (key, mid) := DecodeItem(a, i).value;
      var (x, next) := DecodeItem(a, mid).value;
      DecodePairs(a, next).Some? && DecodePairs(a, i).value.0 == [Entry(key.text, x)] + DecodePairs(a, next).value.0
  {
    hide DecodeItem;
  }

  ghost predicate ValidTorrent(input: string) {
    && Decode(input).Some? && Decode(input).value.DictItem?
    && StringField(Decode(input).value.entries, "announce").Some?
    && DictField(Decode(input).value.entries, "info").Some?
    && ValidInfo(DictField(Decode(input).value.entries, "info").value)
  }

  /** The input is a dictionary whose field of that name is x. */
  ghost predicate Field(input: string, key: string, x: Item) {
    && Decode(input).Some? && Decode(input).value.DictItem?
    && Lookup(Decode(input).value.entries, key) == Some(x)
  }

  lemma WholeSpan(input: string, key: string, x: Item)
    requires Field(input, key, x)
    ensures Decode(input).Some? && DecodedAt(input, Decode(input).value)
    ensures Decode(input).value.start == 0 && Decode(input).value.len == |input|
  {
    SpanIsExact(input, 0);
  }

  lemma FieldIsChild(input: string, key: string, x: Item)
    requires Field(input, key, x)
    ensures Decode(input).Some? && x in Children(Decode(input).value)
  {
    hide Decode, Lookup, HasKey;
    var whole := Decode(input).value;
    var k :| 0 <= k < |whole.entries| && whole.entries[k] == Entry(key, x);
    assert Children(whole)[k] == x;
  }

  /** In any readable dictionary, the span of a field lies in the input, and its bytes
      decoded alone give that field with offsets counted from its own start. */
  lemma FieldDecodesAlone(input: string, key: string, x: Item)
    requires Field(input, key, x)
    ensures 0 <= x.start && x.start + x.len < |input|
    ensures Decode(Bytes(input, x)) == Some(Shift(x, -x.start))
  {
    hide *;
    WholeSpan(input, key, x);
    FieldIsChild(input, key, x);
    var whole := Decode(input).value;
    var k :| 0 <= k < |Children(whole)| && Children(whole)[k] == x;
    ChildDecodesAlone(input, whole, k);
  }

  /** In a file that encodes a dictionary, the digested bytes are exactly the encoding of
      the field: nothing before it, nothing after it, no other field. */
  lemma FieldBytesAreItsEncoding(ps: seq<Pair>, k: nat)
    requires Encodable(VDict(ps)) && k < |ps|
    ensures var input := Encode(VDict(ps));
      && Decode(input).Some? && Decode(input).value.DictItem?
      && HasKey(Decode(input).value.entries, ps[k].key)
      && Exact(input, Lookup(Decode(input).value.entries, ps[k].key).value, ps[k].value)
  {
    var s, input := EncodePairs(ps), Encode(VDict(ps));
    Trip(VDict(ps));
    Parts("d", s, "");
    assert input == "d" + s + "";
    PairsExact(input, 1, ps);
    hide Decode, DecodePairs, Encode, EncodePairs, Encodable, Exact, InsertAll;
    var pairs := DecodePairs(input, 1).value.0;
    WholeDict(input);
    DistinctInsertAll([], pairs);
    assert [] + pairs == pairs;
    LookupDistinct(pairs, k);
  }

  lemma WholeDict(input: string)
    requires Decode(input).Some? && input[0] == 'd'
    ensures DecodePairs(input, 1).Some?
    ensures Decode(input).value.DictItem? && Decode(input).value.entries == InsertAll([], DecodePairs(input, 1).value.0)
  {
  }

  /** The groups of an announce list; None if one of them is not a list of strings. */
  function Groups(xs: seq<Item>): (r: Option<seq<seq<string>>>)
    ensures r.Some? <==> forall k :: 0 <= k < |xs| ==> xs[k].ListItem? && Texts(xs[k].items).Some?
    ensures r.Some? ==> |r.value| == |xs| && forall k :: 0 <= k < |xs| ==> Texts(xs[k].items) == Some(r.value[k])
  {
    if xs == [] then Some([])
    else
      var rest := Groups(xs[..|xs| - 1]);
      var x := xs[|xs| - 1];
      if rest.Some? && x.ListItem? && Texts(x.items).Some? then Some(rest.value + [Texts(x.items).value]) else None
  }

  /** Announce lists are optional: a missing or malformed one counts as empty. */
  ghost predicate AnnounceListOf(es: seq<Entry>, list: seq<seq<string>>) {
    if ListField(es, "announce-list").Some? && Groups(ListField(es, "announce-list").value).Some?
    then list == Groups(ListField(es, "announce-list").value).value
    else list == []
  }

  method ParseAnnounceList(es: seq<Entry>) returns (list: seq<seq<string>>)
    ensures AnnounceListOf(es, list)
  {
    var groups := ListField(es, "announce-list");
    if groups == None {
      return [];
    }
    list := [];
    var xs := groups.value;
    for i := 0 to |xs|
      invariant Groups(xs[..i]) == Some(list)
    {
      assert xs[..i + 1][..i] == xs[..i] && xs[..i + 1][i] == xs[i];
      if !xs[i].ListItem? || Texts(xs[i].items) == None {
        return [];
      }
      list := list + [Texts(xs[i].items).value];
    }
    assert xs[..|xs|] == xs;
  }

  /** The torrent described by a readable file; the digest is taken over the bytes of the
      "info" field as they stand in the file. */
  method ParseTorrentFile<D>(input: string, digest: string -> D) returns (r: Option<Torrent<D>>)
    ensures r.Some? <==> ValidTorrent(input)
    ensures r.Some? ==> TorrentOf(input, digest, r.value)
  {
    hide Decode, Lookup, ValidInfo, InfoOf, Shift, AnnounceListOf;
    var stream := new Stream(input);
    var torrent := stream.BDecode();
    if torrent == None || !torrent.value.DictItem? {
      return None;
    }
    var es := torrent.value.entries;
    var announce := StringField(es, "announce");
    var infoEntries := DictField(es, "info");
    if announce == None || infoEntries == None {
      return None;
    }
    var info := ParseInfo(infoEntries.value);
    if info == None {
      return None;
    }
    var item := Lookup(es, "info").value;
    FieldDecodesAlone(input, "info", item);
    var hash := GetInfoHash(input, item, digest);
    var announceList := ParseAnnounceList(es);
    r := Some(Torrent(announce.value, announceList, info.value, hash));
  }

  method GetInfoHash<D>(input: string, item: Item, digest: string -> D) returns (hash: D)
    requires 0 <= item.start && item.start + item.len <= |input|
    ensures hash == digest(Bytes(input, item))
  {
    var buffer := input[item.start..];
    assert buffer[..item.len] == Bytes(input, item);
    hash := digest(buffer[..item.len]);
  }

  ghost predicate TorrentOf<D>(input: string, digest: string -> D, t: Torrent<D>) {
    && ValidTorrent(input)
    && StringField(Decode(input).value.entries, "announce") == Some(t.announce)
    && AnnounceListOf(Decode(input).value.entries, t.announceList)
    && InfoOf(DictField(Decode(input).value.entries, "info").value, t.info)
    && HashOf(input, Lookup(Decode(input).value.entries, "info").value, digest, t.infoHash)
  }

  ghost predicate HashOf<D>(input: string, x: Item, digest: string -> D, hash: D) {
    && 0 <= x.start && x.start + x.len <= |input|
    && hash == digest(Bytes(input, x))
  }
}
