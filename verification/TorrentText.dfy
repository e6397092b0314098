/** Which texts are torrent files and what is read from them, stated on what the text says: values,
    with the names of the fields written out. */
module TorrentText {
  import opened Prelude
  import opened Files
  import opened Bencode
  import opened RoundTrip
  import opened Language
  import opened BencodeLaws
  import Md = Metadata

  /** The value of the first pair with that key. */
  function Get(ps: seq<Pair>, key: string): Option<Value> {
    if ps == [] then None else if ps[0].key == key then Some(ps[0].value) else Get(ps[1..], key)
  }

  predicate IsInt(v: Option<Value>) { v.Some? && v.value.VInt? }

  predicate IsStr(v: Option<Value>) { v.Some? && v.value.VStr? }

  predicate IsList(v: Option<Value>) { v.Some? && v.value.VList? }

  predicate IsDict(v: Option<Value>) { v.Some? && v.value.VDict? }

  predicate AllStr(vs: seq<Value>) {
    forall k :: 0 <= k < |vs| ==> vs[k].VStr?
  }

  predicate GoodFile(v: Value) {
    && v.VDict? && IsInt(Get(v.pairs, "length"))
    && IsList(Get(v.pairs, "path")) && AllStr(Get(v.pairs, "path").value.items)
  }

  predicate GoodFiles(v: Option<Value>) {
    IsList(v) && forall k :: 0 <= k < |v.value.items| ==> GoodFile(v.value.items[k])
  }

  predicate GoodInfo(ps: seq<Pair>) {
    && IsStr(Get(ps, "name")) && IsInt(Get(ps, "piece length")) && IsStr(Get(ps, "pieces"))
    && if Get(ps, "length").Some? then IsInt(Get(ps, "length")) else GoodFiles(Get(ps, "files"))
  }

  predicate GoodTorrent(ps: seq<Pair>) {
    IsStr(Get(ps, "announce")) && IsDict(Get(ps, "info")) && GoodInfo(Get(ps, "info").value.pairs)
  }

  // ----- items and what they say -------------------------------------------

  lemma {:induction false} GetIs(es: seq<Entry>, key: string)
    ensures var x := Md.Lookup(es, key);
      Get(StripEntries(es), key) == if x.Some? then Some(Strip(x.value)) else None
  {
    hide Strip;
    var ps := StripEntries(es);
    if es != [] {
      GetIs(es[1..], key);
      assert ps[1..] == StripEntries(es[1..]);
    }
  }

  lemma KindIs(x: Item)
    ensures (Strip(x).VInt? <==> x.IntItem?) && (Strip(x).VStr? <==> x.StrItem?)
    ensures (Strip(x).VList? <==> x.ListItem?) && (Strip(x).VDict? <==> x.DictItem?)
    ensures x.IntItem? ==> Strip(x).value == x.value
    ensures x.StrItem? ==> Strip(x).text == x.text
    ensures x.ListItem? ==> Strip(x).items == StripItems(x.items)
    ensures x.DictItem? ==> Strip(x).pairs == StripEntries(x.entries)
  {
  }

  /** A field of a decoded dictionary, by its name. */
  lemma FieldIs(es: seq<Entry>, key: string)
    ensures var v := Get(StripEntries(es), key);
      && (v.Some? <==> HasKey(es, key))
      && Md.IntField(es, key) == (if IsInt(v) then Some(v.value.value) else None)
      && Md.StringField(es, key) == (if IsStr(v) then Some(v.value.text) else None)
      && (Md.ListField(es, key).Some? <==> IsList(v)) && (Md.DictField(es, key).Some? <==> IsDict(v))
      && (IsList(v) ==> StripItems(Md.ListField(es, key).value) == v.value.items)
      && (IsDict(v) ==> StripEntries(Md.DictField(es, key).value) == v.value.pairs)
  {
    hide Get, Md.Lookup, Strip, StripItems, StripEntries;
    GetIs(es, key);
    var x := Md.Lookup(es, key);
    if x.Some? {
      KindIs(x.value);
    }
  }

  lemma TextsIs(xs: seq<Item>)
    ensures Md.Texts(xs).Some? <==> AllStr(StripItems(xs))
    ensures AllStr(StripItems(xs)) ==>
      |Md.Texts(xs).value| == |xs| && forall k :: 0 <= k < |xs| ==> Md.Texts(xs).value[k] == StripItems(xs)[k].text
  {
    hide Md.Texts, Strip;
    forall k | 0 <= k < |xs|
      ensures (StripItems(xs)[k].VStr? <==> xs[k].StrItem?) && (xs[k].StrItem? ==> StripItems(xs)[k].text == xs[k].text)
    {
      KindIs(xs[k]);
    }
  }

  lemma FileIs(x: Item)
    ensures Md.ValidFile(x) <==> GoodFile(Strip(x))
  {
    hide Get, Md.Lookup, Md.Texts, Strip, StripItems, StripEntries;
    KindIs(x);
    if x.DictItem? {
      FieldIs(x.entries, "length");
      FieldIs(x.entries, "path");
      if Md.ListField(x.entries, "path").Some? {
        TextsIs(Md.ListField(x.entries, "path").value);
      }
    }
  }

  lemma FilesAre(es: seq<Entry>)
    ensures Md.ValidFiles(es) <==> GoodFiles(Get(StripEntries(es), "files"))
  {
    hide Get, Md.Lookup, Strip, StripEntries, Md.ValidFile, GoodFile;
    FieldIs(es, "files");
    if Md.ListField(es, "files").Some? {
      var xs := Md.ListField(es, "files").value;
      forall k | 0 <= k < |xs| ensures Md.ValidFile(xs[k]) <==> GoodFile(StripItems(xs)[k]) {
        FileIs(xs[k]);
      }
    }
  }

  lemma InfoIs(es: seq<Entry>)
    ensures Md.ValidInfo(es) <==> GoodInfo(StripEntries(es))
  {
    hide Get, Md.Lookup, StripEntries, Md.ValidFiles, GoodFiles, HasKey;
    FieldIs(es, "name");
    FieldIs(es, "piece length");
    FieldIs(es, "pieces");
    FieldIs(es, "length");
    FilesAre(es);
  }

  lemma SaysDict(input: string, ps: seq<Pair>)
    ensures Says(input, VDict(ps)) <==>
      Decode(input).Some? && Decode(input).value.DictItem? && StripEntries(Decode(input).value.entries) == ps
  {
    hide Says, Decode, StripEntries;
    AcceptedIff(input, VDict(ps));
    if Decode(input).Some? {
      KindIs(Decode(input).value);
    }
  }

  // ----- torrent files -----------------------------------------------------

  /** A text is a torrent file if and only if it says a dictionary with a string "announce" and a
      dictionary "info" that has a string "name", an integer "piece length", a string "pieces", and
      an integer "length" or, without a "length", a list "files" of lengths and paths. */
  lemma TorrentIff(input: string)
    ensures Md.ValidTorrent(input) <==> exists ps :: Says(input, VDict(ps)) && GoodTorrent(ps)
  {
    hide Says, Decode, StripEntries, GoodInfo, Md.ValidInfo, Get, Md.Lookup;
    if Decode(input).Some? && Decode(input).value.DictItem? {
      var es := Decode(input).value.entries;
      FieldIs(es, "announce");
      FieldIs(es, "info");
      if Md.DictField(es, "info").Some? {
        InfoIs(Md.DictField(es, "info").value);
      }
      SaysDict(input, StripEntries(es));
    }
    if ps :| Says(input, VDict(ps)) && GoodTorrent(ps) {
      SaysDict(input, ps);
    }
  }

  function In64Bits(v: int): nat {
    v % 0x1_0000_0000_0000_0000
  }

  function SizeOf(v: Value): int
    requires GoodFile(v)
  {
    In64Bits(Get(v.pairs, "length").value.value)
  }

  function Components(v: Value): seq<Value>
    requires GoodFile(v)
  {
    Get(v.pairs, "path").value.items
  }

  /** The sum of the lengths of the first k files. */
  function LengthsBefore(vs: seq<Value>, k: nat): int
    requires k <= |vs| && forall j :: 0 <= j < |vs| ==> GoodFile(vs[j])
  {
    if k == 0 then 0 else LengthsBefore(vs, k - 1) + SizeOf(vs[k - 1])
  }

  /** Files and paths as the "files" list says: each starts at the 64-bit sum of the lengths before
      it, and its path is the torrent's name and then the components given. */
  ghost predicate SaysFiles(vs: seq<Value>, name: string, files: seq<FileInfo>, paths: seq<seq<string>>) {
    && (forall j :: 0 <= j < |vs| ==> GoodFile(vs[j])) && |files| == |paths| == |vs|
    && forall k :: 0 <= k < |vs| ==>
         && files[k].startOff == In64Bits(LengthsBefore(vs, k))
         && files[k].length == SizeOf(vs[k])
         && AllStr(Components(vs[k])) && PathIs(paths[k], name, Components(vs[k]))
  }

  ghost predicate PathIs(path: seq<string>, name: string, vs: seq<Value>)
    requires AllStr(vs)
  {
    |path| == |vs| + 1 && path[0] == name && forall j :: 0 <= j < |vs| ==> path[j + 1] == vs[j].text
  }

  /** What is read from the "info" dictionary. */
  ghost predicate SaysInfo(ps: seq<Pair>, i: Md.Info)
    requires GoodInfo(ps)
  {
    && i.name == Get(ps, "name").value.text && i.pieces == Get(ps, "pieces").value.text
    && i.pieceLength == In64Bits(Get(ps, "piece length").value.value)
    && if Get(ps, "length").Some?
       then i.files == [FileInfo(0, In64Bits(Get(ps, "length").value.value))] && i.paths == [[i.name]]
       else SaysFiles(Get(ps, "files").value.items, i.name, i.files, i.paths)
  }

  lemma FileFieldsAre(x: Item, name: string, file: FileInfo, path: seq<string>)
    requires Md.FileOf(x, name, file, path)
    ensures GoodFile(Strip(x)) && file.length == SizeOf(Strip(x))
    ensures AllStr(Components(Strip(x))) && PathIs(path, name, Components(Strip(x)))
  {
    hide Get, Md.Lookup, Md.Texts, Strip, StripItems, StripEntries;
    FileIs(x);
    KindIs(x);
    FieldIs(x.entries, "length");
    FieldIs(x.entries, "path");
    TextsIs(Md.ListField(x.entries, "path").value);
  }

  lemma {:induction false} SumIs(vs: seq<Value>, files: seq<FileInfo>, k: nat)
    requires k <= |files| == |vs| && forall j :: 0 <= j < |vs| ==> GoodFile(vs[j])
    requires forall j :: 0 <= j < |vs| ==> files[j].length == SizeOf(vs[j])
    ensures TotalLength(files[..k]) == LengthsBefore(vs, k)
  {
    hide Get, GoodFile, SizeOf;
    if k > 0 {
      SumIs(vs, files, k - 1);
      assert files[..k][..k - 1] == files[..k - 1];
    }
  }

  lemma FileListIs(xs: seq<Item>, name: string, files: seq<FileInfo>, paths: seq<seq<string>>)
    requires Md.FilesOf(xs, name, files, paths) && Md.Summed(files)
    ensures SaysFiles(StripItems(xs), name, files, paths)
  {
    hide Get, GoodFile, SizeOf, Components, Md.FileOf, Strip, PathIs, TotalLength, LengthsBefore;
    var vs := StripItems(xs);
    forall k | 0 <= k < |vs|
      ensures GoodFile(vs[k]) && files[k].length == SizeOf(vs[k])
      ensures AllStr(Components(vs[k])) && PathIs(paths[k], name, Components(vs[k]))
    {
      FileFieldsAre(xs[k], name, files[k], paths[k]);
    }
    forall k | 0 <= k < |vs| ensures files[k].startOff == In64Bits(LengthsBefore(vs, k)) {
      SumIs(vs, files, k);
    }
  }

  lemma InfoFieldsAre(es: seq<Entry>, i: Md.Info)
    requires Md.InfoOf(es, i)
    ensures GoodInfo(StripEntries(es)) && SaysInfo(StripEntries(es), i)
  {
    hide Get, Md.Lookup, StripEntries, Md.ValidFiles, GoodFiles, HasKey, SaysFiles, Md.FilesOf, Md.Summed, StripItems;
    InfoIs(es);
    FieldIs(es, "name");
    FieldIs(es, "piece length");
    FieldIs(es, "pieces");
    FieldIs(es, "length");
    FieldIs(es, "files");
    if !HasKey(es, "length") {
      ListedFiles(es, i);
    }
  }

  lemma ListedFiles(es: seq<Entry>, i: Md.Info)
    requires Md.InfoOf(es, i) && !HasKey(es, "length")
    ensures Md.ListField(es, "files").Some?
    ensures SaysFiles(StripItems(Md.ListField(es, "files").value), i.name, i.files, i.paths)
  {
    hide Md.Lookup, SaysFiles, Md.FilesOf, Md.Summed, StripItems;
    FileListIs(Md.ListField(es, "files").value, i.name, i.files, i.paths);
  }

  /** The groups of an announce list, if it is a list of lists of strings. */
  ghost predicate SaysGroups(v: Option<Value>, groups: seq<seq<string>>) {
    if IsList(v) && forall k :: 0 <= k < |v.value.items| ==> v.value.items[k].VList? && AllStr(v.value.items[k].items)
    then |groups| == |v.value.items| && forall k :: 0 <= k < |groups| ==> TextsAre(groups[k], v.value.items[k])
    else groups == []
  }

  ghost predicate TextsAre(texts: seq<string>, v: Value) {
    && v.VList? && AllStr(v.items) && |texts| == |v.items|
    && forall j :: 0 <= j < |texts| ==> texts[j] == v.items[j].text
  }

  lemma GroupsAre(es: seq<Entry>, list: seq<seq<string>>)
    requires Md.AnnounceListOf(es, list)
    ensures SaysGroups(Get(StripEntries(es), "announce-list"), list)
  {
    hide Get, Md.Lookup, Strip, StripEntries, Md.Texts, Md.Groups;
    FieldIs(es, "announce-list");
    if Md.ListField(es, "announce-list").Some? {
      var xs := Md.ListField(es, "announce-list").value;
      forall k | 0 <= k < |xs|
        ensures (xs[k].ListItem? && Md.Texts(xs[k].items).Some?)
           <==> (StripItems(xs)[k].VList? && AllStr(StripItems(xs)[k].items))
        ensures xs[k].ListItem? && Md.Texts(xs[k].items).Some? ==>
          TextsAre(Md.Texts(xs[k].items).value, StripItems(xs)[k])
      {
        KindIs(xs[k]);
        if xs[k].ListItem? {
          TextsIs(xs[k].items);
        }
      }
    }
  }

  /** What is read from a torrent file is what it says. */
  lemma TorrentSays<D>(input: string, digest: string -> D, t: Md.Torrent<D>, ps: seq<Pair>)
    requires Md.TorrentOf(input, digest, t) && Says(input, VDict(ps))
    ensures GoodTorrent(ps) && t.announce == Get(ps, "announce").value.text
    ensures SaysInfo(Get(ps, "info").value.pairs, t.info)
    ensures SaysGroups(Get(ps, "announce-list"), t.announceList)
  {
    hide Says, Decode, StripEntries, SaysInfo, Md.InfoOf, Get, Md.Lookup, Md.AnnounceListOf, SaysGroups, Md.HashOf;
    hide Md.ValidInfo, GoodInfo;
    SaysDict(input, ps);
    var es := Decode(input).value.entries;
    FieldIs(es, "announce");
    FieldIs(es, "info");
    InfoFieldsAre(Md.DictField(es, "info").value, t.info);
    GroupsAre(es, t.announceList);
  }

  /** The info-hash is the digest of a part of the file that says the "info" dictionary. */
  lemma HashIsOfInfo<D>(input: string, digest: string -> D, t: Md.Torrent<D>, ps: seq<Pair>)
    returns (i: nat, j: nat)
    requires Md.TorrentOf(input, digest, t) && Says(input, VDict(ps))
    ensures IsDict(Get(ps, "info")) && i <= j < |input|
    ensures t.infoHash == digest(input[i..j]) && Says(input[i..j], Get(ps, "info").value)
  {
    hide Says, StripEntries, Md.InfoOf, Get, Md.Lookup, Md.AnnounceListOf, DecodeItem, Strip, Shift;
    SaysDict(input, ps);
    var es := Decode(input).value.entries;
    FieldIs(es, "info");
    GetIs(es, "info");
    var x := Md.Lookup(es, "info").value;
    Md.FieldDecodesAlone(input, "info", x);
    i, j := x.start, x.start + x.len;
    StripOfShift(x, -x.start);
    AcceptedIff(input[i..j], Strip(x));
  }
}
