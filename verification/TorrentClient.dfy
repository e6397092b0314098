/** From a torrent file to the download engine: the constructor of the client narrows what was
    parsed, so not every torrent that is accepted can be started. */
module Client {
  import opened Prelude
  import opened Layout
  import opened Files
  import opened Engine
  import opened Manager
  import opened Bencode
  import opened RoundTrip
  import Md = Metadata

  /** A string of digests as bytes. */
  function Octets(s: string): (bs: seq<byte>)
    ensures |bs| == |s|
  {
    seq(|s|, k requires 0 <= k < |s| => s[k] as int % 256)
  }

  /** The piece length is narrowed to 32 bits, and the file lengths are added up in 64. */
  function ConfigOf(info: Md.Info, timeout: int, digest: seq<byte> -> seq<byte>): Config {
    Config(ToUint32(info.pieceLength), Md.ToSize(TotalLength(info.files)), Octets(info.pieces), timeout, digest)
  }

  /** The engine can be built on what was parsed, and the files are the ones it writes through. */
  ghost predicate Starts(info: Md.Info, timeout: int, digest: seq<byte> -> seq<byte>) {
    var cfg := ConfigOf(info, timeout, digest);
    cfg.Ok() && Contiguous(info.files) && TotalLength(info.files) == cfg.torrentSize
  }

  /** What a torrent must say for that: its piece length keeps a value from 1 to 2^30 in its low
      32 bits, and its files are no longer than the pieces that have a digest. */
  ghost predicate Startable(info: Md.Info) {
    var size := info.pieceLength % 0x1_0000_0000;
    && 1 <= size <= 0x4000_0000
    && TotalLength(info.files) < 0x1_0000_0000_0000_0000
    && TotalLength(info.files) <= |info.pieces| / 20 * size
  }

  /** So many pieces are enough for a total exactly if they hold it. */
  lemma EnoughPieces(total: nat, size: nat, digests: nat)
    requires size > 0
    ensures CeilDiv(total, size) * SHA1_SIZE <= digests <==> total <= digests / SHA1_SIZE * size
  {
    hide CeilDiv;
    var n, d := CeilDiv(total, size), digests / SHA1_SIZE;
    CeilDivBounds(total, size);
    assert n * SHA1_SIZE <= digests <==> n <= d;
    if n <= d {
      assert n * size <= d * size by {
        MulLe(n, d, size);
      }
    } else {
      assert d * size <= (n - 1) * size by {
        MulLe(d, n - 1, size);
      }
    }
  }

  lemma MulLe(a: nat, b: nat, c: nat)
    requires a <= b
    ensures a * c <= b * c
  {
  }

  /** A total below 2^64 makes the layout of any accepted file list contiguous. */
  lemma LayoutHolds(files: seq<FileInfo>)
    requires Md.Summed(files) && TotalLength(files) < TWO_TO_64
    ensures Contiguous(files)
  {
    hide TotalLength;
    if files != [] {
      PrefixLength(files, |files| - 1);
    }
    Md.ContiguousIffNoWrap(files);
  }

  /** The exact condition, for every torrent that is accepted: the engine starts on it if and
      only if it is startable. */
  lemma StartsIff<D>(input: string, infoDigest: string -> D, t: Md.Torrent<D>,
                     timeout: int, digest: seq<byte> -> seq<byte>)
    requires Md.TorrentOf(input, infoDigest, t)
    ensures Starts(t.info, timeout, digest) <==> Startable(t.info)
  {
    hide Md.Summed, Contiguous, TotalLength, CeilDiv, Md.TorrentOf;
    AcceptedParts(input, infoDigest, t);
    var info, cfg := t.info, ConfigOf(t.info, timeout, digest);
    if 1 <= cfg.pieceSize <= MAX_PIECE_SIZE && TotalLength(info.files) < TWO_TO_64 {
      EnoughPieces(TotalLength(info.files), cfg.pieceSize, |info.pieces|);
      LayoutHolds(info.files);
    }
  }

  /** An accepted torrent has a layout of running sums, and its digests are one string. */
  lemma AcceptedParts<D>(input: string, infoDigest: string -> D, t: Md.Torrent<D>)
    requires Md.TorrentOf(input, infoDigest, t)
    ensures Md.Summed(t.info.files) && |t.info.pieces| <= MAX_STRING_LEN
  {
    hide Md.Lookup, Strip, Encodable, Md.Summed, Md.FilesOf, DecodeItem;
    var whole := Decode(input).value;
    DecodedIsEncodable(input, 0);
    var info := Md.Lookup(whole.entries, "info").value;
    FieldIsEncodable(whole, "info", info);
    var pieces := Md.Lookup(info.entries, "pieces").value;
    FieldIsEncodable(info, "pieces", pieces);
    TextFits(pieces);
  }

  lemma FieldIsEncodable(dict: Item, key: string, x: Item)
    requires dict.DictItem? && Encodable(Strip(dict)) && Md.Lookup(dict.entries, key) == Some(x)
    ensures Encodable(Strip(x))
  {
    hide Md.Lookup;
    var k :| 0 <= k < |dict.entries| && dict.entries[k] == Entry(key, x);
    assert StripEntries(dict.entries)[k] == Pair(key, Strip(x));
  }

  lemma TextFits(x: Item)
    requires x.StrItem? && Encodable(Strip(x))
    ensures |x.text| <= MAX_STRING_LEN
  {
  }

  // ----- accepted, but not to be started -----------------------------------

  /** An "info" dictionary of one empty file with that piece length. */
  function InfoWithLength(n: int): (es: seq<Entry>) {
    [Entry("length", IntItem(0, 0, 0)), Entry("name", StrItem("", 0, 0)),
     Entry("piece length", IntItem(n, 0, 0)), Entry("pieces", StrItem("", 0, 0))]
  }

  /** Piece lengths that are multiples of 2^32, zero among them, are accepted; the engine would
      then divide by zero. */
  lemma ZeroPieceLength(n: int, info: Md.Info, timeout: int, digest: seq<byte> -> seq<byte>)
    requires 0 <= n <= INT_MAX && n % TWO_TO_32 == 0
    ensures Md.ValidInfo(InfoWithLength(n))
    ensures Md.InfoOf(InfoWithLength(n), info) ==>
      ConfigOf(info, timeout, digest).pieceSize == 0 && !Starts(info, timeout, digest)
  {
    FieldsOf(n);
  }

  lemma FieldsOf(n: int)
    ensures Md.StringField(InfoWithLength(n), "name") == Some("")
    ensures Md.IntField(InfoWithLength(n), "piece length") == Some(n)
    ensures Md.StringField(InfoWithLength(n), "pieces") == Some("")
    ensures Md.IntField(InfoWithLength(n), "length") == Some(0)
  {
    var es := InfoWithLength(n);
    var rest := es[1..];
    assert rest[0].key == "name" && rest[1..] == es[2..] && es[2..][1..] == es[3..];
    assert "length"[0] != "name"[0] && "length"[0] != "piece length"[0] && "length"[0] != "pieces"[0];
    assert "name"[0] != "piece length"[0] && "name"[0] != "pieces"[0];
    assert |"piece length"| != |"pieces"|;
    assert es[2..][0].key == "piece length" && es[3..][0].key == "pieces";
  }

  // ----- starting ----------------------------------------------------------

  /** The client's constructor, after the file has been parsed: a file manager on the layout and a
      piece manager in its initial state on top of it. */
  method NewManager(info: Md.Info, timeout: int, digest: seq<byte> -> seq<byte>) returns (pm: PieceManager)
    requires Starts(info, timeout, digest)
    ensures fresh(pm) && pm.Valid() && pm.cfg == ConfigOf(info, timeout, digest) && pm.cfg.Ok()
    ensures pm.Model() == Init(pm.cfg) && pm.fileManager.infos == info.files
    ensures pm.cfg.pieceSize == info.pieceLength % 0x1_0000_0000 && pm.cfg.torrentSize == TotalLength(info.files)
    ensures |pm.cfg.hashes| == |info.pieces|
    ensures forall k :: 0 <= k < |info.pieces| ==> pm.cfg.hashes[k] as int == info.pieces[k] as int % 256
    ensures pm.cfg.timeout == timeout && pm.cfg.digest == digest
  {
    hide TotalLength, Contiguous, FileManager.Flat, FileManager.Valid;
    var files := new FileManager(info.files);
    pm := new PieceManager(ConfigOf(info, timeout, digest), files);
  }
}
