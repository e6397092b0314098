/** The output files of a torrent, written through one flat address space. */
module Files {
  import opened Prelude

  datatype FileInfo = FileInfo(startOff: nat, length: nat)

  ghost predicate StartsAtEnd(infos: seq<FileInfo>, k: nat)
    requires k < |infos|
  {
    infos[k].startOff == if k == 0 then 0 else infos[k - 1].startOff + infos[k - 1].length
  }

  /** Each file starts where the previous one ends, the first one at 0. */
  ghost predicate Contiguous(infos: seq<FileInfo>) {
    forall k :: 0 <= k < |infos| ==> StartsAtEnd(infos, k)
  }

  function TotalLength(infos: seq<FileInfo>): nat {
    if infos == [] then 0 else TotalLength(infos[..|infos| - 1]) + infos[|infos| - 1].length
  }

  /** All files one after the other. */
  ghost function Concat(cs: seq<seq<byte>>): seq<byte> {
    if cs == [] then [] else Concat(cs[..|cs| - 1]) + cs[|cs| - 1]
  }

  ghost predicate Fits(cs: seq<seq<byte>>, infos: seq<FileInfo>) {
    |cs| == |infos| && forall k :: 0 <= k < |cs| ==> |cs[k]| == infos[k].length
  }

  /** In a contiguous layout, file k occupies [start_k, start_k + length_k) of the whole. */
  lemma {:induction false} FileRange(infos: seq<FileInfo>, k: nat)
    requires Contiguous(infos) && k < |infos|
    ensures infos[k].startOff == TotalLength(infos[..k])
    ensures infos[k].startOff + infos[k].length == TotalLength(infos[..k + 1])
    ensures infos[k].startOff + infos[k].length <= TotalLength(infos)
  {
    assert StartsAtEnd(infos, k);
    if k == 0 {
      assert infos[..0] == [];
    } else {
      FileRange(infos, k - 1);
    }
    assert infos[..k + 1][..k] == infos[..k];
    PrefixLength(infos, k + 1);
  }

  lemma PrefixContiguous(infos: seq<FileInfo>, n: nat)
    requires Contiguous(infos) && n <= |infos|
    ensures Contiguous(infos[..n])
  {
    forall k | 0 <= k < n ensures StartsAtEnd(infos[..n], k) {
      assert StartsAtEnd(infos, k);
    }
  }

  lemma {:induction false} PrefixLength(infos: seq<FileInfo>, k: nat)
    requires k <= |infos|
    ensures TotalLength(infos[..k]) <= TotalLength(infos)
    decreases |infos|
  {
    if k == |infos| {
      assert infos[..k] == infos;
    } else {
      PrefixLength(infos[..|infos| - 1], k);
      assert infos[..|infos| - 1][..k] == infos[..k];
    }
  }

  lemma {:induction false} ConcatLength(cs: seq<seq<byte>>, infos: seq<FileInfo>)
    requires Fits(cs, infos)
    ensures |Concat(cs)| == TotalLength(infos)
  {
    if cs != [] {
      ConcatLength(cs[..|cs| - 1], infos[..|infos| - 1]);
    }
  }

  /** Overwriting part of one file overwrites the same bytes of the whole. */
  lemma {:induction false} ConcatUpdate(cs: seq<seq<byte>>, infos: seq<FileInfo>, k: nat, at: nat, d: seq<byte>)
    requires Fits(cs, infos) && Contiguous(infos) && k < |cs| && at + |d| <= |cs[k]|
    ensures infos[k].startOff + at + |d| <= |Concat(cs)|
    ensures Concat(cs[k := Splice(cs[k], at, d)]) == Splice(Concat(cs), infos[k].startOff + at, d)
  {
    var n := |cs| - 1;
    var cs' := cs[k := Splice(cs[k], at, d)];
    ConcatLength(cs[..n], infos[..n]);
    FileRange(infos, k);
    if k < n {
      PrefixContiguous(infos, n);
      ConcatUpdate(cs[..n], infos[..n], k, at, d);
      assert cs'[..n] == cs[..n][k := Splice(cs[k], at, d)];
      SpliceLeft(Concat(cs[..n]), cs[n], infos[k].startOff + at, d);
    } else {
      assert cs'[..n] == cs[..n];
      SpliceRight(Concat(cs[..n]), cs[n], at, d);
    }
  }

  /** Byte x of file k is the byte at that distance from its start in the whole. */
  lemma {:induction false} ConcatAt(cs: seq<seq<byte>>, infos: seq<FileInfo>, k: nat, x: nat)
    requires Fits(cs, infos) && Contiguous(infos) && k < |cs| && x < |cs[k]|
    ensures infos[k].startOff + x < |Concat(cs)| && Concat(cs)[infos[k].startOff + x] == cs[k][x]
  {
    var n := |cs| - 1;
    ConcatLength(cs, infos);
    ConcatLength(cs[..n], infos[..n]);
    FileRange(infos, k);
    if k < n {
      PrefixContiguous(infos, n);
      ConcatAt(cs[..n], infos[..n], k, x);
    }
  }

  /** In every file exactly the bytes in the range of the write are those of the data. */
  ghost predicate BytesWritten(before: seq<seq<byte>>, after: seq<seq<byte>>, infos: seq<FileInfo>,
                               data: seq<byte>, offset: nat) {
    && |before| == |after| == |infos|
    && forall k :: 0 <= k < |after| ==> FileWritten(before[k], after[k], infos[k].startOff, data, offset)
  }

  ghost predicate FileWritten(before: seq<byte>, after: seq<byte>, start: int, data: seq<byte>, offset: int) {
    && |after| == |before|
    && forall x :: 0 <= x < |after| ==>
         after[x] == if offset <= start + x < offset + |data| then data[start + x - offset] else before[x]
  }

  lemma SplicedFiles(before: seq<seq<byte>>, after: seq<seq<byte>>, infos: seq<FileInfo>,
                     data: seq<byte>, offset: nat)
    requires Fits(before, infos) && Fits(after, infos) && Contiguous(infos)
    requires offset + |data| <= |Concat(before)| && Concat(after) == Splice(Concat(before), offset, data)
    ensures BytesWritten(before, after, infos, data, offset)
  {
    hide Concat, Contiguous;
    forall k, x | 0 <= k < |after| && 0 <= x < |after[k]|
      ensures var at := infos[k].startOff + x;
        after[k][x] == if offset <= at < offset + |data| then data[at - offset] else before[k][x]
    {
      ConcatAt(before, infos, k, x);
      ConcatAt(after, infos, k, x);
    }
  }

  /** An output file of fixed length; bytes never written read as zero. */
  class File {
    const length: nat
    var contents: seq<byte>

    constructor (length: nat)
      ensures this.length == length && contents == seq(length, _ => 0)
    {
      this.length := length;
      contents := seq(length, _ => 0);
    }

    method Write(data: seq<byte>, offset: nat)
      requires |contents| == length && offset + |data| <= length
      modifies this
      ensures contents == Splice(old(contents), offset, data)
    {
      contents := Splice(contents, offset, data);
    }
  }

  class FileManager {
    const infos: seq<FileInfo>
    const files: seq<File>

    ghost predicate Valid()
      reads this, files
    {
      && |files| == |infos|
      && Contiguous(infos)
      && NoDup(files)
      && (forall k :: 0 <= k < |files| ==> files[k].length == infos[k].length)
      && Fits(Contents(), infos)
    }

    ghost function Contents(): (cs: seq<seq<byte>>)
      reads this, files
      ensures |cs| == |files| && forall k :: 0 <= k < |cs| ==> cs[k] == files[k].contents
    {
      seq(|files|, k requires 0 <= k < |files| reads files => files[k].contents)
    }

    /** The abstract value: one flat buffer. */
    ghost function Flat(): seq<byte>
      reads this, files
    {
      Concat(Contents())
    }

    constructor (infos: seq<FileInfo>)
      requires Contiguous(infos)
      ensures Valid() && this.infos == infos && fresh(files)
      ensures Flat() == seq(TotalLength(infos), _ => 0)
    {
      this.infos := infos;
      var fs: seq<File> := [];
      for k := 0 to |infos|
        invariant |fs| == k && fresh(fs) && NoDup(fs)
        invariant forall j :: 0 <= j < k ==> fs[j].length == infos[j].length
        invariant forall j :: 0 <= j < k ==> fs[j].contents == seq(infos[j].length, _ => 0)
      {
        var file := new File(infos[k].length);
        fs := fs + [file];
      }
      files := fs;
      new;
      ZeroFiles(Contents(), infos);
    }

    /** Scatters `data` over the files that overlap [offset, offset + |data|). */
    method Write(data: seq<byte>, offset: nat)
      requires Valid() && files != [] && offset + |data| <= TotalLength(infos)
      modifies files
      ensures Valid()
      ensures |old(Flat())| == TotalLength(infos)
      ensures Flat() == Splice(old(Flat()), offset, data)
      ensures BytesWritten(old(Contents()), Contents(), infos, data, offset)
    {
      hide *;
      ghost var before := Contents();
      ContentsFit();
      var i: nat := FindFile(offset);
      var done: nat, at := 0, offset;
      ghost var flat := Flat();
      FlatLength();
      NothingWritten(flat, offset, data);
      while done < |data|
        invariant Valid() && done <= |data| && i <= |files|
        invariant done < |data| ==> at == offset + done && i < |files| && InFile(i, at)
        invariant Written(flat, offset, data, done, Flat())
        decreases |files| - i
      {
        ghost var last := Flat();
        var n, next := WritePart(i, at, data[done..]);
        MoreWritten(flat, offset, data, done, n, last, Flat());
        done, at, i := done + n, next, i + 1;
      }
      AllWritten(flat, offset, data, Flat());
      ContentsFit();
      SplicedFiles(before, Contents(), infos, data, offset);
    }

    lemma ContentsFit()
      requires Valid()
      ensures Fits(Contents(), infos) && Contiguous(infos) && Flat() == Concat(Contents())
    {
    }

    /** What fits into file i from `at` on is written there; the rest goes on at the start
        of the next file. */
    method WritePart(i: nat, at: nat, rest: seq<byte>) returns (n: nat, next: nat)
      requires Valid() && i < |files| && InFile(i, at) && at + |rest| <= TotalLength(infos)
      modifies files[i]
      ensures Valid() && n <= |rest| && at + n <= |old(Flat())| && Flat() == Splice(old(Flat()), at, rest[..n])
      ensures n < |rest| ==> next == at + n && i + 1 < |files| && InFile(i + 1, next)
    {
      hide Concat, Contiguous, Fits, Contents, Splice;
      var room := infos[i].startOff + files[i].length - at;
      n := if room <= |rest| then room else |rest|;
      WriteChunk(i, at, rest[..n]);
      next := at + room;
      NextFile(i + 1, next, |rest| - n);
    }

    /** The position lies in file i, its end included. */
    ghost predicate InFile(i: nat, at: nat)
      reads this
    {
      i < |files| && i < |infos| && infos[i].startOff <= at <= infos[i].startOff + infos[i].length
    }

    lemma FlatLength()
      requires Valid()
      ensures |Flat()| == TotalLength(infos)
    {
      ConcatLength(Contents(), infos);
    }

    /** The first file whose end is not before `offset`. */
    method FindFile(offset: nat) returns (i: nat)
      requires Valid() && files != [] && offset <= TotalLength(infos)
      ensures i < |files| && infos[i].startOff <= offset <= infos[i].startOff + infos[i].length
      ensures InFile(i, offset)
    {
      i := 0;
      assert infos[..|infos|] == infos;
      FileRange(infos, |infos| - 1);
      while offset > infos[i].startOff + files[i].length
        invariant i < |files|
        invariant i > 0 ==> offset > infos[i - 1].startOff + infos[i - 1].length
        decreases |files| - i
      {
        i := i + 1;
      }
      assert StartsAtEnd(infos, i);
    }

    method WriteChunk(i: nat, at: nat, chunk: seq<byte>)
      requires Valid() && i < |files|
      requires infos[i].startOff <= at && at + |chunk| <= infos[i].startOff + infos[i].length
      modifies files[i]
      ensures Valid()
      ensures at + |chunk| <= |old(Flat())| && Flat() == Splice(old(Flat()), at, chunk)
    {
      ghost var before := Contents();
      var offset := at - infos[i].startOff;
      ConcatUpdate(before, infos, i, offset, chunk);
      files[i].Write(chunk, offset);
      assert Contents() == before[i := Splice(before[i], offset, chunk)];
    }

    /** While bytes are left to write, there is a next file and it starts right here. */
    lemma NextFile(i: nat, at: nat, left: nat)
      requires |files| == |infos| && Contiguous(infos) && 0 < i <= |infos|
      requires at == infos[i - 1].startOff + infos[i - 1].length
      requires left > 0 ==> at + left <= TotalLength(infos)
      ensures left > 0 ==> i < |files| && infos[i].startOff == at
    {
      FileRange(infos, i - 1);
      assert infos[..|infos|] == infos;
      assert i < |infos| ==> StartsAtEnd(infos, i);
    }

    method GetTotalLength() returns (total: nat)
      requires Valid()
      ensures total == |Flat()|
    {
      total := 0;
      for k := 0 to |files|
        invariant total == TotalLength(infos[..k])
      {
        total := total + files[k].length;
        assert infos[..k + 1][..k] == infos[..k];
      }
      assert infos[..|infos|] == infos;
      ConcatLength(Contents(), infos);
    }
  }

  /** The first bytes of the data are in place, and nothing else has changed. */
  ghost predicate Written(flat: seq<byte>, offset: nat, data: seq<byte>, done: nat, now: seq<byte>) {
    done <= |data| && offset + |data| <= |flat| && now == Splice(flat, offset, data[..done])
  }

  lemma NothingWritten(flat: seq<byte>, offset: nat, data: seq<byte>)
    requires offset + |data| <= |flat|
    ensures Written(flat, offset, data, 0, flat)
  {
  }

  lemma MoreWritten(flat: seq<byte>, offset: nat, data: seq<byte>, done: nat, n: nat, before: seq<byte>, now: seq<byte>)
    requires Written(flat, offset, data, done, before) && done + n <= |data|
    requires offset + done + n <= |before| && now == Splice(before, offset + done, data[done..][..n])
    ensures Written(flat, offset, data, done + n, now)
  {
    assert data[done..][..n] == data[done..done + n];
    SpliceExtend(flat, offset, data, done, n);
  }

  lemma AllWritten(flat: seq<byte>, offset: nat, data: seq<byte>, now: seq<byte>)
    requires Written(flat, offset, data, |data|, now)
    ensures now == Splice(flat, offset, data)
  {
    assert data[..|data|] == data;
  }

  lemma {:induction false} ZeroFiles(cs: seq<seq<byte>>, infos: seq<FileInfo>)
    requires |cs| == |infos|
    requires forall k :: 0 <= k < |cs| ==> cs[k] == seq(infos[k].length, _ => 0)
    ensures Concat(cs) == seq(TotalLength(infos), _ => 0)
  {
    if cs != [] {
      ZeroFiles(cs[..|cs| - 1], infos[..|infos| - 1]);
    }
  }
}
