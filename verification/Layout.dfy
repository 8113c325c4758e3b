/** A file system laid out in the bytes of an image, and what the kernel's readers make
    of it: exactly the files that were put there, found by their names. */
module Layout {
  import opened Basics
  import opened Chars
  import opened FileSys

  /** A directory entry: a name, a type, and the number of a file. */
  datatype Entry = Entry(name: seq<byte>, kind: nat, file: nat)

  /** The directory, the files, and for each file the blocks that hold it, in order. */
  datatype Disk = Disk(entries: seq<Entry>, files: seq<seq<byte>>, blocks: seq<seq<nat>>)

  /** Four bytes, the lowest first. */
  function Little(n: nat): (b: seq<byte>)
    requires n < TWO32
    ensures |b| == 4
  {
    var q := n / 256;
    var r := q / 256;
    [n % 256, q % 256, r % 256, r / 256]
  }

  /** The image has these bytes at a. */
  ghost predicate Holds(mem: seq<byte>, a: nat, b: seq<byte>) {
    a + |b| <= |mem| && mem[a..a + |b|] == b
  }

  ghost predicate WellFormed(d: Disk) {
    && |d.blocks| == |d.files| < TWO32 && 64 + 64 * |d.entries| <= 4096
    && (forall n :: 0 <= n < |d.files| ==> |d.files[n]| <= 1023 * 4096 && FileBlocks(d.files[n]) == |d.blocks[n]|)
    && (forall n, k :: 0 <= n < |d.files| && 0 <= k < |d.blocks[n]| ==> d.blocks[n][k] < TWO32)
    && forall e :: 0 <= e < |d.entries| ==> EntryOk(d.entries[e])
  }

  ghost predicate EntryOk(e: Entry) {
    |e.name| <= 32 && NUL !in e.name && e.kind < TWO32 && e.file < TWO32
  }

  /** As many blocks as the file needs. */
  function FileBlocks(file: seq<byte>): nat {
    (|file| + 4095) / 4096
  }

  /** A name filled up with NULs to 32 bytes. */
  function NameField(name: seq<byte>): (b: seq<byte>)
    requires |name| <= 32
    ensures |b| == 32
  {
    name + seq(32 - |name|, i => NUL)
  }

  /** The boot block has the counts and the directory; an inode block for each file has
      its size and its block numbers; then come the data blocks, of 4096 bytes. */
  ghost predicate LaidOut(mem: seq<byte>, d: Disk)
    requires WellFormed(d)
  {
    && 4096 * (1 + |d.files|) <= |mem| < TWO32
    && Holds(mem, 0, Little(|d.entries|)) && Holds(mem, 4, Little(|d.files|))
    && (forall e :: 0 <= e < |d.entries| ==> EntryLaid(mem, d, e))
    && forall n :: 0 <= n < |d.files| ==> FileLaid(mem, d, n)
  }

  ghost predicate EntryLaid(mem: seq<byte>, d: Disk, e: nat)
    requires WellFormed(d) && e < |d.entries|
  {
    && Holds(mem, 64 + 64 * e, NameField(d.entries[e].name))
    && Holds(mem, 64 + 64 * e + 32, Little(d.entries[e].kind))
    && Holds(mem, 64 + 64 * e + 36, Little(d.entries[e].file))
  }

  ghost predicate FileLaid(mem: seq<byte>, d: Disk, n: nat)
    requires WellFormed(d) && n < |d.files|
  {
    && Holds(mem, 4096 * (1 + n), Little(|d.files[n]|))
    && (forall k :: 0 <= k < |d.blocks[n]| ==> Holds(mem, 4096 * (1 + n) + 4 + 4 * k, Little(d.blocks[n][k])))
    && forall k :: 0 <= k < |d.blocks[n]| ==>
         Holds(mem, 4096 * (1 + |d.files| + d.blocks[n][k]), Piece(d.files[n], k))
  }

  /** The k-th 4096 bytes of a file; the last piece may be shorter. */
  function Piece(file: seq<byte>, k: nat): seq<byte>
    requires 4096 * k <= |file|
  {
    file[4096 * k..Min(4096 * (k + 1), |file|)]
  }

  // ---- the readers ----

  lemma WordHeld(mem: seq<byte>, a: nat, n: nat)
    requires n < TWO32 && Holds(mem, a, Little(n))
    ensures HasWord(mem, a) && Word(mem, a) == n
  {
    var b := Little(n);
    assert mem[a] == b[0] && mem[a + 1] == b[1] && mem[a + 2] == b[2] && mem[a + 3] == b[3] by {
      assert forall i :: 0 <= i < 4 ==> mem[a..a + 4][i] == b[i];
    }
    var q := n / 256;
    assert n == 256 * q + n % 256 && q == 256 * (q / 256) + q % 256;
  }

  lemma PieceByte(file: seq<byte>, i: nat)
    requires i < |file|
    ensures i / 4096 < FileBlocks(file) && 4096 * (i / 4096) <= |file|
    ensures i % 4096 < |Piece(file, i / 4096)| && Piece(file, i / 4096)[i % 4096] == file[i]
  {
  }

  /** Byte i of file n is where the kernel looks for it. */
  lemma ByteFound(mem: seq<byte>, d: Disk, n: nat, i: nat)
    requires WellFormed(d) && LaidOut(mem, d) && n < |d.files| && i < |d.files[n]|
    ensures HasWord(mem, 4) && HasWord(mem, InodeAt(n) + 4 + 4 * (i / 4096))
    ensures ByteAt(mem, n, i) < |mem| && mem[ByteAt(mem, n, i)] == d.files[n][i]
  {
    hide Word;
    hide Little;
    WordHeld(mem, 4, |d.files|);
    PieceByte(d.files[n], i);
    var k := i / 4096;
    assert FileLaid(mem, d, n);
    WordHeld(mem, 4096 * (1 + n) + 4 + 4 * k, d.blocks[n][k]);
    var a := 4096 * (1 + |d.files| + d.blocks[n][k]);
    var piece := Piece(d.files[n], k);
    hide Piece;
    assert Holds(mem, a, piece);
    assert mem[a..a + |piece|][i % 4096] == piece[i % 4096];
    assert ByteAt(mem, n, i) == a + i % 4096;
  }

  /** The flat file that the kernel reads is the file that was laid out. */
  lemma ContentIsFile(mem: seq<byte>, d: Disk, n: nat)
    requires WellFormed(d) && LaidOut(mem, d) && n < |d.files|
    ensures Readable(mem, n) && InodeCount(mem) == |d.files|
    ensures FileSize(mem, n) == |d.files[n]| && Content(mem, n) == d.files[n]
  {
    hide Word;
    hide Little;
    hide ByteAt;
    WordHeld(mem, 4, |d.files|);
    assert FileLaid(mem, d, n);
    WordHeld(mem, 4096 * (1 + n), |d.files[n]|);
    forall i | 0 <= i < |d.files[n]|
      ensures HasWord(mem, InodeAt(n) + 4 + 4 * (i / 4096))
      ensures ByteAt(mem, n, i) < |mem| && mem[ByteAt(mem, n, i)] == d.files[n][i]
    {
      ByteFound(mem, d, n, i);
    }
  }

  lemma {:induction false} PaddedName(name: seq<byte>, s: seq<byte>, n: nat)
    requires |name| <= n <= |s| && name <= s && NUL !in name && (|name| < n ==> s[|name|] == NUL)
    ensures CName(s, n) == name
    decreases n
  {
    if name == [] {
    } else {
      assert s[0] == name[0];
      PaddedName(name[1..], s[1..], n - 1);
    }
  }

  /** The directory entries that the kernel reads are those that were laid out. */
  lemma EntryIsLaid(mem: seq<byte>, d: Disk, e: nat)
    requires WellFormed(d) && LaidOut(mem, d) && e < |d.entries|
    ensures HasDirectory(mem) && Word(mem, 0) == |d.entries|
    ensures EntryAt(mem, e) == Dentry(d.entries[e].name, d.entries[e].kind, d.entries[e].file)
  {
    hide Word;
    hide Little;
    hide CName;
    DirectoryLaid(mem, d);
    assert EntryLaid(mem, d, e) && EntryOk(d.entries[e]);
    var field := NameField(d.entries[e].name);
    WordHeld(mem, 64 + 64 * e + 32, d.entries[e].kind);
    WordHeld(mem, 64 + 64 * e + 36, d.entries[e].file);
    assert DentryName(mem, e) == field;
    PaddedName(d.entries[e].name, field, 32);
  }

  lemma DirectoryLaid(mem: seq<byte>, d: Disk)
    requires WellFormed(d) && LaidOut(mem, d)
    ensures HasDirectory(mem) && Word(mem, 0) == |d.entries|
  {
    hide Word;
    hide Little;
    WordHeld(mem, 0, |d.entries|);
  }

  /** read_data on a laid-out image copies exactly the bytes of the file asked for. */
  method ReadFile(mem: seq<byte>, ghost d: Disk, n: nat, offset: nat, buf: array<byte>, length: nat) returns (got: nat)
    requires WellFormed(d) && LaidOut(mem, d) && n < |d.files|
    requires offset + length < TWO32 && length <= buf.Length
    modifies buf
    ensures var file := d.files[n];
      && got == (if offset < |file| then Min(length, |file| - offset) else 0)
      && got <= buf.Length && buf[got..] == old(buf[got..])
      && (got > 0 ==> buf[..got] == file[offset..offset + got])
  {
    hide LaidOut;
    hide WellFormed;
    hide Content;
    ContentIsFile(mem, d, n);
    if offset < FileSize(mem, n) {
      ReadLenExact(FileSize(mem, n), offset, length);
    }
    got := ReadData(mem, n, offset, buf, length);
  }

  /** The loader puts the whole file in memory. */
  method LoadFile(mem: seq<byte>, ghost d: Disk, n: nat, dest: array<byte>) returns (size: nat)
    requires WellFormed(d) && LaidOut(mem, d) && n < |d.files| && |d.files[n]| <= dest.Length
    modifies dest
    ensures size == |d.files[n]| && dest[..size] == d.files[n] && dest[size..] == old(dest[size..])
  {
    hide LaidOut;
    hide WellFormed;
    hide Content;
    ContentIsFile(mem, d, n);
    size := LoadImage(mem, n, dest);
  }

  /** A name leads to the first entry with it, and so to its file. */
  method FindFile(mem: seq<byte>, ghost d: Disk, name: seq<byte>) returns (found: Option<Dentry>, ghost e: nat)
    requires WellFormed(d) && LaidOut(mem, d) && |name| <= 32 && NUL !in name
    ensures found.Some? <==> name != [] && exists k :: 0 <= k < |d.entries| && d.entries[k].name == name
    ensures found.Some? ==>
      && e < |d.entries| && d.entries[e].name == name
      && found == Some(Dentry(name, d.entries[e].kind, d.entries[e].file))
      && forall k :: 0 <= k < e ==> d.entries[k].name != name
  {
    hide LaidOut;
    hide WellFormed;
    hide Word;
    hide CName;
    hide EntryAt;
    DirectoryLaid(mem, d);
    forall k | 0 <= k < |d.entries|
      ensures EntryAt(mem, k) == Dentry(d.entries[k].name, d.entries[k].kind, d.entries[k].file)
      ensures EntryName(mem, k) == d.entries[k].name
    {
      EntryIsLaid(mem, d, k);
      EntryNamed(mem, k);
    }
    PaddedName(name, name + [NUL], |name|);
    NameItself(name);
    found, e := DentryByName(mem, name + [NUL]);
  }

  lemma EntryNamed(mem: seq<byte>, k: nat)
    requires HasDirectory(mem) && k < Word(mem, 0)
    ensures EntryAt(mem, k).name == EntryName(mem, k)
  {
  }

  lemma NameItself(name: seq<byte>)
    requires |name| <= 32 && NUL !in name
    ensures Terminated(name + [NUL], 32) && CName(name + [NUL], 32) == name
  {
    NameUpTo(name, 32);
  }

  lemma {:induction false} NameUpTo(name: seq<byte>, n: nat)
    requires |name| <= n && NUL !in name
    ensures Terminated(name + [NUL], n) && CName(name + [NUL], n) == name
    decreases n
  {
    assert (name + [NUL])[|name|] == NUL;
    if name != [] {
      NameUpTo(name[1..], n - 1);
      assert (name + [NUL])[1..] == name[1..] + [NUL];
    }
  }

  // ---- any files can be laid out ----

  /** Block k of file n is data block 1023 n + k. */
  function DiskOf(entries: seq<Entry>, files: seq<seq<byte>>): Disk {
    Disk(entries, files, seq(|files|, n requires 0 <= n < |files| => seq(FileBlocks(files[n]), k => 1023 * n + k)))
  }

  ghost predicate Small(entries: seq<Entry>, files: seq<seq<byte>>) {
    && 4096 * (1 + 1024 * |files|) < TWO32 && 64 + 64 * |entries| <= 4096
    && (forall n :: 0 <= n < |files| ==> |files[n]| <= 1023 * 4096)
    && forall e :: 0 <= e < |entries| ==> EntryOk(entries[e])
  }

  function BootByte(entries: seq<Entry>, count: nat, r: nat): byte
    requires |entries| < TWO32 && count < TWO32 && r < 4096
    requires forall e :: 0 <= e < |entries| ==> |entries[e].name| <= 32 && entries[e].kind < TWO32 && entries[e].file < TWO32
  {
    if r < 4 then Little(|entries|)[r]
    else if r < 8 then Little(count)[r - 4]
    else if r < 64 || (r - 64) / 64 >= |entries| then 0
    else
      var e, o := entries[(r - 64) / 64], (r - 64) % 64;
      if o < 32 then NameField(e.name)[o]
      else if o < 36 then Little(e.kind)[o - 32]
      else if o < 40 then Little(e.file)[o - 36]
      else 0
  }

  function InodeByte(file: seq<byte>, n: nat, r: nat): byte
    requires |file| < TWO32 && 1023 * (n + 1) < TWO32 && r < 4096
  {
    if r < 4 then Little(|file|)[r] else Little(1023 * n + (r - 4) / 4)[(r - 4) % 4]
  }

  function DataByte(files: seq<seq<byte>>, j: nat, r: nat): byte {
    var n, at := j / 1023, 4096 * (j % 1023) + r;
    if n < |files| && at < |files[n]| then files[n][at] else 0
  }

  function ImageByte(entries: seq<Entry>, files: seq<seq<byte>>, b: nat, r: nat): byte
    requires Small(entries, files) && b < 1 + 1024 * |files| && r < 4096
  {
    if b == 0 then BootByte(entries, |files|, r)
    else if b <= |files| then InodeByte(files[b - 1], b - 1, r)
    else DataByte(files, b - 1 - |files|, r)
  }

  function ImageOf(entries: seq<Entry>, files: seq<seq<byte>>): (mem: seq<byte>)
    requires Small(entries, files)
    ensures |mem| == 4096 * (1 + 1024 * |files|)
  {
    seq(4096 * (1 + 1024 * |files|), i requires 0 <= i < 4096 * (1 + 1024 * |files|) =>
      ImageByte(entries, files, i / 4096, i % 4096))
  }

  lemma ByteOfBlock(entries: seq<Entry>, files: seq<seq<byte>>, b: nat, r: nat)
    requires Small(entries, files) && b < 1 + 1024 * |files| && r < 4096
    ensures ImageOf(entries, files)[4096 * b + r] == ImageByte(entries, files, b, r)
  {
    hide ImageByte;
    assert (4096 * b + r) / 4096 == b && (4096 * b + r) % 4096 == r;
  }

  /** The bytes from r on of block b. */
  lemma BlockHolds(entries: seq<Entry>, files: seq<seq<byte>>, b: nat, r: nat, bytes: seq<byte>)
    requires Small(entries, files) && b < 1 + 1024 * |files| && r + |bytes| <= 4096
    requires forall i :: 0 <= i < |bytes| ==> ImageByte(entries, files, b, r + i) == bytes[i]
    ensures Holds(ImageOf(entries, files), 4096 * b + r, bytes)
  {
    hide ImageByte;
    hide ImageOf;
    var mem, a := ImageOf(entries, files), 4096 * b + r;
    forall i | 0 <= i < |bytes|
      ensures mem[a..a + |bytes|][i] == bytes[i]
    {
      ByteOfBlock(entries, files, b, r + i);
    }
  }

  lemma EntryInImage(entries: seq<Entry>, files: seq<seq<byte>>, e: nat)
    requires Small(entries, files) && e < |entries|
    ensures var mem := ImageOf(entries, files);
      && Holds(mem, 64 + 64 * e, NameField(entries[e].name))
      && Holds(mem, 64 + 64 * e + 32, Little(entries[e].kind))
      && Holds(mem, 64 + 64 * e + 36, Little(entries[e].file))
  {
    hide ImageOf;
    hide Little;
    hide NameField;
    assert EntryOk(entries[e]);
    BlockHolds(entries, files, 0, 64 + 64 * e, NameField(entries[e].name));
    BlockHolds(entries, files, 0, 64 + 64 * e + 32, Little(entries[e].kind));
    BlockHolds(entries, files, 0, 64 + 64 * e + 36, Little(entries[e].file));
  }

  lemma InodeInImage(entries: seq<Entry>, files: seq<seq<byte>>, n: nat)
    requires Small(entries, files) && n < |files|
    ensures Holds(ImageOf(entries, files), 4096 * (1 + n), Little(|files[n]|))
    ensures forall k :: 0 <= k < FileBlocks(files[n]) ==>
      Holds(ImageOf(entries, files), 4096 * (1 + n) + 4 + 4 * k, Little(1023 * n + k))
  {
    hide ImageOf;
    hide Little;
    BlockHolds(entries, files, 1 + n, 0, Little(|files[n]|));
    forall k | 0 <= k < FileBlocks(files[n])
      ensures Holds(ImageOf(entries, files), 4096 * (1 + n) + 4 + 4 * k, Little(1023 * n + k))
    {
      BlockHolds(entries, files, 1 + n, 4 + 4 * k, Little(1023 * n + k));
    }
  }

  lemma PieceInImage(entries: seq<Entry>, files: seq<seq<byte>>, n: nat, k: nat)
    requires Small(entries, files) && n < |files| && k < FileBlocks(files[n])
    ensures Holds(ImageOf(entries, files), 4096 * (1 + |files| + 1023 * n + k), Piece(files[n], k))
  {
    hide ImageOf;
    var j := 1023 * n + k;
    assert j / 1023 == n && j % 1023 == k;
    BlockHolds(entries, files, 1 + |files| + j, 0, Piece(files[n], k));
  }

  /** Any files and names fit in such an image, so the readers can be relied on for
      them all. */
  lemma ImageLaidOut(entries: seq<Entry>, files: seq<seq<byte>>)
    requires Small(entries, files)
    ensures WellFormed(DiskOf(entries, files)) && LaidOut(ImageOf(entries, files), DiskOf(entries, files))
  {
    hide ImageOf;
    hide Little;
    hide NameField;
    hide Holds;
    hide Piece;
    var d, mem := DiskOf(entries, files), ImageOf(entries, files);
    BlockHolds(entries, files, 0, 0, Little(|entries|));
    BlockHolds(entries, files, 0, 4, Little(|files|));
    forall e | 0 <= e < |entries|
      ensures EntryLaid(mem, d, e)
    {
      EntryInImage(entries, files, e);
    }
    forall n | 0 <= n < |files|
      ensures FileLaid(mem, d, n)
    {
      InodeInImage(entries, files, n);
      forall k | 0 <= k < |d.blocks[n]|
        ensures Holds(mem, 4096 * (1 + |files| + d.blocks[n][k]), Piece(files[n], k))
      {
        PieceInImage(entries, files, n, k);
      }
    }
  }
}
