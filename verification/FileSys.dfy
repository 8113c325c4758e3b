/** The read-only file system: blocks of an image, read as flat files. */
module FileSys {
  import opened Basics
  import opened Chars

  const BLOCK_SIZE := 4096
  const MAX_BLOCK_NUM := 1023
  const MAX_NAME_LENGTH := 32

  /** The image in memory, from the boot block on. */
  type Image = seq<byte>

  predicate HasWord(mem: Image, a: int) {
    0 <= a && a + 4 <= |mem|
  }

  /** The little-endian uint32_t at a. */
  function Word(mem: Image, a: int): (w: nat)
    requires HasWord(mem, a)
    ensures w < TWO32
  {
    mem[a] as int + 0x100 * (mem[a + 1] as int) + 0x1_0000 * (mem[a + 2] as int) + 0x100_0000 * (mem[a + 3] as int)
  }

  ghost predicate HasBoot(mem: Image) {
    BLOCK_SIZE <= |mem| < TWO32
  }

  function InodeCount(mem: Image): nat
    requires HasWord(mem, 4)
  {
    Word(mem, 4)
  }

  function InodeAt(n: nat): nat {
    BLOCK_SIZE * (1 + n)
  }

  function FileSize(mem: Image, n: nat): nat
    requires HasWord(mem, InodeAt(n))
  {
    Word(mem, InodeAt(n))
  }

  function BlockNumber(mem: Image, n: nat, k: nat): nat
    requires HasWord(mem, InodeAt(n) + 4 + 4 * k)
  {
    Word(mem, InodeAt(n) + 4 + 4 * k)
  }

  /** Where byte i of file n is in the image. */
  function ByteAt(mem: Image, n: nat, i: nat): nat
    requires HasWord(mem, 4) && HasWord(mem, InodeAt(n) + 4 + 4 * (i / BLOCK_SIZE))
  {
    BLOCK_SIZE * (1 + InodeCount(mem) + BlockNumber(mem, n, i / BLOCK_SIZE)) + i % BLOCK_SIZE
  }

  /** Inode n and all blocks of its file lie inside the image. */
  ghost predicate Readable(mem: Image, n: nat) {
    && HasBoot(mem) && InodeAt(n) + BLOCK_SIZE <= |mem|
    && FileSize(mem, n) <= MAX_BLOCK_NUM * BLOCK_SIZE
    && forall i :: 0 <= i < FileSize(mem, n) ==> ByteAt(mem, n, i) < |mem|
  }

  /** The flat file. */
  function Content(mem: Image, n: nat): (r: seq<byte>)
    requires Readable(mem, n)
    ensures |r| == FileSize(mem, n) <= MAX_BLOCK_NUM * BLOCK_SIZE
  {
    seq(FileSize(mem, n), i requires 0 <= i < FileSize(mem, n) => mem[ByteAt(mem, n, i)])
  }

  /** actual_len: the sum wraps as uint32_t, and the result is an int32_t. */
  function ActualLen(size: nat, offset: nat, length: nat): int {
    if (length + offset) % TWO32 > size then size - offset
    else if length < 0x8000_0000 then length
    else length - TWO32
  }

  /** The bytes read_data copies. */
  function ReadLen(size: nat, offset: nat, length: nat): nat {
    if offset >= size then 0
    else if ActualLen(size, offset, length) < 0 then 0
    else ActualLen(size, offset, length)
  }

  /** A read inside the file returns what is asked for, up to the end of the file,
      exactly when offset + length does not wrap; otherwise it returns nothing. */
  lemma ReadLenExact(size: nat, offset: nat, length: nat)
    requires offset < size <= MAX_BLOCK_NUM * BLOCK_SIZE && length < TWO32
    ensures ReadLen(size, offset, length) == Min(length, size - offset) <==> offset + length < TWO32
    ensures offset + length >= TWO32 ==> ReadLen(size, offset, length) == 0
  {
    if offset + length >= TWO32 {
      assert (length + offset) % TWO32 == length + offset - TWO32;
    } else {
      assert (length + offset) % TWO32 == length + offset;
    }
  }

  method ReadData(mem: Image, inodeNum: int, offset: nat, buf: array<byte>, length: nat) returns (n: nat)
    requires HasBoot(mem) && offset < TWO32 && length < TWO32
    requires 0 <= inodeNum <= InodeCount(mem) ==>
      Readable(mem, inodeNum) && ReadLen(FileSize(mem, inodeNum), offset, length) <= buf.Length
    modifies buf
    ensures inodeNum < 0 || inodeNum > InodeCount(mem) ==> n == 0
    ensures 0 <= inodeNum <= InodeCount(mem) ==> n == ReadLen(FileSize(mem, inodeNum), offset, length)
    ensures n > 0 ==> 0 <= inodeNum <= InodeCount(mem) && offset + n <= FileSize(mem, inodeNum)
    ensures n <= buf.Length && buf[n..] == old(buf[n..])
    ensures n > 0 ==> buf[..n] == Content(mem, inodeNum)[offset..offset + n]
  {
    var inodeCount := Word(mem, 4);
    if inodeNum > inodeCount || inodeNum < 0 {
      return 0;
    }
    var size := Word(mem, InodeAt(inodeNum));
    if offset >= size {
      return 0;
    }
    var actualLen := ActualLen(size, offset, length);
    LenInside(size, offset, length);
    n := if actualLen < 0 then 0 else actualLen;
    CopyBytes(mem, inodeNum, offset, buf, n);
  }

  /** The loop of read_data. */
  method CopyBytes(mem: Image, inode: nat, offset: nat, buf: array<byte>, len: nat)
    requires Readable(mem, inode) && offset < FileSize(mem, inode) && offset + len <= FileSize(mem, inode)
    requires len <= buf.Length
    modifies buf
    ensures buf[..len] == Content(mem, inode)[offset..offset + len]
    ensures buf[len..] == old(buf[len..])
  {
    hide Readable;
    hide ByteAt;
    hide Content;
    hide Word;
    hide BlockStart;
    hide BlockNumber;
    hide FileSize;
    BlockReadable(mem, inode, offset);
    var startingIndex := offset / BLOCK_SIZE;
    var dataOffset := offset % BLOCK_SIZE;
    var curByte := BlockStart(mem, inode, startingIndex) + dataOffset;
    var n := 0;
    while n < len
      invariant n <= len
      invariant startingIndex == (if n == 0 then offset else offset + n - 1) / BLOCK_SIZE
      invariant HasWord(mem, InodeAt(inode) + 4 + 4 * startingIndex)
      invariant n == 0 ==> curByte == BlockStart(mem, inode, startingIndex) + dataOffset
      invariant n > 0 ==> curByte == BlockStart(mem, inode, startingIndex) + (offset + n - 1) % BLOCK_SIZE + 1
      invariant forall k :: 0 <= k < n ==> buf[k] == Content(mem, inode)[offset + k]
      invariant buf[n..] == old(buf[n..])
    {
      BlockReadable(mem, inode, offset + n);
      NextByte(offset, n);
      if (n + dataOffset) % BLOCK_SIZE == 0 && n + dataOffset != 0 {
        startingIndex := startingIndex + 1;
        curByte := BlockStart(mem, inode, startingIndex);
      }
      assert curByte == BlockStart(mem, inode, startingIndex) + (offset + n) % BLOCK_SIZE;
      buf[n] := mem[curByte];
      curByte := curByte + 1;
      n := n + 1;
    }
  }

  /** First byte of the k-th data block of a file. */
  function BlockStart(mem: Image, n: nat, k: nat): nat
    requires HasWord(mem, 4) && HasWord(mem, InodeAt(n) + 4 + 4 * k)
  {
    InodeCount(mem) * BLOCK_SIZE + BlockNumber(mem, n, k) * BLOCK_SIZE + BLOCK_SIZE
  }

  lemma LenInside(size: nat, offset: nat, length: nat)
    requires offset < size <= MAX_BLOCK_NUM * BLOCK_SIZE && length < TWO32
    ensures offset + ReadLen(size, offset, length) <= size
  {
    ReadLenExact(size, offset, length);
  }

  lemma BlockReadable(mem: Image, n: nat, i: nat)
    requires Readable(mem, n) && i < FileSize(mem, n)
    ensures HasWord(mem, 4) && HasWord(mem, InodeAt(n) + 4 + 4 * (i / BLOCK_SIZE))
    ensures BlockStart(mem, n, i / BLOCK_SIZE) + i % BLOCK_SIZE < |mem|
    ensures mem[BlockStart(mem, n, i / BLOCK_SIZE) + i % BLOCK_SIZE] == Content(mem, n)[i]
  {
    assert ByteAt(mem, n, i) == BlockStart(mem, n, i / BLOCK_SIZE) + i % BLOCK_SIZE;
  }

  /** The next byte of a file is in the same block, or the first of the next one. */
  lemma NextByte(offset: nat, k: nat)
    ensures var d := offset % BLOCK_SIZE;
      if (k + d) % BLOCK_SIZE == 0 && k + d != 0
      then k > 0 && (offset + k) % BLOCK_SIZE == 0 && (offset + k) / BLOCK_SIZE == (offset + k - 1) / BLOCK_SIZE + 1
      else k > 0 ==> && (offset + k) / BLOCK_SIZE == (offset + k - 1) / BLOCK_SIZE
                     && (offset + k) % BLOCK_SIZE == (offset + k - 1) % BLOCK_SIZE + 1
  {
  }

  // ---- open files, and the program loader ----

  datatype File = File(inode: int, pos: nat)

  /** fs_file_read, with the FILE as an in-out value. */
  method FileRead(mem: Image, file: File, buf: array<byte>, length: nat) returns (n: nat, file': File)
    requires file.inode >= 0 && Readable(mem, file.inode) && file.inode <= InodeCount(mem)
    requires file.pos < TWO32 && length <= buf.Length < TWO32
    modifies buf
    ensures n == ReadLen(FileSize(mem, file.inode), file.pos, length) && file' == file.(pos := file.pos + n)
    ensures n <= length && buf[n..] == old(buf[n..])
    ensures n > 0 ==> file.pos + n <= FileSize(mem, file.inode)
    ensures n > 0 ==> buf[..n] == Content(mem, file.inode)[file.pos..file.pos + n]
  {
    if file.pos < FileSize(mem, file.inode) {
      ReadLenExact(FileSize(mem, file.inode), file.pos, length);
    }
    n := ReadData(mem, file.inode, file.pos, buf, length);
    file' := file.(pos := file.pos + n);
  }

  /** What successive reads of the given lengths return, joined. */
  function Reads(content: seq<byte>, pos: nat, lengths: seq<nat>): seq<byte>
    requires pos <= |content| <= MAX_BLOCK_NUM * BLOCK_SIZE
    requires forall k :: 0 <= k < |lengths| ==> lengths[k] < TWO32
    decreases |lengths|
  {
    if lengths == [] then []
    else
      var n := ReadLen(|content|, pos, lengths[0]);
      AtEnd(|content|, pos, lengths[0]);
      content[pos..pos + n] + Reads(content, pos + n, lengths[1..])
  }

  lemma AtEnd(size: nat, pos: nat, length: nat)
    requires pos <= size <= MAX_BLOCK_NUM * BLOCK_SIZE && length < TWO32
    ensures pos + ReadLen(size, pos, length) <= size
  {
    if pos < size {
      LenInside(size, pos, length);
    }
  }

  function Sum(lengths: seq<nat>): nat {
    if lengths == [] then 0 else lengths[0] + Sum(lengths[1..])
  }

  /** However a file is read, the reads join up to the file, as far as they ask. */
  lemma {:induction false} ReadsJoin(content: seq<byte>, pos: nat, lengths: seq<nat>)
    requires pos <= |content| <= MAX_BLOCK_NUM * BLOCK_SIZE
    requires forall k :: 0 <= k < |lengths| ==> lengths[k] < TWO32 - |content|
    ensures Reads(content, pos, lengths) == content[pos..pos + Min(Sum(lengths), |content| - pos)]
    decreases |lengths|
  {
    hide Reads;
    hide Sum;
    hide Min;
    if lengths == [] {
      NothingRead(content, pos);
    } else {
      var n := Min(lengths[0], |content| - pos);
      FirstRead(content, pos, lengths);
      AskedTogether(|content|, pos, lengths);
      ReadsJoin(content, pos + n, lengths[1..]);
      Joined(content, pos, n, Min(Sum(lengths[1..]), |content| - (pos + n)));
    }
  }

  lemma FirstRead(content: seq<byte>, pos: nat, lengths: seq<nat>)
    requires pos <= |content| <= MAX_BLOCK_NUM * BLOCK_SIZE && lengths != []
    requires forall k :: 0 <= k < |lengths| ==> lengths[k] < TWO32 - |content|
    ensures var n := Min(lengths[0], |content| - pos);
      && 0 <= n <= |content| - pos
      && Reads(content, pos, lengths) == content[pos..pos + n] + Reads(content, pos + n, lengths[1..])
  {
    hide ReadLen;
    AskedOrAll(|content|, pos, lengths[0]);
  }

  lemma AskedTogether(size: nat, pos: nat, lengths: seq<nat>)
    requires pos <= size && lengths != []
    ensures var n := Min(lengths[0], size - pos);
      && pos + n <= size
      && Min(Sum(lengths), size - pos) == n + Min(Sum(lengths[1..]), size - (pos + n))
      && 0 <= Min(Sum(lengths[1..]), size - (pos + n)) <= size - (pos + n)
  {
  }

  lemma NothingRead(content: seq<byte>, pos: nat)
    requires pos <= |content| <= MAX_BLOCK_NUM * BLOCK_SIZE
    ensures Reads(content, pos, []) == content[pos..pos + Min(Sum([]), |content| - pos)]
  {
  }

  lemma Joined(s: seq<byte>, pos: nat, n: nat, m: nat)
    requires pos + n + m <= |s|
    ensures s[pos..pos + n] + s[pos + n..pos + n + m] == s[pos..pos + n + m]
  {
  }

  lemma AskedOrAll(size: nat, pos: nat, length: nat)
    requires pos <= size <= MAX_BLOCK_NUM * BLOCK_SIZE && length < TWO32 - size
    ensures ReadLen(size, pos, length) == Min(length, size - pos)
  {
    if pos < size {
      ReadLenExact(size, pos, length);
    }
  }

  const BUF_SIZE := 256

  /** The loop of execute that reads a program 256 bytes at a time until a read
      returns 0: the image in memory is the whole file. */
  method LoadImage(mem: Image, inode: nat, dest: array<byte>) returns (size: nat)
    requires Readable(mem, inode) && inode <= InodeCount(mem)
    requires FileSize(mem, inode) <= dest.Length
    modifies dest
    ensures size == FileSize(mem, inode) && dest[..size] == Content(mem, inode)
    ensures dest[size..] == old(dest[size..])
  {
    hide Content;
    hide ByteAt;
    hide Word;
    var file := File(inode, 0);
    var buf := new byte[BUF_SIZE];
    size := 0;
    var n: nat;
    n, file := FileRead(mem, file, buf, BUF_SIZE);
    while n > 0
      invariant buf.Length == BUF_SIZE && n <= BUF_SIZE && file == File(inode, size + n)
      invariant size + n <= FileSize(mem, inode)
      invariant n == ReadLen(FileSize(mem, inode), size, BUF_SIZE)
      invariant n > 0 ==> buf[..n] == Content(mem, inode)[size..size + n]
      invariant dest[..size] == Content(mem, inode)[..size] && dest[size..] == old(dest[size..])
      decreases FileSize(mem, inode) - size
    {
      Memcpy(dest, size, buf, n);
      assert Content(mem, inode)[..size + n] == Content(mem, inode)[..size] + Content(mem, inode)[size..size + n];
      size := size + n;
      n, file := FileRead(mem, file, buf, BUF_SIZE);
    }
    if size < FileSize(mem, inode) {
      ReadLenExact(FileSize(mem, inode), size, BUF_SIZE);
    }
  }

  method Memcpy(dest: array<byte>, at: nat, src: array<byte>, n: nat)
    requires dest != src && at + n <= dest.Length && n <= src.Length
    modifies dest
    ensures dest[..] == old(dest[..at]) + src[..n] + old(dest[at + n..])
  {
    for i := 0 to n
      invariant dest[..] == old(dest[..at]) + src[..i] + old(dest[at + i..])
    {
      dest[at + i] := src[i];
    }
  }

  // ---- names ----

  /** The name a C string or a 32-byte field holds: up to a NUL, at most n bytes. */
  function CName(s: seq<byte>, n: nat): (r: seq<byte>)
    requires Terminated(s, n)
    ensures |r| <= n && NUL !in r
    ensures |r| < n ==> |r| < |s| && s[|r|] == NUL
    decreases n
  {
    if n == 0 || s[0] == NUL then [] else [s[0]] + CName(s[1..], n - 1)
  }

  /** s has a NUL, or n bytes. */
  predicate Terminated(s: seq<byte>, n: nat) {
    |s| >= n || NUL in s
  }

  lemma {:induction false} CNamePrefix(s: seq<byte>, n: nat)
    requires Terminated(s, n)
    ensures CName(s, n) <= s
    decreases n
  {
    if n != 0 && s[0] != NUL {
      CNamePrefix(s[1..], n - 1);
    }
  }

  /** strncmp(a, b, n) == 0; the source returns a difference of characters. */
  method SameName(a: seq<byte>, b: seq<byte>, n: nat) returns (same: bool)
    requires Terminated(a, n) && Terminated(b, n)
    ensures same <==> CName(a, n) == CName(b, n)
  {
    hide CName;
    hide Terminated;
    var i := 0;
    while i < n
      invariant i <= n && i <= |a| && i <= |b|
      invariant Terminated(a[i..], n - i) && Terminated(b[i..], n - i)
      invariant CName(a[i..], n - i) == CName(b[i..], n - i) <==> CName(a, n) == CName(b, n)
    {
      NameHeads(a[i..], b[i..], n - i);
      if a[i] != b[i] || a[i] == NUL || b[i] == NUL {
        return a[i] == b[i];
      }
      assert a[i..][1..] == a[i + 1..] && b[i..][1..] == b[i + 1..];
      i := i + 1;
    }
    NamesEnd(a[i..], b[i..]);
    return true;
  }

  lemma NamesEnd(a: seq<byte>, b: seq<byte>)
    ensures Terminated(a, 0) && Terminated(b, 0) && CName(a, 0) == CName(b, 0) == []
  {
  }

  lemma NameHeads(a: seq<byte>, b: seq<byte>, n: nat)
    requires Terminated(a, n) && Terminated(b, n) && n > 0
    ensures |a| > 0 && |b| > 0
    ensures a[0] != b[0] ==> CName(a, n) != CName(b, n)
    ensures a[0] == b[0] == NUL ==> CName(a, n) == CName(b, n)
    ensures a[0] == b[0] != NUL ==> Terminated(a[1..], n - 1) && Terminated(b[1..], n - 1)
    ensures a[0] == b[0] != NUL ==> (CName(a, n) == CName(b, n) <==> CName(a[1..], n - 1) == CName(b[1..], n - 1))
  {
    CNameStep(a, n);
    CNameStep(b, n);
    if a[0] != b[0] {
      assert a[0] != NUL ==> CName(a, n)[0] == a[0];
      assert b[0] != NUL ==> CName(b, n)[0] == b[0];
    } else if a[0] != NUL && CName(a, n) == CName(b, n) {
      assert CName(a, n)[1..] == CName(a[1..], n - 1);
    }
  }

  lemma CNameStep(s: seq<byte>, n: nat)
    requires Terminated(s, n) && n > 0
    ensures |s| > 0
    ensures s[0] == NUL ==> CName(s, n) == []
    ensures s[0] != NUL ==> Terminated(s[1..], n - 1) && CName(s, n) == [s[0]] + CName(s[1..], n - 1)
  {
  }

  method NameLength(s: seq<byte>) returns (len: nat)
    requires Terminated(s, MAX_NAME_LENGTH)
    ensures len == |CName(s, MAX_NAME_LENGTH)|
  {
    hide CName;
    hide Terminated;
    len := 0;
    CNameStep(s, MAX_NAME_LENGTH);
    assert s[0..] == s;
    while s[len] != NUL
      invariant len < MAX_NAME_LENGTH && len < |s|
      invariant Terminated(s[len..], MAX_NAME_LENGTH - len)
      invariant |CName(s, MAX_NAME_LENGTH)| == len + |CName(s[len..], MAX_NAME_LENGTH - len)|
      decreases MAX_NAME_LENGTH - len
    {
      CNameStep(s[len..], MAX_NAME_LENGTH - len);
      assert s[len..][1..] == s[len + 1..];
      len := len + 1;
      if len == MAX_NAME_LENGTH {
        NamesEnd(s[len..], s[len..]);
        return;
      }
      CNameStep(s[len..], MAX_NAME_LENGTH - len);
    }
    CNameStep(s[len..], MAX_NAME_LENGTH - len);
  }

  // ---- the directory ----

  datatype Dentry = Dentry(name: seq<byte>, filetype: nat, inode: nat)

  function DentryAt(i: nat): nat {
    64 + 64 * i
  }

  ghost predicate HasDirectory(mem: Image) {
    HasBoot(mem) && DentryAt(Word(mem, 0)) <= |mem|
  }

  function DentryName(mem: Image, i: nat): seq<byte>
    requires HasDirectory(mem) && i < Word(mem, 0)
  {
    mem[DentryAt(i)..DentryAt(i) + MAX_NAME_LENGTH]
  }

  function EntryName(mem: Image, i: nat): seq<byte>
    requires HasDirectory(mem) && i < Word(mem, 0)
  {
    CName(DentryName(mem, i), MAX_NAME_LENGTH)
  }

  function EntryAt(mem: Image, i: nat): Dentry
    requires HasDirectory(mem) && i < Word(mem, 0)
  {
    Dentry(EntryName(mem, i), Word(mem, DentryAt(i) + 32), Word(mem, DentryAt(i) + 36))
  }

  /** read_dentry_by_index */
  method DentryByIndex(mem: Image, index: nat) returns (d: Option<Dentry>)
    requires HasDirectory(mem)
    ensures d == if index < Word(mem, 0) then Some(EntryAt(mem, index)) else None
  {
    if index >= Word(mem, 0) {
      return None;
    }
    var name := Strncpy(DentryName(mem, index));
    return Some(Dentry(name, Word(mem, DentryAt(index) + 32), Word(mem, DentryAt(index) + 36)));
  }

  /** strncpy of a 32-byte name field, without the padding. */
  method Strncpy(src: seq<byte>) returns (name: seq<byte>)
    requires Terminated(src, MAX_NAME_LENGTH)
    ensures name == CName(src, MAX_NAME_LENGTH)
  {
    var n := NameLength(src);
    CNamePrefix(src, MAX_NAME_LENGTH);
    return src[..n];
  }

  ghost predicate Listed(mem: Image, name: seq<byte>)
    requires HasDirectory(mem)
  {
    exists k :: 0 <= k < Word(mem, 0) && EntryName(mem, k) == name
  }

  /** read_dentry_by_name: the first entry whose name agrees in its first 32 bytes;
      the empty name is never found. */
  method DentryByName(mem: Image, fname: seq<byte>) returns (d: Option<Dentry>, ghost i: nat)
    requires HasDirectory(mem) && Terminated(fname, MAX_NAME_LENGTH)
    ensures d.Some? <==>
      CName(fname, MAX_NAME_LENGTH) != [] && Listed(mem, CName(fname, MAX_NAME_LENGTH))
    ensures d.Some? ==>
      && i < Word(mem, 0) && d == Some(EntryAt(mem, i)) && d.value.name == CName(fname, MAX_NAME_LENGTH)
      && forall k :: 0 <= k < i ==> EntryName(mem, k) != CName(fname, MAX_NAME_LENGTH)
  {
    hide CName;
    hide Word;
    i := 0;
    var length := NameLength(fname);
    if length == 0 {
      return None, 0;
    }
    var k := 0;
    while k < Word(mem, 0)
      invariant k <= Word(mem, 0)
      invariant forall m :: 0 <= m < k ==> EntryName(mem, m) != CName(fname, MAX_NAME_LENGTH)
    {
      var same := SameName(DentryName(mem, k), fname, MAX_NAME_LENGTH);
      if same {
        d := DentryByIndex(mem, k);
        return d, k;
      }
      k := k + 1;
    }
    return None, 0;
  }

  /** fs_dir_read: the entries' names one after the other, then 0. */
  method DirRead(mem: Image, file: File) returns (name: seq<byte>, n: nat, file': File)
    requires HasDirectory(mem)
    ensures file.pos < Word(mem, 0) ==>
      name == EntryName(mem, file.pos) && n == |name| && file' == file.(pos := file.pos + 1)
    ensures file.pos >= Word(mem, 0) ==> n == 0 && file' == file
  {
    var d := DentryByIndex(mem, file.pos);
    if d.None? {
      return [], 0, file;
    }
    return d.value.name, |d.value.name|, file.(pos := file.pos + 1);
  }

  /** n directory reads in a row return the names from the position on, in order, and
      after the last entry nothing, however often they are repeated. */
  method DirReads(mem: Image, file: File, n: nat) returns (names: seq<seq<byte>>, file': File)
    requires HasDirectory(mem)
    ensures |names| == n
    ensures forall i :: 0 <= i < n ==> names[i] == NameFrom(mem, file.pos + i)
    ensures file' == file.(pos := DirPos(Word(mem, 0), file.pos, n))
  {
    hide EntryName;
    hide Word;
    names, file' := [], file;
    for i := 0 to n
      invariant |names| == i
      invariant forall k :: 0 <= k < i ==> names[k] == NameFrom(mem, file.pos + k)
      invariant file' == file.(pos := DirPos(Word(mem, 0), file.pos, i))
    {
      var name, length;
      name, length, file' := DirRead(mem, file');
      names := names + [if length == 0 then [] else name];
      assert names[i] == NameFrom(mem, file.pos + i);
    }
  }

  /** The name of entry i, if there is one. */
  function NameFrom(mem: Image, i: nat): seq<byte>
    requires HasDirectory(mem)
  {
    if i < Word(mem, 0) then EntryName(mem, i) else []
  }

  function DirPos(count: nat, pos: nat, n: nat): nat {
    if pos + n <= count then pos + n else if pos <= count then count else pos
  }

  /** An image without inodes of which inode 0 is read all the same: the number equal
      to the count is let through. */
  method CountIsAccepted() returns (n: nat)
    ensures n == 1
  {
    var mem := seq(3 * BLOCK_SIZE, i => if i == BLOCK_SIZE then 1 else 0);
    assert InodeCount(mem) == 0 && FileSize(mem, 0) == 1;
    var buf := new byte[1];
    ReadLenExact(1, 0, 1);
    n := ReadData(mem, 0, 0, buf, 1);
  }
}
