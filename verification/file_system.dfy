/** The read-only file system: the image that the tool lays out and what the kernel reads back. */
module FileSystem {
  import opened Words

  const BLOCK_SIZE := 512
  const FS_NAME_LEN := 32
  const ENTRY_SIZE := 40
  const HEADER_SIZE := 48
  const MAGIC: seq<Byte> := [0x73, 0x70, 0x66, 0x73]

  type Name = s: seq<Byte> | |s| == FS_NAME_LEN witness seq(FS_NAME_LEN, _ => 0)

  /** A file to be put into the image, with its name as the directory holds it. */
  datatype Source = Source(name: Name, data: seq<Byte>)

  function Zeros(n: nat): (z: seq<Byte>)
    ensures |z| == n
  {
    seq(n, _ => 0)
  }

  /** The next block boundary, block by block; `RoundUpIs` is the formula of the tool. */
  function RoundUp(x: nat): (r: nat)
    ensures x <= r < x + BLOCK_SIZE
  {
    if x == 0 then 0 else if x <= BLOCK_SIZE then BLOCK_SIZE else BLOCK_SIZE + RoundUp(x - BLOCK_SIZE)
  }

  lemma {:induction false} RoundUpIs(x: nat)
    ensures RoundUp(x) == (x + BLOCK_SIZE - 1) / BLOCK_SIZE * BLOCK_SIZE && RoundUp(x) % BLOCK_SIZE == 0
  {
    if x > BLOCK_SIZE {
      RoundUpIs(x - BLOCK_SIZE);
    }
  }

  // ------------------------------------------------------------------ layout

  function HeaderSize(n: nat): nat
    requires n > 0
  {
    HEADER_SIZE + ENTRY_SIZE * (n - 1)
  }

  /** Files start at block boundaries, one after the other behind the directory. */
  function Start(files: seq<Source>, i: nat): (s: nat)
    requires 0 < |files| && i <= |files|
    ensures HeaderSize(|files|) <= s
  {
    if i == 0 then RoundUp(HeaderSize(|files|)) else RoundUp(Start(files, i - 1) + |files[i - 1].data|)
  }

  predicate Fits(files: seq<Source>) {
    0 < |files| && Start(files, |files|) <= 0x8000_0000
  }

  lemma {:induction false} StartsAscend(files: seq<Source>, i: nat, j: nat)
    requires 0 < |files| && i < j <= |files|
    ensures Start(files, i) + |files[i].data| <= Start(files, j)
    decreases j
  {
    if i + 1 < j {
      StartsAscend(files, i, j - 1);
    }
  }

  function Entry(files: seq<Source>, i: nat): (e: seq<Byte>)
    requires Fits(files) && i < |files|
    ensures |e| == ENTRY_SIZE
  {
    StartsAscend(files, i, |files|);
    Long(Start(files, i)) + Long(|files[i].data|) + files[i].name
  }

  function Entries(files: seq<Source>, n: nat): (e: seq<Byte>)
    requires Fits(files) && n <= |files|
    ensures |e| == ENTRY_SIZE * n
  {
    if n == 0 then [] else Entries(files, n - 1) + Entry(files, n - 1)
  }

  lemma {:induction false} StartAtLeast(files: seq<Source>, i: nat)
    requires 0 < |files| && i <= |files|
    ensures Start(files, i) >= |files|
  {
  }

  function Header(files: seq<Source>): (h: seq<Byte>)
    requires Fits(files)
    ensures |h| == HeaderSize(|files|)
  {
    StartAtLeast(files, |files|);
    MAGIC + Long(|files|) + Entries(files, |files|)
  }

  /** Writing at a place behind the end fills the gap with zeroes. */
  function Appended(image: seq<Byte>, at: nat, data: seq<Byte>): seq<Byte>
    requires |image| <= at
  {
    image + Zeros(at - |image|) + data
  }

  function Padded(image: seq<Byte>): seq<Byte> {
    image + Zeros(RoundUp(|image|) - |image|)
  }

  /** The image with the first `n` files in it. An empty file writes nothing. */
  function ImageOf(files: seq<Source>, n: nat): (image: seq<Byte>)
    requires Fits(files) && n <= |files|
    ensures |image| <= Start(files, n)
  {
    if n == 0 then Header(files)
    else if files[n - 1].data == [] then
      StartsAscend(files, n - 1, n);
      ImageOf(files, n - 1)
    else Padded(Appended(ImageOf(files, n - 1), Start(files, n - 1), files[n - 1].data))
  }

  function Image(files: seq<Source>): seq<Byte>
    requires Fits(files)
  {
    ImageOf(files, |files|)
  }

  // --------------------------------------------------- what the image contains

  lemma PaddedHolds(image: seq<Byte>, at: nat, data: seq<Byte>)
    requires |image| <= at
    ensures var p := Padded(Appended(image, at, data));
            |p| == RoundUp(at + |data|) && p[at..at + |data|] == data && image <= p
  {
    var a := Appended(image, at, data);
    assert |a| == at + |data| && a[at..at + |data|] == data && a[..|image|] == image;
    PrefixHolds(a, Zeros(RoundUp(|a|) - |a|), at, at + |data|);
    PrefixHolds(a, Zeros(RoundUp(|a|) - |a|), 0, |image|);
  }

  lemma PrefixHolds(s: seq<Byte>, t: seq<Byte>, i: nat, j: nat)
    requires i <= j <= |s|
    ensures (s + t)[i..j] == s[i..j]
  {
  }

  lemma {:induction false} ImageGrows(files: seq<Source>, m: nat, n: nat)
    requires Fits(files) && m <= n <= |files|
    ensures ImageOf(files, m) <= ImageOf(files, n)
    decreases n
  {
    if m < n {
      ImageGrows(files, m, n - 1);
      if files[n - 1].data != [] {
        PaddedHolds(ImageOf(files, n - 1), Start(files, n - 1), files[n - 1].data);
      }
    }
  }

  lemma SliceOfPrefix(p: seq<Byte>, s: seq<Byte>, i: nat, j: nat)
    requires p <= s && i <= j <= |p|
    ensures s[i..j] == p[i..j]
  {
  }

  /** The data lie in the image at `at`, with whole blocks. */
  ghost predicate Holds(image: seq<Byte>, at: nat, data: seq<Byte>) {
    RoundUp(at + |data|) <= |image| && image[at..at + |data|] == data
  }

  lemma NextImage(files: seq<Source>, i: nat)
    requires Fits(files) && i < |files| && files[i].data != []
    ensures ImageOf(files, i + 1) == Padded(Appended(ImageOf(files, i), Start(files, i), files[i].data))
  {
  }

  lemma PartHolds(part: seq<Byte>, before: seq<Byte>, at: nat, data: seq<Byte>, whole: seq<Byte>)
    requires |before| <= at && part == Padded(Appended(before, at, data)) && part <= whole
    ensures Holds(whole, at, data)
  {
    PaddedHolds(before, at, data);
    SliceOfPrefix(part, whole, at, at + |data|);
  }

  /** Every file is in the image at its place, with whole blocks. */
  lemma FileInImage(files: seq<Source>, i: nat)
    requires Fits(files) && i < |files| && files[i].data != []
    ensures Holds(Image(files), Start(files, i), files[i].data)
  {
    NextImage(files, i);
    ImageGrows(files, i + 1, |files|);
    PartHolds(ImageOf(files, i + 1), ImageOf(files, i), Start(files, i), files[i].data, Image(files));
  }

  lemma HeaderInImage(files: seq<Source>)
    requires Fits(files)
    ensures HeaderSize(|files|) <= |Image(files)| && Image(files)[..HeaderSize(|files|)] == Header(files)
    ensures Image(files)[..4] == ['s' as Byte, 'p' as Byte, 'f' as Byte, 's' as Byte]
  {
    ImageGrows(files, 0, |files|);
  }

  lemma {:induction false} ImageWithout(files: seq<Source>, n: nat)
    requires Fits(files) && n <= |files| && forall i :: 0 <= i < n ==> files[i].data == []
    ensures ImageOf(files, n) == Header(files)
  {
    if n > 0 {
      ImageWithout(files, n - 1);
    }
  }

  ghost predicate SomeData(files: seq<Source>) {
    exists i :: 0 <= i < |files| && files[i].data != []
  }

  ghost predicate HasDirectory(files: seq<Source>) {
    0 < |files| && (SomeData(files) || HeaderSize(|files|) % BLOCK_SIZE == 0)
  }

  lemma DataReachesPastDirectory(files: seq<Source>, i: nat)
    requires Fits(files) && i < |files| && files[i].data != []
    ensures RoundUp(HeaderSize(|files|)) <= |Image(files)|
  {
    FileInImage(files, i);
    assert Start(files, 0) == RoundUp(HeaderSize(|files|));
    if i > 0 {
      StartsAscend(files, 0, i);
    }
  }

  /** The directory can be read from the image block by block unless all files are empty and it
      does not end at a block boundary by chance. */
  lemma DirectoryReadable(files: seq<Source>)
    requires Fits(files)
    ensures RoundUp(HeaderSize(|files|)) <= |Image(files)| <==> HasDirectory(files)
  {
    if i :| 0 <= i < |files| && files[i].data != [] {
      DataReachesPastDirectory(files, i);
    } else {
      ImageWithout(files, |files|);
      assert |Image(files)| == HeaderSize(|files|);
      Rounded(HeaderSize(|files|));
    }
  }

  lemma Rounded(x: nat)
    ensures RoundUp(x) == x <==> x % BLOCK_SIZE == 0
  {
    RoundUpIs(x);
  }

  // ------------------------------------------------------------- the directory

  datatype Handle = Handle(base: Word, length: Word)

  function EntryCount(directory: seq<Byte>): Word
    requires |directory| >= 8
  {
    FromLong(directory[4..8])
  }

  /** The characters up to the first zero. */
  function CString(s: seq<Byte>): (c: seq<Byte>)
    ensures c <= s && 0 !in c && (|c| < |s| ==> s[|c|] == 0)
  {
    if s == [] || s[0] == 0 then [] else [s[0]] + CString(s[1..])
  }

  function EntryName(directory: seq<Byte>, i: nat): seq<Byte>
    requires |directory| >= 8 + ENTRY_SIZE * (i + 1)
  {
    CString(directory[8 + ENTRY_SIZE * i + 8..8 + ENTRY_SIZE * (i + 1)])
  }

  function EntryHandle(directory: seq<Byte>, i: nat): Handle
    requires |directory| >= 8 + ENTRY_SIZE * (i + 1)
  {
    var at := 8 + ENTRY_SIZE * i;
    Handle(FromLong(directory[at..at + 4]), FromLong(directory[at + 4..at + 8]))
  }

  lemma {:induction false} EntryAt(files: seq<Source>, n: nat, i: nat)
    requires Fits(files) && i < n <= |files|
    ensures ENTRY_SIZE * (i + 1) <= |Entries(files, n)|
    ensures Entries(files, n)[ENTRY_SIZE * i..ENTRY_SIZE * (i + 1)] == Entry(files, i)
    decreases n
  {
    if i + 1 < n {
      EntryAt(files, n - 1, i);
      var e := Entries(files, n - 1);
      assert (e + Entry(files, n - 1))[ENTRY_SIZE * i..ENTRY_SIZE * (i + 1)] == e[ENTRY_SIZE * i..ENTRY_SIZE * (i + 1)];
    }
  }

  lemma CountRead(files: seq<Source>, directory: seq<Byte>)
    requires Fits(files) && Header(files) <= directory
    ensures directory[..4] == MAGIC && EntryCount(directory) == |files| && |directory| >= 8 + ENTRY_SIZE * |files|
  {
    StartAtLeast(files, |files|);
    var h := Header(files);
    assert h[..4] == MAGIC && h[4..8] == Long(|files|);
    SliceOfPrefix(h, directory, 0, 4);
    SliceOfPrefix(h, directory, 4, 8);
    LongRoundTrip(|files|);
  }

  lemma EntryInHeader(files: seq<Source>, i: nat)
    requires Fits(files) && i < |files|
    ensures 8 + ENTRY_SIZE * (i + 1) <= |Header(files)|
    ensures Header(files)[8 + ENTRY_SIZE * i..8 + ENTRY_SIZE * (i + 1)] == Entry(files, i)
  {
    StartAtLeast(files, |files|);
    EntryAt(files, |files|, i);
    var front, e := MAGIC + Long(|files|), Entries(files, |files|);
    assert Header(files) == front + e;
    BehindFront(front, e, ENTRY_SIZE * i, ENTRY_SIZE * (i + 1));
  }

  lemma BehindFront(front: seq<Byte>, e: seq<Byte>, i: nat, j: nat)
    requires i <= j <= |e|
    ensures (front + e)[|front| + i..|front| + j] == e[i..j]
  {
  }

  lemma SliceInSlice(s: seq<Byte>, i: nat, j: nat, k: nat, l: nat)
    requires i <= j <= |s| && k <= l <= j - i
    ensures s[i + k..i + l] == s[i..j][k..l]
  {
    forall x | 0 <= x < l - k ensures s[i + k..i + l][x] == s[i..j][k..l][x] {
    }
  }

  function HandleOf(files: seq<Source>, i: nat): Handle
    requires Fits(files) && i < |files|
  {
    StartsAscend(files, i, |files|);
    Handle(Start(files, i), |files[i].data|)
  }

  lemma EntryParts(files: seq<Source>, i: nat)
    requires Fits(files) && i < |files|
    ensures var e := Entry(files, i);
            && e[8..ENTRY_SIZE] == files[i].name
            && FromLong(e[0..4]) == HandleOf(files, i).base && FromLong(e[4..8]) == HandleOf(files, i).length
  {
    var h, e := HandleOf(files, i), Entry(files, i);
    assert e == Long(h.base) + Long(h.length) + files[i].name;
    assert e[0..4] == Long(h.base) && e[4..8] == Long(h.length);
    LongRoundTrip(h.base);
    LongRoundTrip(h.length);
  }

  lemma EntryDecoded(directory: seq<Byte>, i: nat, e: seq<Byte>)
    requires |directory| >= 8 + ENTRY_SIZE * (i + 1) && directory[8 + ENTRY_SIZE * i..8 + ENTRY_SIZE * (i + 1)] == e
    ensures EntryName(directory, i) == CString(e[8..ENTRY_SIZE])
    ensures EntryHandle(directory, i) == Handle(FromLong(e[0..4]), FromLong(e[4..8]))
  {
    var at := 8 + ENTRY_SIZE * i;
    SliceInSlice(directory, at, at + ENTRY_SIZE, 0, 4);
    SliceInSlice(directory, at, at + ENTRY_SIZE, 4, 8);
    SliceInSlice(directory, at, at + ENTRY_SIZE, 8, ENTRY_SIZE);
  }

  /** The kernel finds in the directory what the tool put there. */
  lemma DirectoryRead(files: seq<Source>, directory: seq<Byte>, i: nat)
    requires Fits(files) && Header(files) <= directory && i < |files| && |directory| >= 8 + ENTRY_SIZE * |files|
    ensures EntryName(directory, i) == CString(files[i].name) && EntryHandle(directory, i) == HandleOf(files, i)
  {
    EntryInHeader(files, i);
    var e := directory[8 + ENTRY_SIZE * i..8 + ENTRY_SIZE * (i + 1)];
    assert e == Entry(files, i) by {
      SliceOfPrefix(Header(files), directory, 8 + ENTRY_SIZE * i, 8 + ENTRY_SIZE * (i + 1));
    }
    EntryDecoded(directory, i, e);
    EntryParts(files, i);
  }

  // ------------------------------------------------------------------ reading

  /** An unsigned word taken as a signed one. */
  function Signed(x: Word): int {
    if x < 0x8000_0000 then x else x - WORDS
  }

  /** How many bytes a read delivers, by the machine's arithmetic. */
  function Clipped(length: Word, offset: Word, size: int): int {
    if (offset + size) % WORDS > length then Signed((length - offset) % WORDS) else size
  }

  /** How many it should deliver. */
  function Available(length: nat, offset: nat, size: nat): nat {
    if offset >= length then 0 else if size < length - offset then size else length - offset
  }

  function AtLeastZero(n: int): nat {
    if n < 0 then 0 else n
  }

  /** The sum does not wrap below the end of the file, and a read past the end does not start so
      far behind it that the difference looks positive. A request for a negative number of bytes
      whose sum lies past the end is taken for one of all that is left. */
  predicate ClipIsRight(length: Word, offset: Word, size: int) {
    if (offset + size) % WORDS <= length then size < 0 || offset + size < WORDS
    else if size < 0 then 0 <= offset - length <= 0x8000_0000 || length - offset >= 0x8000_0000
    else offset <= length + 0x8000_0000
  }

  /** The two agree exactly when the arithmetic is right. */
  lemma ClipExact(length: Word, offset: Word, size: int)
    requires -0x8000_0000 <= size < 0x8000_0000
    ensures AtLeastZero(Clipped(length, offset, size)) == Available(length, offset, AtLeastZero(size)) <==>
            ClipIsRight(length, offset, size)
  {
  }

  /** When the arithmetic is right, what lies on the disk at the handle's place is the part of the
      file that was asked for, and whole blocks of it are there to be read. */
  lemma FileRestored(files: seq<Source>, i: nat, offset: Word, size: nat)
    requires Fits(files) && i < |files| && size < 0x8000_0000
    requires AtLeastZero(Clipped(HandleOf(files, i).length, offset, size)) == Available(|files[i].data|, offset, size) > 0
    ensures var n, at := Available(|files[i].data|, offset, size), HandleOf(files, i).base + offset;
            && RoundUp(at + n) <= |Image(files)|
            && Image(files)[at..at + n] == files[i].data[offset..offset + n]
  {
    var n, h, d := Available(|files[i].data|, offset, size), HandleOf(files, i), files[i].data;
    FileInImage(files, i);
    RoundUpMono(h.base + offset + n, h.base + |d|);
    SliceInSlice(Image(files), h.base, h.base + |d|, offset, offset + n);
  }

  lemma RoundUpMono(x: nat, y: nat)
    requires x <= y
    ensures RoundUp(x) <= RoundUp(y)
  {
    RoundUpIs(x);
    RoundUpIs(y);
  }

  /** An empty directory still has the block that says so. */
  function DirectoryBlocks(count: nat): (blocks: nat)
    ensures blocks > 0
  {
    (ENTRY_SIZE * (count - 1) + HEADER_SIZE + BLOCK_SIZE - 1) / BLOCK_SIZE
  }
}
