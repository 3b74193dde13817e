/** The tool that writes the image, and the kernel's reader of directory and files. */
module FsProgram {
  import opened Words
  import opened Wrappers
  import opened FileSystem
  import Card = SdCard
  import Sd = SdProgram

  // ------------------------------------------------------------ the image tool

  /** A file that is being written. */
  class OutputFile {
    var bytes: seq<Byte>
    var position: nat

    constructor ()
      ensures bytes == [] && position == 0
    {
      bytes, position := [], 0;
    }

    method Seek(at: nat)
      modifies this`position
      ensures position == at
    {
      position := at;
    }

    /** Writing behind the end leaves zeroes in between. */
    method Write(data: seq<Byte>)
      requires position >= |bytes|
      modifies this
      ensures bytes == Appended(old(bytes), old(position), data) && position == old(position) + |data|
    {
      bytes := bytes + Zeros(position - |bytes|) + data;
      position := position + |data|;
    }
  }

  lemma EntryIs(files: seq<Source>, i: nat, start: Word, length: Word)
    requires Fits(files) && i < |files| && start == Start(files, i) && length == |files[i].data|
    ensures Entry(files, i) == Long(start) + Long(length) + files[i].name
    ensures Entries(files, i + 1) == Entries(files, i) + Entry(files, i)
    ensures Start(files, i + 1) == RoundUp(start + length)
  {
  }

  method BuildEntries(files: seq<Source>) returns (entries: seq<Byte>)
    requires Fits(files)
    ensures entries == Entries(files, |files|)
  {
    var fileOffset := RoundUp(HEADER_SIZE + ENTRY_SIZE * (|files| - 1));
    entries := [];
    for i := 0 to |files|
      invariant fileOffset == Start(files, i) && entries == Entries(files, i)
    {
      StartsAscend(files, i, |files|);
      var start, length := fileOffset, |files[i].data|;
      EntryIs(files, i, start, length);
      entries := entries + (Long(start) + Long(length) + files[i].name);
      fileOffset := RoundUp(start + length);
    }
  }

  method BuildDirectory(files: seq<Source>) returns (header: seq<Byte>)
    requires Fits(files)
    ensures header == Header(files)
  {
    var entries := BuildEntries(files);
    StartAtLeast(files, |files|);
    header := MAGIC + Long(|files|) + entries;
  }

  /** Copies a file in slices. */
  method CopyFile(out: OutputFile, data: seq<Byte>)
    requires |out.bytes| <= out.position
    modifies out
    ensures out.bytes == (if data == [] then old(out.bytes) else Appended(old(out.bytes), old(out.position), data))
    ensures out.position == old(out.position) + |data|
  {
    var copied := 0;
    while copied < |data|
      invariant 0 <= copied <= |data| && out.position == old(out.position) + copied
      invariant out.bytes == if copied == 0 then old(out.bytes) else Appended(old(out.bytes), old(out.position), data[..copied])
    {
      var slice := if |data| - copied < 0x4000 then |data| - copied else 0x4000;
      ghost var before := out.bytes;
      out.Write(data[copied..copied + slice]);
      AppendedMore(old(out.bytes), old(out.position), data, copied, copied + slice);
      copied := copied + slice;
    }
    assert data[..|data|] == data;
  }

  lemma AppendedMore(image: seq<Byte>, at: nat, data: seq<Byte>, i: nat, j: nat)
    requires |image| <= at && i < j <= |data|
    ensures Appended(if i == 0 then image else Appended(image, at, data[..i]), at + i, data[i..j]) == Appended(image, at, data[..j])
  {
    assert data[..i] + data[i..j] == data[..j];
    if i > 0 {
      var a := Appended(image, at, data[..i]);
      assert |a| == at + i;
      assert a + Zeros(0) == a;
    }
  }

  /** Fills the last block with zeroes. */
  method PadToBlock(out: OutputFile)
    requires |out.bytes| <= out.position && (out.position % BLOCK_SIZE != 0 ==> |out.bytes| == out.position)
    modifies out
    ensures out.bytes == if old(out.position) % BLOCK_SIZE == 0 then old(out.bytes) else Padded(old(out.bytes))
  {
    var slice := BLOCK_SIZE - out.position % BLOCK_SIZE;
    RoundUpIs(out.position);
    if slice != BLOCK_SIZE {
      assert RoundUp(out.position) - out.position == slice;
      assert out.bytes + Zeros(0) == out.bytes;
      out.Write(Zeros(slice));
    }
  }

  lemma StartAligned(files: seq<Source>, i: nat)
    requires 0 < |files| && i <= |files|
    ensures Start(files, i) % BLOCK_SIZE == 0
  {
    if i == 0 {
      RoundUpIs(HeaderSize(|files|));
    } else {
      RoundUpIs(Start(files, i - 1) + |files[i - 1].data|);
    }
  }

  lemma PaddedAlready(image: seq<Byte>)
    requires |image| % BLOCK_SIZE == 0
    ensures Padded(image) == image
  {
    RoundUpIs(|image|);
    assert image + Zeros(0) == image;
  }

  method AddFile(files: seq<Source>, i: nat, out: OutputFile)
    requires Fits(files) && i < |files| && out.bytes == ImageOf(files, i)
    modifies out
    ensures out.bytes == ImageOf(files, i + 1)
  {
    out.Seek(Start(files, i));
    CopyFile(out, files[i].data);
    StartAligned(files, i);
    if files[i].data != [] {
      NextImage(files, i);
      if out.position % BLOCK_SIZE == 0 {
        PaddedAlready(out.bytes);
      }
    }
    PadToBlock(out);
  }

  /** Writes the directory, and then every file at its place. */
  method MakeImage(files: seq<Source>, out: OutputFile)
    requires Fits(files) && out.bytes == [] && out.position == 0
    modifies out
    ensures out.bytes == Image(files)
  {
    var header := BuildDirectory(files);
    out.Write(header);
    assert out.bytes == header;
    for i := 0 to |files|
      invariant out.bytes == ImageOf(files, i)
    {
      AddFile(files, i, out);
    }
  }

  // ----------------------------------------------------------------- the kernel

  class FileReader {
    const driver: Sd.SdDriver
    var directory: seq<Byte>

    constructor (d: Sd.SdDriver)
      ensures driver == d
    {
      driver := d;
      directory := [];
    }

    /** The card is ready and what is on it can be addressed. */
    ghost predicate Ready(disk: seq<Byte>)
      reads this, driver, driver.card
    {
      Sd.Usable(driver.card.View(), disk) && |disk| <= 0x8000_0000
    }

    method ReadBlock(block: Word, ptr: array<Byte>, at: nat) returns (result: int)
      requires Ready(driver.card.disk) && at + BLOCK_SIZE <= ptr.Length && (block + 1) * BLOCK_SIZE <= |driver.card.disk|
      modifies driver.card, ptr
      ensures Ready(old(driver.card.disk)) && result == BLOCK_SIZE
      ensures forall i :: 0 <= i < ptr.Length ==>
                ptr[i] == if at <= i < at + BLOCK_SIZE then old(driver.card.disk)[block * BLOCK_SIZE + (i - at)] else old(ptr[i])
    {
      ghost var was, disk := ptr[..], driver.card.disk;
      assert block * BLOCK_SIZE + BLOCK_SIZE == (block + 1) * BLOCK_SIZE;
      Card.RequestedBlock(block);
      result := driver.ReadSdDevice(block, ptr, at);
      PartsCopied(ptr[..], was, at, disk[block * BLOCK_SIZE..block * BLOCK_SIZE + BLOCK_SIZE]);
    }

    /** Reads the directory into memory, if there is one on the disk. */
    method InitFileSystem() returns (ok: bool)
      requires Ready(driver.card.disk) && |driver.card.disk| >= BLOCK_SIZE
      requires driver.card.disk[..4] == MAGIC ==>
                 DirectoryBlocks(EntryCount(driver.card.disk)) * BLOCK_SIZE <= |driver.card.disk|
      modifies this`directory, driver.card
      ensures Ready(old(driver.card.disk)) && ok == (old(driver.card.disk)[..4] == MAGIC)
      ensures ok ==> directory == old(driver.card.disk)[..DirectoryBlocks(EntryCount(old(driver.card.disk))) * BLOCK_SIZE]
    {
      var superBlock := ReadSuperBlock();
      if superBlock[..4] != MAGIC {
        return false;
      }
      var count: int := FromLong(superBlock[4..8]);
      var blocks := (ENTRY_SIZE * (count - 1) + HEADER_SIZE + BLOCK_SIZE - 1) / BLOCK_SIZE;
      directory := ReadDirectory(superBlock, blocks);
      ok := true;
    }

    method ReadSuperBlock() returns (superBlock: seq<Byte>)
      requires Ready(driver.card.disk) && |driver.card.disk| >= BLOCK_SIZE
      modifies driver.card
      ensures Ready(old(driver.card.disk)) && superBlock == old(driver.card.disk)[..BLOCK_SIZE]
      ensures superBlock[..4] == old(driver.card.disk)[..4] && superBlock[4..8] == old(driver.card.disk)[4..8]
    {
      var buffer := new Byte[BLOCK_SIZE](_ => 0);
      var result := ReadBlock(0, buffer, 0);
      superBlock := buffer[..];
    }

    method ReadDirectory(superBlock: seq<Byte>, blocks: nat) returns (content: seq<Byte>)
      requires Ready(driver.card.disk) && 0 < blocks && blocks * BLOCK_SIZE <= |driver.card.disk|
      requires superBlock == driver.card.disk[..BLOCK_SIZE]
      modifies driver.card
      ensures Ready(old(driver.card.disk)) && content == old(driver.card.disk)[..blocks * BLOCK_SIZE]
    {
      var buffer := new Byte[blocks * BLOCK_SIZE](i => if 0 <= i < |superBlock| then superBlock[i] else 0);
      ReadRest(buffer, blocks);
      content := buffer[..];
    }

    /** Reads the blocks of the directory after the first. */
    method ReadRest(buffer: array<Byte>, blocks: nat)
      requires Ready(driver.card.disk) && 0 < blocks && buffer.Length == blocks * BLOCK_SIZE <= |driver.card.disk|
      requires forall j :: 0 <= j < BLOCK_SIZE ==> buffer[j] == driver.card.disk[j]
      modifies driver.card, buffer
      ensures Ready(old(driver.card.disk)) && buffer[..] == old(driver.card.disk)[..blocks * BLOCK_SIZE]
    {
      ghost var disk := driver.card.disk;
      for block := 1 to blocks
        invariant Ready(disk) && driver.card.disk == disk
        invariant forall j :: 0 <= j < block * BLOCK_SIZE ==> buffer[j] == disk[j]
      {
        BlockWithin(block, blocks);
        var result := ReadBlock(block, buffer, block * BLOCK_SIZE);
      }
    }

    /** The handle of the first file of that name. */
    method OpenFile(path: seq<Byte>) returns (handle: Option<Handle>)
      requires |directory| >= 8 && |directory| >= 8 + ENTRY_SIZE * EntryCount(directory)
      ensures handle == FindEntry(directory, path, 0)
    {
      var i := 0;
      while i < EntryCount(directory)
        invariant 0 <= i <= EntryCount(directory)
        invariant FindEntry(directory, path, 0) == FindEntry(directory, path, i)
      {
        if EntryName(directory, i) == path {
          return Some(EntryHandle(directory, i));
        }
        i := i + 1;
      }
      return None;
    }

    /** Reads part of a file: whole blocks straight into memory, and others by way of a buffer. */
    method ReadFile(handle: Handle, offset: Word, out: array<Byte>, size: int) returns (total: int)
      requires Ready(driver.card.disk) && -0x8000_0000 <= size < 0x8000_0000
      requires var want := AtLeastZero(Clipped(handle.length, offset, size));
               want > 0 ==> RoundUp(handle.base + offset + want) <= |driver.card.disk| && want <= out.Length
      modifies driver.card, out
      ensures Ready(old(driver.card.disk)) && total == AtLeastZero(Clipped(handle.length, offset, size))
      ensures forall i :: 0 <= i < out.Length ==>
                out[i] == if i < total then old(driver.card.disk)[handle.base + offset + i] else old(out[i])
    {
      var toCopy: int := size;
      if (offset + size) % WORDS > handle.length {
        toCopy := Signed((handle.length - offset) % WORDS);
      }
      if toCopy <= 0 {
        return 0;
      }
      total := ReadSlices(handle.base + offset, out, toCopy);
    }

    method ReadSlices(from: nat, out: array<Byte>, toCopy: nat) returns (total: int)
      requires Ready(driver.card.disk) && RoundUp(from + toCopy) <= |driver.card.disk| && toCopy <= out.Length
      modifies driver.card, out
      ensures Ready(old(driver.card.disk)) && total == toCopy
      ensures forall i :: 0 <= i < out.Length ==> out[i] == if i < total then old(driver.card.disk)[from + i] else old(out[i])
    {
      ghost var disk := driver.card.disk;
      var tmpBlock := new Byte[BLOCK_SIZE](_ => 0);
      total := 0;
      var offsetInBlock: nat, block: nat := from % BLOCK_SIZE, from / BLOCK_SIZE;
      while total < toCopy
        invariant 0 <= total <= toCopy && Ready(disk) && driver.card.disk == disk
        invariant total < toCopy ==> offsetInBlock < BLOCK_SIZE && block * BLOCK_SIZE + offsetInBlock == from + total
        invariant forall i :: 0 <= i < out.Length ==> out[i] == if i < total then disk[from + i] else old(out[i])
        decreases toCopy - total
      {
        SliceOnDisk(block, offsetInBlock, from + toCopy);
        if offsetInBlock == 0 && toCopy - total >= BLOCK_SIZE {
          var result := ReadBlock(block, out, total);
          if result < 0 {
            return -1;
          }
          total := total + BLOCK_SIZE;
          block := block + 1;
        } else {
          var result := ReadBlock(block, tmpBlock, 0);
          if result < 0 {
            return -1;
          }
          var slice := BLOCK_SIZE - offsetInBlock;
          if slice > toCopy - total {
            slice := toCopy - total;
          }
          CopySlice(out, total, tmpBlock, offsetInBlock, slice);
          total := total + slice;
          offsetInBlock := 0;
          block := block + 1;
        }
      }
    }
  }

  method CopySlice(out: array<Byte>, at: nat, source: array<Byte>, from: nat, n: nat)
    requires at + n <= out.Length && from + n <= source.Length && out != source
    modifies out
    ensures forall i :: 0 <= i < out.Length ==> out[i] == if at <= i < at + n then source[from + (i - at)] else old(out[i])
  {
    for k := 0 to n
      invariant forall i :: 0 <= i < out.Length ==> out[i] == if at <= i < at + k then source[from + (i - at)] else old(out[i])
    {
      out[at + k] := source[from + k];
    }
  }

  function FindEntry(directory: seq<Byte>, path: seq<Byte>, i: nat): Option<Handle>
    requires |directory| >= 8 && |directory| >= 8 + ENTRY_SIZE * EntryCount(directory)
    decreases EntryCount(directory) - i
  {
    if i >= EntryCount(directory) then None
    else if EntryName(directory, i) == path then Some(EntryHandle(directory, i))
    else FindEntry(directory, path, i + 1)
  }

  lemma PartsCopied(now: seq<Byte>, was: seq<Byte>, at: nat, data: seq<Byte>)
    requires at + |data| <= |now| == |was| && now[at..at + |data|] == data
    requires now[..at] == was[..at] && now[at + |data|..] == was[at + |data|..]
    ensures forall i :: 0 <= i < |now| ==> now[i] == if at <= i < at + |data| then data[i - at] else was[i]
  {
    forall i | 0 <= i < |now| ensures now[i] == if at <= i < at + |data| then data[i - at] else was[i] {
      if i < at {
        assert now[..at][i] == was[..at][i];
      } else if i < at + |data| {
        assert now[at..at + |data|][i - at] == data[i - at];
      } else {
        assert now[at + |data|..][i - at - |data|] == was[at + |data|..][i - at - |data|];
      }
    }
  }

  lemma BlockWithin(block: nat, blocks: nat)
    requires block < blocks
    ensures (block + 1) * BLOCK_SIZE <= blocks * BLOCK_SIZE
  {
  }

  lemma SliceOnDisk(block: nat, offset: nat, end: nat)
    requires block * BLOCK_SIZE + offset < end
    ensures (block + 1) * BLOCK_SIZE <= RoundUp(end)
  {
    RoundUpIs(end);
  }

  /** The kernel, on a disk that the tool made, opens the file of a name and finds its handle. */
  lemma {:induction false} NameFound(files: seq<Source>, directory: seq<Byte>, i: nat, k: nat)
    requires Fits(files) && Header(files) <= directory && k <= i < |files| && |directory| >= 8 + ENTRY_SIZE * |files|
    requires forall j :: 0 <= j < i ==> CString(files[j].name) != CString(files[i].name)
    ensures EntryCount(directory) == |files| && FindEntry(directory, CString(files[i].name), k) == Some(HandleOf(files, i))
    decreases i - k
  {
    CountRead(files, directory);
    DirectoryRead(files, directory, k);
    if k < i {
      NameFound(files, directory, i, k + 1);
    }
  }

  /** The announced directory is on the disk. */
  ghost predicate Mountable(disk: seq<Byte>) {
    && BLOCK_SIZE <= |disk| <= 0x8000_0000 && disk[..4] == MAGIC
    && DirectoryBlocks(EntryCount(disk)) * BLOCK_SIZE <= |disk|
  }

  lemma HeaderFits(n: nat)
    requires n > 0
    ensures BLOCK_SIZE <= DirectoryBlocks(n) * BLOCK_SIZE == RoundUp(HeaderSize(n)) && HeaderSize(n) <= RoundUp(HeaderSize(n))
  {
    RoundUpIs(HeaderSize(n));
  }

  lemma HeaderIsPrefix(files: seq<Source>, disk: seq<Byte>)
    requires Fits(files) && disk == Image(files)
    ensures Header(files) <= disk && |disk| <= 0x8000_0000
  {
    HeaderInImage(files);
  }

  lemma ImageMounts(files: seq<Source>, disk: seq<Byte>)
    requires Fits(files) && HasDirectory(files) && disk == Image(files)
    ensures Mountable(disk) && EntryCount(disk) == |files|
    ensures Header(files) <= disk[..DirectoryBlocks(|files|) * BLOCK_SIZE]
  {
    HeaderIsPrefix(files, disk);
    CountRead(files, disk);
    DirectoryReadable(files);
    HeaderFits(|files|);
  }

  /** Wakes the card up and reads the directory. */
  method Mount(reader: FileReader) returns (ok: bool)
    requires reader.driver.card.View() == Card.Fresh(reader.driver.card.disk, reader.driver.card.random)
    requires Mountable(reader.driver.card.disk)
    modifies reader`directory, reader.driver.card
    ensures ok && reader.Ready(old(reader.driver.card.disk))
    ensures var disk := old(reader.driver.card.disk); reader.directory == disk[..DirectoryBlocks(EntryCount(disk)) * BLOCK_SIZE]
  {
    ghost var disk := reader.driver.card.disk;
    var status := reader.driver.InitSdDevice();
    assert reader.Ready(disk);
    ok := reader.InitFileSystem();
  }

  /** What the kernel reads of a file that the tool put on the disk. */
  method ReadPart(reader: FileReader, ghost files: seq<Source>, ghost i: nat, handle: Handle,
                  offset: Word, out: array<Byte>, size: int) returns (total: int)
    requires Fits(files) && i < |files| && handle == HandleOf(files, i) && reader.Ready(Image(files))
    requires -0x8000_0000 <= size < 0x8000_0000 && ClipIsRight(handle.length, offset, size)
    requires Available(|files[i].data|, offset, AtLeastZero(size)) <= out.Length
    modifies reader.driver.card, out
    ensures total == Available(|files[i].data|, offset, AtLeastZero(size))
    ensures forall k :: 0 <= k < out.Length ==> out[k] == if k < total then files[i].data[offset + k] else old(out[k])
  {
    ghost var n := Available(|files[i].data|, offset, AtLeastZero(size));
    ClipExact(handle.length, offset, size);
    if n > 0 {
      FileRestored(files, i, offset, size);
    }
    ghost var disk := reader.driver.card.disk;
    total := reader.ReadFile(handle, offset, out, size);
    FileDelivered(disk, out[..], files[i].data, handle.base, offset, total);
  }

  lemma FileDelivered(disk: seq<Byte>, now: seq<Byte>, data: seq<Byte>, base: nat, offset: nat, n: int)
    requires 0 <= n <= |now| && (n > 0 ==> base + offset + n <= |disk| && offset + n <= |data|)
    requires n > 0 ==> disk[base + offset..base + offset + n] == data[offset..offset + n]
    requires forall k :: 0 <= k < n ==> now[k] == disk[base + offset + k]
    ensures forall k :: 0 <= k < n ==> now[k] == data[offset + k]
  {
    forall k | 0 <= k < n ensures now[k] == data[offset + k] {
      assert disk[base + offset..base + offset + n][k] == data[offset..offset + n][k];
    }
  }

  /** From a card in its reset state with one of the tool's images on it to the bytes of a file. */
  method ReadNamedFile(reader: FileReader, ghost files: seq<Source>, ghost i: nat, path: seq<Byte>,
                       offset: Word, out: array<Byte>, size: int) returns (total: int)
    requires Fits(files) && HasDirectory(files) && reader.driver.card.disk == Image(files)
    requires reader.driver.card.View() == Card.Fresh(reader.driver.card.disk, reader.driver.card.random)
    requires i < |files| && path == CString(files[i].name)
    requires forall j :: 0 <= j < i ==> CString(files[j].name) != path
    requires -0x8000_0000 <= size < 0x8000_0000 && ClipIsRight(HandleOf(files, i).length, offset, size)
    requires Available(|files[i].data|, offset, AtLeastZero(size)) <= out.Length
    modifies reader, reader.driver.card, out
    ensures total == Available(|files[i].data|, offset, AtLeastZero(size))
    ensures forall k :: 0 <= k < out.Length ==> out[k] == if k < total then files[i].data[offset + k] else old(out[k])
  {
    ImageMounts(files, reader.driver.card.disk);
    var ok := Mount(reader);
    CountRead(files, reader.directory);
    NameFound(files, reader.directory, i, 0);
    var handle := reader.OpenFile(path);
    total := ReadPart(reader, files, i, handle.value, offset, out, size);
  }
}
