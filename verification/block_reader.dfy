/** The block reader behind the line parser: the file is read through a
    channel into a 512 KiB buffer, `ptr` walks the buffer and `ptr_offset`
    counts the blocks fetched, so that `ptr_offset + ptr` is the file
    position of the next byte. The channel is a function of the file
    contents and the channel position. */
module BlockReader {
  import opened Results
  import opened Ascii

  function Min(a: int, b: int): int
  {
    if a <= b then a else b
  }

  /** The capacity of the byte buffer, and the amount `ptr_offset` grows by per fetch. */
  const BlockSize: nat := 512 * 1024

  /** The file, the channel position, the bytes of the current block, the
      count the last read returned (`bbuf_size`, -1 at end of file), the
      index of the next byte in the block and the offset of the block. */
  datatype Reader = Reader(file: seq<Byte>, chan: nat, block: seq<Byte>, size: int, ptr: nat, ptrOffset: nat)

  /** One `channel.read` from position `chan`: a full buffer while the file
      has that much left, the remainder otherwise, and -1 once nothing is left. */
  datatype Read = Read(bytes: seq<Byte>, count: int)

  function ReadChannel(file: seq<Byte>, chan: nat): (r: Read)
    ensures chan >= |file| <==> r.count == -1
    ensures r.count != -1 ==> 0 < r.count == |r.bytes| && chan + r.count <= |file| && r.bytes == file[chan..chan + r.count]
    ensures r.count != -1 ==> r.count == BlockSize || chan + r.count == |file|
    ensures r.count <= BlockSize
  {
    if chan >= |file| then Read([], -1)
    else
      var n := Min(BlockSize, |file| - chan);
      Read(file[chan..chan + n], n)
  }

  /** `openFile`: the first read, with the pointer and the offset at zero. */
  function Open(file: seq<Byte>): (r: Reader)
    ensures Valid(r) && Pos(r) == 0
    ensures r.size == -1 <==> |file| == 0
  {
    var rd := ReadChannel(file, 0);
    Reader(file, if rd.count == -1 then 0 else rd.count, rd.bytes, rd.count, 0, 0)
  }

  /** The reader's own bookkeeping: the block is the stretch of the file
      just before the channel position, every block but the last is full,
      and a count of -1 means the channel is at the end of the file. */
  ghost predicate Valid(r: Reader)
  {
    && r.chan <= |r.file|
    && (r.size == -1 || r.size > 0)
    && (r.size == -1 ==> r.chan == |r.file|)
    && (r.size > 0 ==>
          && r.ptrOffset + r.size == r.chan
          && r.block == r.file[r.ptrOffset..r.chan]
          && r.ptr < r.size
          && (r.size == BlockSize || r.chan == |r.file|))
  }

  /** The file position `ptr_offset + ptr`. */
  function Pos(r: Reader): nat
  {
    r.ptrOffset + r.ptr
  }

  /** The bytes the reader has yet to hand out; nothing once the end is read. */
  function Unread(r: Reader): nat
  {
    if r.size > 0 && Pos(r) <= |r.file| then |r.file| - Pos(r) else 0
  }

  /** `fetchBlock`: read the next block, restart the pointer and advance the
      offset by a full block whatever the read returned. */
  function FetchBlock(r: Reader): (r': Reader)
    ensures r'.ptr == 0 && r'.ptrOffset == r.ptrOffset + BlockSize
    ensures r'.size == -1 <==> r.chan >= |r.file|
  {
    var rd := ReadChannel(r.file, r.chan);
    if rd.count == -1 then r.(size := -1, ptr := 0, ptrOffset := r.ptrOffset + BlockSize)
    else Reader(r.file, r.chan + rd.count, rd.bytes, rd.count, 0, r.ptrOffset + BlockSize)
  }

  /** One byte, the reader after it, and whether the fetch that followed hit the end. */
  datatype Fetched = Fetched(byte: Byte, reader: Reader, eof: bool)

  /** The head of the line loop: take the byte at `ptr`, and when that used
      up the block fetch the next one and report whether the channel is
      exhausted, that is, the read returned no bytes. */
  function Next(r: Reader): (f: Fetched)
    requires Valid(r) && r.size > 0
    ensures f.byte == r.file[Pos(r)]
    ensures f.eof <==> Pos(r) + 1 == |r.file|
    ensures f.eof ==> f.reader.size == -1 && Valid(f.reader)
    ensures !f.eof ==> Valid(f.reader) && f.reader.size > 0 && Pos(f.reader) == Pos(r) + 1
    ensures !f.eof ==> Unread(f.reader) < Unread(r)
    ensures f.reader.file == r.file
  {
    BlockByte(r);
    var c := r.block[r.ptr];
    var r1 := r.(ptr := r.ptr + 1);
    if r1.ptr >= r.size then
      var r2 := FetchBlock(r1);
      FetchNext(r);
      Fetched(c, r2, r2.size <= 0)
    else Fetched(c, r1, false)
  }

  /** The byte under the pointer is the byte at the file position. */
  lemma BlockByte(r: Reader)
    requires Valid(r) && r.size > 0
    ensures r.ptr < |r.block| && r.block[r.ptr] == r.file[Pos(r)]
  {
  }

  /** Using up the block: the fetch either reads on from the next file
      position or finds the channel at the end of the file. */
  lemma FetchNext(r: Reader)
    requires Valid(r) && r.size > 0 && r.ptr + 1 == r.size
    ensures var r2 := FetchBlock(r.(ptr := r.ptr + 1));
            && r2.file == r.file
            && (r2.size <= 0 <==> Pos(r) + 1 == |r.file|)
            && (r2.size <= 0 ==> r2.size == -1 && Valid(r2))
            && (r2.size > 0 ==> Valid(r2) && Pos(r2) == Pos(r) + 1 && Unread(r2) < Unread(r))
  {
    var rd := ReadChannel(r.file, r.chan);
    if rd.count != -1 {
      assert r.size == BlockSize;
    }
  }

  /** Bytes come out of the reader in file order: n steps hand out the n
      bytes that follow the reader's position. */
  function Drain(r: Reader, n: nat): (out: seq<Byte>)
    requires Valid(r) && r.size > 0 && Pos(r) + n < |r.file|
    ensures out == r.file[Pos(r)..Pos(r) + n]
    decreases n
  {
    if n == 0 then []
    else
      var f := Next(r);
      var rest := Drain(f.reader, n - 1);
      DrainCons(r, n, f, rest);
      [f.byte] + rest
  }

  /** The byte under the pointer followed by the n - 1 after it are the n bytes at the position. */
  lemma DrainCons(r: Reader, n: nat, f: Fetched, rest: seq<Byte>)
    requires Valid(r) && r.size > 0 && 0 < n && Pos(r) + n < |r.file|
    requires f == Next(r) && Pos(f.reader) + n - 1 <= |r.file|
    requires rest == r.file[Pos(f.reader)..Pos(f.reader) + n - 1]
    ensures [f.byte] + rest == r.file[Pos(r)..Pos(r) + n]
  {
    SliceCons(r.file, Pos(r), Pos(r) + n);
  }

  lemma SliceCons(s: seq<Byte>, a: nat, b: nat)
    requires a < b <= |s|
    ensures s[a..b] == [s[a]] + s[a + 1..b]
  {
  }
}
