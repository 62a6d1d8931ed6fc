/**
  * The AT45 dataflash driver: a KFile over a flash chip whose main memory can
  * only be written one page at a time through an on-chip buffer. The driver keeps
  * one page in that buffer and writes it back lazily. The main result is that the
  * driver is indistinguishable from one flat array of bytes with a file position.
  */
module Dataflash {

  import opened Bytes

  /** One row of the table of supported memories. */
  datatype Device = Device(densityId: nat, pageSize: nat, pageBits: nat, pageCnt: nat)

  const MEM_INFO: seq<Device> := [
    Device(0x07, 264, 9, 2048),
    Device(0x09, 264, 9, 4096),
    Device(0x0B, 528, 10, 4096),
    Device(0x0F, 1056, 11, 8192)
  ]

  // ---------------------------------------------------------------------
  // Addresses on the wire
  // ---------------------------------------------------------------------

  /** The three address bytes that follow an opcode. */
  datatype Address = Address(hi: byte, mid: byte, lo: byte)

  /** The chip leaves room for this many bytes per page in an address: 2 to the power pageBits. */
  function PageSpan(pageBits: nat): (n: nat)
    requires 9 <= pageBits <= 11
  {
    if pageBits == 9 then 512 else if pageBits == 10 then 1024 else 2048
  }

  /** Pages fit their span, and all page addresses fit 24 bits. */
  predicate Addressable(d: Device) {
    && 9 <= d.pageBits <= 11
    && 0 < d.pageSize <= PageSpan(d.pageBits)
    && 0 < d.pageCnt
    && d.pageCnt <= if d.pageBits == 9 then 32768 else if d.pageBits == 10 then 16384 else 8192
  }

  lemma SupportedDevices(i: nat)
    requires i < |MEM_INFO|
    ensures Addressable(MEM_INFO[i])
  {
    assert i == 0 || i == 1 || i == 2 || i == 3;
  }

  /** What the driver sends: shifts by 16 - pageBits and pageBits - 8, each cut to one byte. */
  function SendCmd(page: nat, offset: nat, pageBits: nat): (a: Address)
    requires 9 <= pageBits <= 11
  {
    if pageBits == 9 then Address(page / 128 % 256, (page * 2 + offset / 256) % 256, offset % 256)
    else if pageBits == 10 then Address(page / 64 % 256, (page * 4 + offset / 256) % 256, offset % 256)
    else Address(page / 32 % 256, (page * 8 + offset / 256) % 256, offset % 256)
  }

  function Whole(a: Address): (n: nat) {
    a.hi * 65536 + a.mid * 256 + a.lo
  }

  /** What the chip makes of it: one 24 bit number, split at the page span. */
  function WirePage(a: Address, pageBits: nat): (p: nat)
    requires 9 <= pageBits <= 11
  {
    if pageBits == 9 then Whole(a) / 512 else if pageBits == 10 then Whole(a) / 1024 else Whole(a) / 2048
  }

  function WireOffset(a: Address, pageBits: nat): (o: nat)
    requires 9 <= pageBits <= 11
  {
    if pageBits == 9 then Whole(a) % 512 else if pageBits == 10 then Whole(a) % 1024 else Whole(a) % 2048
  }

  lemma LowByte(q: nat, r: nat)
    requires r < 256
    ensures (q * 256 + r) % 256 == r
  {
  }

  lemma Address9(page: nat, offset: nat)
    requires page < 128 * 256 && offset < 512
    ensures (page / 128 % 256) * 65536 + ((page * 2 + offset / 256) % 256) * 256 + offset % 256 == page * 512 + offset
  {
    var h, l := page / 128, page % 128;
    LowByte(h, l * 2 + offset / 256);
  }

  lemma Address10(page: nat, offset: nat)
    requires page < 64 * 256 && offset < 1024
    ensures (page / 64 % 256) * 65536 + ((page * 4 + offset / 256) % 256) * 256 + offset % 256 == page * 1024 + offset
  {
    var h, l := page / 64, page % 64;
    LowByte(h, l * 4 + offset / 256);
  }

  lemma Address11(page: nat, offset: nat)
    requires page < 32 * 256 && offset < 2048
    ensures (page / 32 % 256) * 65536 + ((page * 8 + offset / 256) % 256) * 256 + offset % 256 == page * 2048 + offset
  {
    var h, l := page / 32, page % 32;
    LowByte(h, l * 8 + offset / 256);
  }

  /** Every address the driver can form reaches the byte it means. */
  lemma AddressRoundTrip(d: Device, page: nat, offset: nat)
    requires Addressable(d) && page < d.pageCnt && offset < d.pageSize
    ensures WirePage(SendCmd(page, offset, d.pageBits), d.pageBits) == page
    ensures WireOffset(SendCmd(page, offset, d.pageBits), d.pageBits) == offset
  {
    if d.pageBits == 9 {
      Address9(page, offset);
    } else if d.pageBits == 10 {
      Address10(page, offset);
    } else {
      Address11(page, offset);
    }
  }

  /** The three bytes make one number, most significant byte first: the page times its span, plus the offset. */
  lemma AddressNumber(d: Device, page: nat, offset: nat)
    requires Addressable(d) && page < d.pageCnt && offset < d.pageSize
    ensures var a := SendCmd(page, offset, d.pageBits);
            var span := if d.pageBits == 9 then 512 else if d.pageBits == 10 then 1024 else 2048;
            a.hi * 65536 + a.mid * 256 + a.lo == page * span + offset
  {
    if d.pageBits == 9 {
      Address9(page, offset);
    } else if d.pageBits == 10 {
      Address10(page, offset);
    } else {
      Address11(page, offset);
    }
  }

  // ---------------------------------------------------------------------
  // Sequences with a stretch replaced
  // ---------------------------------------------------------------------

  lemma SpliceOn<T>(s: seq<T>, pos: nat, b: seq<T>, i: nat, j: nat, n: nat)
    requires i + n <= j <= |b| && pos + j <= |s|
    ensures Splice(Splice(s, pos, b[..i]), pos + i, b[i..j][..n]) == Splice(s, pos, b[..i + n])
  {
    SpliceTwice(s, pos, b[..i], b[i..j][..n]);
    assert b[..i] + b[i..j][..n] == b[..i + n];
  }

  lemma SpliceInside<T>(s: seq<T>, start: nat, inner: seq<T>, off: nat, c: seq<T>)
    requires start + |inner| <= |s| && off + |c| <= |inner|
    ensures Splice(s, start, Splice(inner, off, c)) == Splice(Splice(s, start, inner), start + off, c)
  {
  }

  lemma SpliceNothing<T>(s: seq<T>, pos: nat, b: seq<T>)
    requires pos <= |s|
    ensures Splice(s, pos, b[..0]) == s
  {
  }

  lemma SpliceSame<T>(s: seq<T>, pos: nat, n: nat)
    requires pos + n <= |s|
    ensures Splice(s, pos, s[pos..pos + n]) == s
  {
  }

  /** The address of the first byte of a page. */
  function PageStart(page: nat, pageSize: nat): (r: nat) {
    if page == 0 then 0 else PageStart(page - 1, pageSize) + pageSize
  }

  lemma {:induction false} PageStartIsProduct(page: nat, pageSize: nat)
    ensures PageStart(page, pageSize) == page * pageSize
  {
    if page > 0 {
      PageStartIsProduct(page - 1, pageSize);
      assert page * pageSize == (page - 1) * pageSize + pageSize;
    }
  }

  /** The number of bytes in main memory: where the page after the last one would start. */
  function MemorySize(d: Device): (n: nat)
    ensures n == PageStart(d.pageCnt, d.pageSize)
  {
    PageStartIsProduct(d.pageCnt, d.pageSize);
    d.pageSize * d.pageCnt
  }

  /** The supported memories in bytes: 4, 8, 16 and 64 megabits and their spare bytes. */
  lemma Capacities()
    ensures MemorySize(MEM_INFO[0]) == 540672 && MemorySize(MEM_INFO[1]) == 1081344
    ensures MemorySize(MEM_INFO[2]) == 2162688 && MemorySize(MEM_INFO[3]) == 8650752
  {
  }

  /** An address has 24 bits, and so has the number of bytes in a memory. */
  lemma MemoryIsSmall(d: Device)
    requires Addressable(d)
    ensures PageStart(d.pageCnt, d.pageSize) <= 0x100_0000
  {
    var span := PageSpan(d.pageBits);
    PageStartIsProduct(d.pageCnt, d.pageSize);
    Scale(d.pageSize, span, d.pageCnt);
    Scale(d.pageCnt, 0x100_0000 / span, span);
  }

  /** Every page of a memory lies inside it. */
  lemma {:induction false} PageFits(page: nat, pageSize: nat, pageCnt: nat)
    requires page < pageCnt
    ensures PageStart(page, pageSize) + pageSize <= PageStart(pageCnt, pageSize)
    decreases pageCnt
  {
    if page + 1 < pageCnt {
      PageFits(page, pageSize, pageCnt - 1);
    }
  }

  /** A position inside the file lies in an existing page, at its remainder. */
  lemma PageOf(pos: nat, pageSize: nat, pageCnt: nat)
    requires pageSize > 0 && pos < PageStart(pageCnt, pageSize)
    ensures 0 <= pos / pageSize < pageCnt && 0 <= pos % pageSize < pageSize
    ensures pos == PageStart(pos / pageSize, pageSize) + pos % pageSize
  {
    var p := pos / pageSize;
    PageStartIsProduct(p, pageSize);
    PageStartIsProduct(pageCnt, pageSize);
    assert p < pageCnt by {
      if p >= pageCnt {
        Scale(pageCnt, p, pageSize);
      }
    }
  }

  lemma Scale(a: nat, b: nat, k: nat)
    requires a <= b
    ensures a * k <= b * k
  {
  }

  // ---------------------------------------------------------------------
  // The chip
  // ---------------------------------------------------------------------

  /** Main memory, one page buffer and the status register. */
  class Chip {
    const dev: Device
    const status: byte
    var mem: seq<byte>
    var buffer: seq<byte>

    ghost predicate Valid()
      reads this
    {
      && Addressable(dev)
      && |mem| == PageStart(dev.pageCnt, dev.pageSize)
      && |buffer| == dev.pageSize
    }

    constructor (dev: Device, status: byte, mem: seq<byte>, buffer: seq<byte>)
      requires Addressable(dev) && |mem| == PageStart(dev.pageCnt, dev.pageSize) && |buffer| == dev.pageSize
      ensures Valid() && this.dev == dev && this.status == status && this.mem == mem && this.buffer == buffer
    {
      this.dev, this.status, this.mem, this.buffer := dev, status, mem, buffer;
    }

    /** Transfer a main memory page to the buffer. */
    method MemToBuffer(a: Address)
      requires Valid() && WirePage(a, dev.pageBits) < dev.pageCnt
      modifies this`buffer
      ensures Valid()
      ensures var start := PageStart(WirePage(a, dev.pageBits), dev.pageSize);
              start + dev.pageSize <= |mem| && buffer == mem[start..start + dev.pageSize]
    {
      PageFits(WirePage(a, dev.pageBits), dev.pageSize, dev.pageCnt);
      var start := PageStart(WirePage(a, dev.pageBits), dev.pageSize);
      buffer := mem[start..start + dev.pageSize];
    }

    /** Program a main memory page from the buffer, erasing it first. */
    method BufferToMem(a: Address)
      requires Valid() && WirePage(a, dev.pageBits) < dev.pageCnt
      modifies this`mem
      ensures Valid()
      ensures var start := PageStart(WirePage(a, dev.pageBits), dev.pageSize);
              start + dev.pageSize <= |old(mem)| && mem == Splice(old(mem), start, buffer)
    {
      PageFits(WirePage(a, dev.pageBits), dev.pageSize, dev.pageCnt);
      mem := Splice(mem, PageStart(WirePage(a, dev.pageBits), dev.pageSize), buffer);
    }

    /** Write bytes into the buffer, starting at the in-page offset of the address. */
    method WriteBuffer(a: Address, data: seq<byte>)
      requires Valid() && WireOffset(a, dev.pageBits) + |data| <= dev.pageSize
      modifies this`buffer
      ensures Valid()
      ensures buffer == Splice(old(buffer), WireOffset(a, dev.pageBits), data)
    {
      buffer := Splice(buffer, WireOffset(a, dev.pageBits), data);
    }

    /** Continuous array read: the address counter runs on across page ends. */
    method ArrayRead(a: Address, n: nat) returns (data: seq<byte>)
      requires Valid()
      requires n > 0 ==> PageStart(WirePage(a, dev.pageBits), dev.pageSize) + WireOffset(a, dev.pageBits) + n <= |mem|
      ensures |data| == n
      ensures n > 0 ==>
                var start := PageStart(WirePage(a, dev.pageBits), dev.pageSize) + WireOffset(a, dev.pageBits);
                data == mem[start..start + n]
    {
      if n == 0 {
        return [];
      }
      var start := PageStart(WirePage(a, dev.pageBits), dev.pageSize) + WireOffset(a, dev.pageBits);
      data := mem[start..start + n];
    }
  }

  // ---------------------------------------------------------------------
  // The flat file the driver has to imitate
  // ---------------------------------------------------------------------

  datatype File = File(data: seq<byte>, pos: int)

  datatype Whence = SeekSet | SeekEnd | SeekCur

  datatype Op =
    | Read(n: nat)
    | Write(bytes: seq<byte>)
    | Flush
    | Seek(offset: int, whence: Whence)
    | Reopen
    | Close

  datatype Reply = Bytes(bytes: seq<byte>) | Count(n: int)

  /** The position is one that read and write can start from. */
  predicate InFile(f: File) {
    0 <= f.pos <= |f.data| < 0x8000_0000
  }

  function Clip(n: nat, f: File): (r: nat)
    requires InFile(f)
    ensures r <= n && f.pos + r <= |f.data|
    ensures r == n || f.pos + r == |f.data|
  {
    if n <= |f.data| - f.pos then n else |f.data| - f.pos
  }

  /** The file once the first n of some bytes have been stored at its position. */
  function Written(f: File, b: seq<byte>, n: nat): (g: File)
    requires InFile(f) && n <= |b| && f.pos + n <= |f.data|
    ensures |g.data| == |f.data| && InFile(g)
  {
    File(Splice(f.data, f.pos, b[..n]), f.pos + n)
  }

  lemma WrittenOn(f: File, b: seq<byte>, i: nat, j: nat, n: nat)
    requires InFile(f) && i + n <= j <= |b| && f.pos + j <= |f.data|
    ensures Written(Written(f, b, i), b[i..j], n) == Written(f, b, i + n)
  {
    SpliceOn(f.data, f.pos, b, i, j, n);
  }

  lemma WrittenNothing(f: File, b: seq<byte>)
    requires InFile(f)
    ensures Written(f, b, 0) == f
  {
    SpliceNothing(f.data, f.pos, b);
  }

  predicate Startable(f: File, op: Op) {
    op.Read? || op.Write? ==> InFile(f)
  }

  /** A size that stays what it is when it is cast to a signed offset of 32 bits. */
  predicate Castable(n: nat, wide: bool) {
    n < if wide then 0x8000_0000 else 0x1_0000
  }

  /** What an operation asks for is castable. Sizes have 16 bits, or 32 on a wide processor. */
  predicate Fits(op: Op, wide: bool) {
    (op.Read? ==> Castable(op.n, wide)) && (op.Write? ==> Castable(|op.bytes|, wide))
  }

  /** The flat file after one operation. */
  function After(f: File, op: Op): (g: File)
    requires Startable(f, op)
    ensures |g.data| == |f.data|
    ensures !op.Write? ==> g.data == f.data
  {
    match op
    case Read(n) => f.(pos := f.pos + Clip(n, f))
    case Write(b) => Written(f, b, Clip(|b|, f))
    case Seek(o, w) =>
      f.(pos := Int32((match w case SeekSet => 0 case SeekEnd => |f.data| case SeekCur => f.pos) + o))
    case Reopen => f.(pos := 0)
    case Flush | Close => f
  }

  /** What the caller of one operation gets back. */
  function ReplyTo(f: File, op: Op): (r: Reply)
    requires Startable(f, op)
  {
    match op
    case Read(n) => Bytes(f.data[f.pos..f.pos + Clip(n, f)])
    case Write(b) => Count(Clip(|b|, f))
    case Seek(o, w) => Count(After(f, op).pos)
    case Flush | Reopen | Close => Count(0)
  }

  /** Reads and writes of a run all start inside the file. */
  predicate Playable(f: File, ops: seq<Op>)
    decreases |ops|
  {
    ops == [] || (Startable(f, ops[0]) && Playable(After(f, ops[0]), ops[1..]))
  }

  function FileAfter(f: File, ops: seq<Op>): (g: File)
    requires Playable(f, ops)
    decreases |ops|
  {
    if ops == [] then f else FileAfter(After(f, ops[0]), ops[1..])
  }

  function Replies(f: File, ops: seq<Op>): (r: seq<Reply>)
    requires Playable(f, ops)
    ensures |r| == |ops|
    decreases |ops|
  {
    if ops == [] then [] else [ReplyTo(f, ops[0])] + Replies(After(f, ops[0]), ops[1..])
  }

  // ---------------------------------------------------------------------
  // The clamp, and why reads and writes have to start inside the file
  // ---------------------------------------------------------------------

  /** The modulus of a size_t of 16 or 32 bits. */
  function SizeSpan(wide: bool): (n: nat) {
    if wide then 0x1_0000_0000 else 0x1_0000
  }

  /** The clamp as the code computes it: the lesser of two signed offsets of 32 bits, back in a size_t. */
  function ClampedSize(n: nat, size: nat, seekPos: int, wide: bool): (r: nat) {
    var asked, room := Int32(n), Int32(size - seekPos);
    var m := if asked <= room then asked else room;
    if wide then m % 0x1_0000_0000 else m % 0x1_0000
  }

  /** Where reads and writes may start, the clamp does what it is there for. */
  lemma ClampIsClip(n: nat, f: File, wide: bool)
    requires InFile(f) && Castable(n, wide)
    ensures ClampedSize(n, |f.data|, f.pos, wide) == Clip(n, f)
  {
  }

  /** No byte outside the file is read or written. */
  predicate StaysInside(k: nat, size: nat, seekPos: int) {
    k == 0 || (0 <= seekPos && seekPos + k <= size)
  }

  /**
    * What a caller can look at beforehand. In the file or at its end, the size has to survive
    * the cast. In front of it, nothing may be asked for. Behind it, and so far in front of it that
    * the distance to its end overflows, only 16 bit sizes can cut the clamp to zero.
    */
  predicate Harmless(n: nat, size: nat, seekPos: int, wide: bool) {
    if 0 <= seekPos <= size then Castable(n, wide)
    else if seekPos < 0 && size - seekPos < 0x8000_0000 then n == 0
    else !wide && (seekPos - size) % 0x1_0000 == 0
  }

  lemma NarrowClamp(n: nat, size: nat, seekPos: int)
    requires n < 0x1_0000 && size < 0x8000_0000 && -0x8000_0000 <= seekPos < 0x8000_0000
    requires seekPos < 0 || seekPos > size
    ensures ClampedSize(n, size, seekPos, false) == 0 <==> Harmless(n, size, seekPos, false)
  {
    if seekPos > size || size - seekPos >= 0x8000_0000 {
      var room := Int32(size - seekPos);
      assert room < 0;
      Congruent(room, size - seekPos);
    }
  }

  /** Cutting a distance to 32 bits does not change whether its low 16 bits are zero, nor does turning it round. */
  lemma Congruent(room: int, d: int)
    requires room == Int32(d)
    ensures room % 0x1_0000 == 0 <==> (-d) % 0x1_0000 == 0
  {
    LowBits(d, (d + 0x8000_0000) / 0x1_0000_0000);
    Negated(d);
  }

  lemma LowBits(d: int, q: int)
    ensures (d - 0x1_0000_0000 * q) % 0x1_0000 == d % 0x1_0000
  {
    Multiples(d, -0x1_0000 * q);
  }

  lemma Multiples(d: int, k: int)
    ensures (d + 0x1_0000 * k) % 0x1_0000 == d % 0x1_0000
  {
  }

  lemma Negated(d: int)
    ensures d % 0x1_0000 == 0 <==> (-d) % 0x1_0000 == 0
  {
    if d % 0x1_0000 == 0 {
      Multiples(0, -(d / 0x1_0000));
    }
    if (-d) % 0x1_0000 == 0 {
      Multiples(0, -((-d) / 0x1_0000));
    }
  }

  lemma WideClamp(n: nat, size: nat, seekPos: int)
    requires n < 0x1_0000_0000 && size < 0x8000_0000 && -0x8000_0000 <= seekPos < 0x8000_0000
    requires seekPos < 0 || seekPos > size
    ensures ClampedSize(n, size, seekPos, true) == 0 <==> Harmless(n, size, seekPos, true)
  {
  }

  /**
    * kfile_genericSeek accepts any position, and nothing bounds the size asked for. This is
    * exactly when the clamp keeps a transfer inside the file.
    */
  lemma ClampIsSafeIff(n: nat, size: nat, seekPos: int, wide: bool)
    requires n < SizeSpan(wide) && size < 0x8000_0000 && -0x8000_0000 <= seekPos < 0x8000_0000
    ensures StaysInside(ClampedSize(n, size, seekPos, wide), size, seekPos) <==> Harmless(n, size, seekPos, wide)
  {
    if 0 <= seekPos <= size {
      HugeClamp(n, size, seekPos, wide);
    } else if wide {
      WideClamp(n, size, seekPos);
    } else {
      NarrowClamp(n, size, seekPos);
    }
  }

  lemma HugeClamp(n: nat, size: nat, seekPos: int, wide: bool)
    requires n < SizeSpan(wide) && 0 <= seekPos <= size < 0x8000_0000
    ensures seekPos + ClampedSize(n, size, seekPos, wide) <= size <==> Castable(n, wide)
    ensures ClampedSize(n, size, seekPos, wide) == 0 ==> Castable(n, wide)
  {
  }

  /** One byte past the end a request for one byte becomes one for 65535 bytes; 65536 past the end, for none. */
  lemma ClampPastEnd(size: nat)
    requires size < 0x7FFE_0000
    ensures ClampedSize(1, size, size + 1, false) == 65535
    ensures ClampedSize(1, size, size + 65536, false) == 0
  {
  }

  /** Even from the start of a file, a request of all ones is not clamped at all. */
  lemma ClampOfHugeSize(size: nat)
    requires size < 0x8000_0000
    ensures ClampedSize(0xFFFF_FFFF, size, 0, true) == 0xFFFF_FFFF
  {
  }

  // ---------------------------------------------------------------------
  // The driver
  // ---------------------------------------------------------------------

  class Driver {
    const chip: Chip
    const dev: Device
    const wide: bool
    var ready: bool
    var currentPage: nat
    var pageDirty: bool
    var seekPos: int
    var size: nat

    /** The buffer holds the current page; when it is clean, main memory agrees with it. */
    ghost predicate Valid()
      reads this, chip
    {
      && ready
      && chip.Valid()
      && dev == chip.dev
      && size == |chip.mem|
      && currentPage < dev.pageCnt
      && PageStart(currentPage, dev.pageSize) + dev.pageSize <= size
      && (!pageDirty ==>
            chip.buffer == chip.mem[PageStart(currentPage, dev.pageSize)..PageStart(currentPage, dev.pageSize) + dev.pageSize])
    }

    /** The file the caller sees: main memory with the buffer laid over the current page. */
    ghost function View(): (f: File)
      requires Valid()
      reads this, chip
    {
      File(Splice(chip.mem, PageStart(currentPage, dev.pageSize), chip.buffer), seekPos)
    }

    /** While nothing is dirty the file is main memory itself. */
    lemma CleanView()
      requires Valid() && !pageDirty
      ensures View().data == chip.mem
    {
      SpliceSame(chip.mem, PageStart(currentPage, dev.pageSize), dev.pageSize);
    }

    constructor (chip: Chip, dev: Device, wide: bool)
      requires chip.Valid() && (chip.status / 4 % 16 == dev.densityId ==> dev == chip.dev)
      modifies chip`buffer
      ensures this.chip == chip && this.dev == dev && this.wide == wide && chip.Valid()
      ensures ready <==> chip.status / 4 % 16 == dev.densityId
      ensures !ready ==> chip.buffer == old(chip.buffer)
      ensures ready ==> Valid() && !pageDirty && View() == File(chip.mem, 0) && InFile(View())
    {
      this.chip, this.dev, this.wide := chip, dev, wide;
      currentPage, pageDirty, seekPos := 0, false, 0;
      ready := chip.status / 4 % 16 == dev.densityId;
      size := if chip.status / 4 % 16 == dev.densityId then MemorySize(dev) else 0;
      new;
      if ready {
        LoadPage(0);
        CleanView();
        MemoryIsSmall(dev);
      }
    }

    method LoadPage(page: nat)
      requires chip.Valid() && dev == chip.dev && page < dev.pageCnt
      modifies chip`buffer
      ensures chip.Valid()
      ensures PageStart(page, dev.pageSize) + dev.pageSize <= |chip.mem|
      ensures chip.buffer == chip.mem[PageStart(page, dev.pageSize)..PageStart(page, dev.pageSize) + dev.pageSize]
    {
      AddressRoundTrip(dev, page, 0);
      chip.MemToBuffer(SendCmd(page, 0, dev.pageBits));
    }

    /** Flushing makes main memory alone hold the file, and changes nothing the caller sees. */
    method FlushPage()
      requires Valid()
      modifies this`pageDirty, chip`mem
      ensures Valid() && !pageDirty
      ensures View() == old(View())
      ensures chip.mem == View().data
    {
      if pageDirty {
        AddressRoundTrip(dev, currentPage, 0);
        chip.BufferToMem(SendCmd(currentPage, 0, dev.pageBits));
        pageDirty := false;
      }
      CleanView();
    }

    method SeekTo(offset: int, whence: Whence) returns (p: int)
      requires Valid()
      modifies this`seekPos
      ensures Valid() && View() == After(old(View()), Seek(offset, whence))
      ensures Count(p) == ReplyTo(old(View()), Seek(offset, whence))
    {
      var base := match whence case SeekSet => 0 case SeekEnd => size case SeekCur => seekPos;
      seekPos := Int32(base + offset);
      p := seekPos;
    }

    method ReopenFile()
      requires Valid()
      modifies this`pageDirty, this`currentPage, this`seekPos, chip
      ensures Valid() && !pageDirty && View() == After(old(View()), Reopen)
      ensures chip.mem == View().data
    {
      FlushPage();
      currentPage := 0;
      seekPos := 0;
      LoadPage(0);
      CleanView();
    }

    /** Select page and offset from an absolute address. */
    method Locate(pos: nat) returns (page: nat, offset: nat)
      requires Addressable(dev)
      ensures pos < PageStart(dev.pageCnt, dev.pageSize) ==>
                page < dev.pageCnt && offset < dev.pageSize && pos == PageStart(page, dev.pageSize) + offset
    {
      page, offset := pos / dev.pageSize, pos % dev.pageSize;
      if pos < PageStart(dev.pageCnt, dev.pageSize) {
        PageOf(pos, dev.pageSize, dev.pageCnt);
      }
    }

    /** Read main memory from a position on, across page ends. */
    method ReadBlock(pos: nat, n: nat) returns (data: seq<byte>)
      requires chip.Valid() && dev == chip.dev && pos + n <= |chip.mem|
      ensures data == chip.mem[pos..pos + n]
    {
      var page, offset := Locate(pos);
      if n > 0 {
        AddressRoundTrip(dev, page, offset);
      }
      data := chip.ArrayRead(SendCmd(page, offset, dev.pageBits), n);
    }

    method ReadBytes(n: nat) returns (data: seq<byte>)
      requires Valid() && InFile(View()) && Castable(n, wide)
      modifies this`pageDirty, this`seekPos, chip`mem
      ensures Valid() && View() == After(old(View()), Read(n))
      ensures Bytes(data) == ReplyTo(old(View()), Read(n))
      ensures chip.mem == View().data
    {
      ClampIsClip(n, View(), wide);
      var k := ClampedSize(n, size, seekPos, wide);
      FlushPage();
      data := ReadBlock(seekPos, k);
      seekPos := seekPos + k;
    }

    /** Make the page that holds the file position the current one. */
    method SelectPage(page: nat)
      requires Valid() && page < dev.pageCnt
      modifies this`pageDirty, this`currentPage, chip
      ensures Valid() && currentPage == page && View() == old(View())
    {
      if page != currentPage {
        FlushPage();
        LoadPage(page);
        currentPage := page;
        CleanView();
      }
    }

    /** Put a stretch of bytes that does not cross a page end into the current page. */
    method WriteBlock(offset: nat, data: seq<byte>)
      requires Valid() && offset + |data| <= dev.pageSize
      requires offset < dev.pageSize
      modifies this`pageDirty, chip`buffer
      ensures Valid() && pageDirty
      ensures PageStart(currentPage, dev.pageSize) + offset + |data| <= size
      ensures View() ==
              File(Splice(old(View()).data, PageStart(currentPage, dev.pageSize) + offset, data), seekPos)
    {
      AddressRoundTrip(dev, 0, offset);
      chip.WriteBuffer(SendCmd(0, offset, dev.pageBits), data);
      pageDirty := true;
      SpliceInside(chip.mem, PageStart(currentPage, dev.pageSize), old(chip.buffer), offset, data);
    }

    /** One turn of the write loop: the part of the request that fits the page at the position. */
    method WriteChunk(bytes: seq<byte>) returns (chunk: nat)
      requires Valid() && InFile(View()) && bytes != [] && seekPos + |bytes| <= size
      modifies this`pageDirty, this`currentPage, this`seekPos, chip
      ensures Valid() && 0 < chunk <= |bytes|
      ensures View() == Written(old(View()), bytes, chunk)
    {
      var newPage, offset := Locate(seekPos);
      chunk := if |bytes| <= dev.pageSize - offset then |bytes| else dev.pageSize - offset;
      ghost var f := View();
      SelectPage(newPage);
      WriteBlock(offset, bytes[..chunk]);
      assert View() == File(Splice(f.data, f.pos, bytes[..chunk]), f.pos);
      seekPos := seekPos + chunk;
    }

    method WriteBytes(bytes: seq<byte>) returns (total: nat)
      requires Valid() && InFile(View()) && Castable(|bytes|, wide)
      modifies this`pageDirty, this`currentPage, this`seekPos, chip
      ensures Valid() && View() == After(old(View()), Write(bytes))
      ensures Count(total) == ReplyTo(old(View()), Write(bytes))
    {
      ghost var before := View();
      ClampIsClip(|bytes|, before, wide);
      var wanted := ClampedSize(|bytes|, size, seekPos, wide);
      total := 0;
      WrittenNothing(before, bytes);
      while total < wanted
        invariant Stored(before, bytes, wanted, total)
        decreases wanted - total
      {
        total := WriteMore(bytes, wanted, total, before);
      }
    }

    /** The first total of the wanted bytes are in the file. */
    ghost predicate Stored(before: File, bytes: seq<byte>, wanted: nat, total: nat)
      reads this, chip
    {
      && Valid() && InFile(before) && total <= wanted <= |bytes| && before.pos + wanted <= |before.data|
      && View() == Written(before, bytes, total)
    }

    method WriteMore(bytes: seq<byte>, wanted: nat, total: nat, ghost before: File) returns (next: nat)
      requires Stored(before, bytes, wanted, total) && total < wanted
      modifies this`pageDirty, this`currentPage, this`seekPos, chip
      ensures Stored(before, bytes, wanted, next) && total < next
    {
      var chunk := WriteChunk(bytes[total..wanted]);
      WrittenOn(before, bytes, total, wanted, chunk);
      next := total + chunk;
    }

    method Execute(op: Op) returns (reply: Reply)
      requires Valid() && Startable(View(), op) && Fits(op, wide)
      modifies this`pageDirty, this`currentPage, this`seekPos, chip
      ensures Valid() && View() == After(old(View()), op) && reply == ReplyTo(old(View()), op)
      ensures op.Flush? || op.Close? || op.Reopen? || op.Read? ==> chip.mem == View().data
    {
      match op
      case Read(n) =>
        var data := ReadBytes(n);
        reply := Bytes(data);
      case Write(b) =>
        var n := WriteBytes(b);
        reply := Count(n);
      case Flush =>
        FlushPage();
        reply := Count(0);
      case Seek(o, w) =>
        var p := SeekTo(o, w);
        reply := Count(p);
      case Reopen =>
        ReopenFile();
        reply := Count(0);
      case Close =>
        FlushPage();
        reply := Count(0);
    }

    /**
      * Every run: whatever the caller does, the replies and the resulting file are those
      * of the flat file, as long as reads and writes start inside it and their sizes survive a cast.
      */
    method Perform(ops: seq<Op>) returns (replies: seq<Reply>)
      requires Valid() && Playable(View(), ops) && forall i :: 0 <= i < |ops| ==> Fits(ops[i], wide)
      modifies this`pageDirty, this`currentPage, this`seekPos, chip
      ensures Valid() && View() == FileAfter(old(View()), ops) && replies == Replies(old(View()), ops)
    {
      ghost var before := View();
      assert ops[0..] == ops;
      replies := [];
      var i := 0;
      while i < |ops|
        invariant 0 <= i <= |ops| && Valid()
        invariant Playable(View(), ops[i..])
        invariant FileAfter(before, ops) == FileAfter(View(), ops[i..])
        invariant Replies(before, ops) == replies + Replies(View(), ops[i..])
      {
        assert ops[i..][0] == ops[i] && ops[i..][1..] == ops[i + 1..];
        var reply := Execute(ops[i]);
        replies := replies + [reply];
        i := i + 1;
      }
      assert ops[i..] == [];
    }
  }

  // ---------------------------------------------------------------------
  // What the flat file promises its callers
  // ---------------------------------------------------------------------

  /** Runs compose, so a run may be judged piece by piece. */
  lemma {:induction false} RunAppend(f: File, a: seq<Op>, b: seq<Op>)
    requires Playable(f, a) && Playable(FileAfter(f, a), b)
    ensures Playable(f, a + b)
    ensures FileAfter(f, a + b) == FileAfter(FileAfter(f, a), b)
    ensures Replies(f, a + b) == Replies(f, a) + Replies(FileAfter(f, a), b)
    decreases |a|
  {
    if a == [] {
      assert a + b == b;
    } else {
      assert (a + b)[0] == a[0] && (a + b)[1..] == a[1..] + b;
      RunAppend(After(f, a[0]), a[1..], b);
    }
  }

  /** Of two writes, the second stores nothing unless the first stores everything. */
  lemma ClipInPieces(f: File, a: seq<byte>, b: seq<byte>, g: File)
    requires InFile(f) && InFile(g) && |g.data| == |f.data| && g.pos == f.pos + Clip(|a|, f)
    ensures Clip(|a|, f) == |a| || Clip(|b|, g) == 0
    ensures Clip(|a + b|, f) == Clip(|a|, f) + Clip(|b|, g)
  {
  }

  lemma WrittenTwice(f: File, a: seq<byte>, b: seq<byte>, k: nat, j: nat)
    requires InFile(f) && k <= |a| && j <= |b| && f.pos + k + j <= |f.data| && (k == |a| || j == 0)
    ensures Written(Written(f, a, k), b, j) == Written(f, a + b, k + j)
  {
    SpliceTwice(f.data, f.pos, a[..k], b[..j]);
    PrefixOfJoin(a, b, k, j);
  }

  lemma PrefixOfJoin(a: seq<byte>, b: seq<byte>, k: nat, j: nat)
    requires k <= |a| && j <= |b| && (k == |a| || j == 0)
    ensures a[..k] + b[..j] == (a + b)[..k + j]
  {
  }

  /** Cutting a write in two makes no difference, wherever the page ends fall. */
  lemma WriteInPieces(f: File, a: seq<byte>, b: seq<byte>)
    requires InFile(f)
    ensures After(After(f, Write(a)), Write(b)) == After(f, Write(a + b))
  {
    var g := After(f, Write(a));
    ClipInPieces(f, a, b, g);
    WrittenTwice(f, a, b, Clip(|a|, f), Clip(|b|, g));
  }

  /** Reading goes on where it stopped: two reads one after the other return what one would have. */
  lemma ReadInPieces(f: File, n: nat, k: nat)
    requires InFile(f)
    ensures var g := After(f, Read(n));
            && ReplyTo(f, Read(n + k)) == Bytes(ReplyTo(f, Read(n)).bytes + ReplyTo(g, Read(k)).bytes)
            && After(g, Read(k)) == After(f, Read(n + k))
  {
    var g := After(f, Read(n));
    var i, j := Clip(n, f), Clip(k, g);
    assert f.data[f.pos..f.pos + i] + f.data[f.pos + i..f.pos + i + j] == f.data[f.pos..f.pos + i + j];
  }

  /** From its start a file is read out as it is, and nothing comes after its end. */
  lemma ReadAll(f: File, n: nat)
    requires |f.data| <= n && |f.data| < 0x8000_0000
    ensures var g := After(f, Reopen);
            && ReplyTo(g, Read(n)) == Bytes(f.data)
            && ReplyTo(After(g, Read(n)), Read(n)) == Bytes([])
  {
  }

  /** Seeking back from the end finds the last bytes; seeking back over what was just read finds that again. */
  lemma SeekBack(f: File, n: nat)
    requires InFile(f) && n <= |f.data|
    ensures var back: int := n;
            var g := After(f, Seek(-back, SeekEnd));
            && InFile(g) && ReplyTo(f, Seek(-back, SeekEnd)) == Count(|f.data| - n)
            && ReplyTo(g, Read(n)) == Bytes(f.data[|f.data| - n..])
    ensures var g := After(f, Read(n));
            var back: int := |ReplyTo(f, Read(n)).bytes|;
            After(g, Seek(-back, SeekCur)) == f
    ensures After(f, Seek(0, SeekCur)) == f && ReplyTo(f, Seek(0, SeekCur)) == Count(f.pos)
    ensures After(f, Flush) == f && After(f, Close) == f
  {
  }

  /** What a write or a read reports is the distance the position moves; it is less than asked for only at the end. */
  lemma CountIsDistance(f: File, b: seq<byte>, n: nat)
    requires InFile(f)
    ensures var g := After(f, Write(b));
            && ReplyTo(f, Write(b)) == Count(g.pos - f.pos)
            && (g.pos - f.pos == |b| || (g.pos - f.pos < |b| && g.pos == |f.data|))
    ensures var g := After(f, Read(n));
            && |ReplyTo(f, Read(n)).bytes| == g.pos - f.pos
            && (g.pos - f.pos == n || (g.pos - f.pos < n && g.pos == |f.data|))
  {
  }

  /** Reading back what was written returns it, and no byte outside the write has changed. */
  lemma ReadBack(f: File, b: seq<byte>)
    requires InFile(f) && f.pos + |b| <= |f.data|
    ensures var g := After(f, Write(b));
            var h := After(g, Seek(f.pos, SeekSet));
            && ReplyTo(h, Read(|b|)) == Bytes(b)
            && forall i :: 0 <= i < |f.data| && !(f.pos <= i < f.pos + |b|) ==> g.data[i] == f.data[i]
  {
    var g := After(f, Write(b));
    assert b[..|b|] == b;
    assert g.data[f.pos..f.pos + |b|] == b;
  }
}
