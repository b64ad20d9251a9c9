/**
 Physical memory as the kernel sees it through the direct map.  A physical frame is named by
 its number (address / 4096): every frame address the kernel passes around is page aligned,
 and number 0 plays the role of the address 0 that reports "out of memory".

 A frame is typed by the way it was last written: as a page table of 512 entries, as 4096
 bytes, or as the 512 machine words of a heap page.  A frame the allocator has just zeroed is
 `Blank` and may be read in any of the three ways; the accessors below refuse any other mix,
 so every proof that calls them also shows that no table is ever read as data or data as a table.
 */
module Physical {
  const PAGE_SIZE: nat := 4096
  const MAX_FRAMES: nat := 1024 * 1024
  const ENTRIES: nat := 512
  const USER_TOP: nat := 0x8000_0000_0000        // user addresses are below
  const U64: nat := 0x1_0000_0000_0000_0000

  datatype Option<+T> = None | Some(value: T)

  type byte = b: int | 0 <= b < 256

  /** A page-table word, field by field (module EntryBits relates it to the 64-bit word). */
  datatype Entry = Entry(present: bool, writable: bool, user: bool, huge: bool, nx: bool,
                         frame: nat, low: nat, high: nat)

  const ZERO_ENTRY := Entry(false, false, false, false, false, 0, 0, 0)

  type Entries = s: seq<Entry> | |s| == ENTRIES witness seq(512, _ => ZERO_ENTRY)
  type Bytes = s: seq<byte> | |s| == PAGE_SIZE witness seq(4096, _ => 0)
  type Words = s: seq<nat> | |s| == ENTRIES witness seq(512, _ => 0)

  datatype Frame = Blank | Table(entries: Entries) | Data(bytes: Bytes) | Slab(words: Words)

  type Memory = s: seq<Frame> | |s| == MAX_FRAMES witness seq(1048576, _ => Blank)

  /** Entry `idx` of a frame read as a table. */
  function EntryOf(fr: Frame, idx: nat): (e: Entry)
    requires fr.Blank? || fr.Table?
    requires idx < ENTRIES
  {
    if fr.Blank? then ZERO_ENTRY else fr.entries[idx]
  }

  /** The frame after entry `idx` has been overwritten. */
  function WithEntry(fr: Frame, idx: nat, e: Entry): (r: Frame)
    requires fr.Blank? || fr.Table?
    requires idx < ENTRIES
    ensures r.Table?
    ensures forall k: nat :: k < ENTRIES ==> EntryOf(r, k) == if k == idx then e else EntryOf(fr, k)
  {
    if fr.Blank? then Table(seq(ENTRIES, k => if k == idx then e else ZERO_ENTRY))
    else Table(fr.entries[idx := e])
  }

  /** Byte `off` of a frame read as data. */
  function ByteOf(fr: Frame, off: nat): (b: byte)
    requires fr.Blank? || fr.Data?
    requires off < PAGE_SIZE
  {
    if fr.Blank? then 0 else fr.bytes[off]
  }

  /** The frame after `src` has been copied to byte offset `off`. */
  function WithBytes(fr: Frame, off: nat, src: seq<byte>): (r: Frame)
    requires fr.Blank? || fr.Data?
    requires off + |src| <= PAGE_SIZE
    ensures r.Data?
    ensures forall k: nat :: k < PAGE_SIZE ==>
              ByteOf(r, k) == if off <= k < off + |src| then src[k - off] else ByteOf(fr, k)
  {
    Data(seq(PAGE_SIZE, k requires 0 <= k < PAGE_SIZE =>
      if off <= k < off + |src| then src[k - off] else ByteOf(fr, k)))
  }

  /** Word `idx` of a frame read as a heap page. */
  function WordOf(fr: Frame, idx: nat): (w: nat)
    requires fr.Blank? || fr.Slab?
    requires idx < ENTRIES
  {
    if fr.Blank? then 0 else fr.words[idx]
  }

  /** The frame after word `idx` has been overwritten. */
  function WithWord(fr: Frame, idx: nat, w: nat): (r: Frame)
    requires fr.Blank? || fr.Slab?
    requires idx < ENTRIES
    ensures r.Slab?
    ensures forall k: nat :: k < ENTRIES ==> WordOf(r, k) == if k == idx then w else WordOf(fr, k)
  {
    if fr.Blank? then Slab(seq(ENTRIES, k => if k == idx then w else 0))
    else Slab(fr.words[idx := w])
  }
}
