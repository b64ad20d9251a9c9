/**
 The bit expressions of kernel/src/arch/amd64/paging.rs on 64-bit page-table words (bit layout
 of Intel SDM volume 3A, section 4.5), and the value of every field after each of them.
 */
module WordBits {
  const PTE_PRESENT: bv64 := 0x1
  const PTE_WRITABLE: bv64 := 0x2
  const PTE_USER: bv64 := 0x4
  const PTE_HUGE: bv64 := 0x80
  const PTE_NX: bv64 := 0x8000_0000_0000_0000
  const PTE_ADDR_MASK: bv64 := 0x000f_ffff_ffff_f000
  const LOW_MASK: bv64 := 0xf78
  const HIGH_MASK: bv64 := 0x7ff0_0000_0000_0000

  predicate Present(w: bv64) { w & PTE_PRESENT != 0 }
  predicate Writable(w: bv64) { w & PTE_WRITABLE != 0 }
  predicate User(w: bv64) { w & PTE_USER != 0 }
  predicate Huge(w: bv64) { w & PTE_HUGE != 0 }
  predicate Nx(w: bv64) { w & PTE_NX != 0 }
  function FrameBits(w: bv64): bv64 { (w & PTE_ADDR_MASK) >> 12 }
  function LowBits(w: bv64): bv64 { w & LOW_MASK }
  function HighBits(w: bv64): bv64 { w & HIGH_MASK }

  /** Frame numbers that fit the address field. */
  predicate FitsFrame(f: bv64) { f < 0x100_0000_0000 }

  function PermissionBits(writable: bool, user: bool, executable: bool): bv64 {
    (if writable then PTE_WRITABLE else 0) | (if user then PTE_USER else 0) | (if executable then 0 else PTE_NX)
  }

  /** The leaf entry map_page_in writes for the frame whose address is f << 12. */
  function LeafWord(f: bv64, writable: bool, user: bool, executable: bool): bv64 {
    (f << 12) | PTE_PRESENT | PermissionBits(writable, user, executable)
  }

  /** The entry map_page_in writes for a freshly allocated lower table. */
  function TableWord(t: bv64, user: bool): bv64 {
    (t << 12) | PTE_PRESENT | PTE_WRITABLE | (if user then PTE_USER else 0)
  }

  /** protect_page_in: clear the three permission bits and set them anew. */
  function ProtectWord(w: bv64, writable: bool, user: bool, executable: bool): bv64 {
    (w & !(PTE_WRITABLE | PTE_USER | PTE_NX)) | PermissionBits(writable, user, executable)
  }

  /** clone_user_address_space: keep every non-address bit, change the address. */
  function CloneWord(w: bv64, f: bv64): bv64 {
    (f << 12) | (w & !PTE_ADDR_MASK)
  }

  lemma LeafFields(f: bv64, writable: bool, user: bool, executable: bool)
    requires FitsFrame(f)
    ensures var w := LeafWord(f, writable, user, executable);
            && Present(w) && Writable(w) == writable && User(w) == user && !Huge(w) && Nx(w) == !executable
            && FrameBits(w) == f && LowBits(w) == 0 && HighBits(w) == 0
  {
  }

  lemma TableFields(t: bv64, user: bool)
    requires FitsFrame(t)
    ensures var w := TableWord(t, user);
            && Present(w) && Writable(w) && User(w) == user && !Huge(w) && !Nx(w)
            && FrameBits(w) == t && LowBits(w) == 0 && HighBits(w) == 0
  {
  }

  lemma ProtectFields(w: bv64, writable: bool, user: bool, executable: bool)
    ensures var v := ProtectWord(w, writable, user, executable);
            && Present(v) == Present(w) && Writable(v) == writable && User(v) == user
            && Huge(v) == Huge(w) && Nx(v) == !executable
            && FrameBits(v) == FrameBits(w) && LowBits(v) == LowBits(w) && HighBits(v) == HighBits(w)
  {
    hide *;
    ProtectFlags(w, writable, user, executable);
    ProtectFrame(w, writable, user, executable);
    ProtectRest(w, writable, user, executable);
  }

  lemma ProtectFlags(w: bv64, writable: bool, user: bool, executable: bool)
    ensures var v := ProtectWord(w, writable, user, executable);
            && Present(v) == Present(w) && Writable(v) == writable && User(v) == user
            && Huge(v) == Huge(w) && Nx(v) == !executable
  {
  }

  lemma ProtectFrame(w: bv64, writable: bool, user: bool, executable: bool)
    ensures FrameBits(ProtectWord(w, writable, user, executable)) == FrameBits(w)
  {
  }

  lemma ProtectRest(w: bv64, writable: bool, user: bool, executable: bool)
    ensures LowBits(ProtectWord(w, writable, user, executable)) == LowBits(w)
    ensures HighBits(ProtectWord(w, writable, user, executable)) == HighBits(w)
  {
  }

  lemma CloneFields(w: bv64, f: bv64)
    requires FitsFrame(f)
    ensures var v := CloneWord(w, f);
            && Present(v) == Present(w) && Writable(v) == Writable(w) && User(v) == User(w)
            && Huge(v) == Huge(w) && Nx(v) == Nx(w)
            && FrameBits(v) == f && LowBits(v) == LowBits(w) && HighBits(v) == HighBits(w)
  {
    hide *;
    CloneLowFlags(w, f);
    CloneHighFlags(w, f);
    CloneFrame(w, f);
    CloneRest(w, f);
  }

  lemma CloneLowFlags(w: bv64, f: bv64)
    requires FitsFrame(f)
    ensures Present(CloneWord(w, f)) == Present(w) && Writable(CloneWord(w, f)) == Writable(w)
    ensures User(CloneWord(w, f)) == User(w)
  {
    CloneLowBits(w, f);
    hide CloneWord;
  }

  lemma CloneLowBits(w: bv64, f: bv64)
    ensures CloneWord(w, f) & PTE_PRESENT == w & PTE_PRESENT
    ensures CloneWord(w, f) & PTE_WRITABLE == w & PTE_WRITABLE
    ensures CloneWord(w, f) & PTE_USER == w & PTE_USER
  {
  }

  lemma CloneHighFlags(w: bv64, f: bv64)
    requires FitsFrame(f)
    ensures Huge(CloneWord(w, f)) == Huge(w) && Nx(CloneWord(w, f)) == Nx(w)
  {
  }

  lemma CloneFrame(w: bv64, f: bv64)
    requires FitsFrame(f)
    ensures FrameBits(CloneWord(w, f)) == f
  {
  }

  lemma CloneRest(w: bv64, f: bv64)
    requires FitsFrame(f)
    ensures LowBits(CloneWord(w, f)) == LowBits(w)
    ensures HighBits(CloneWord(w, f)) == HighBits(w)
  {
  }

  lemma FieldsDetermineWord(v: bv64, w: bv64)
    requires Present(v) == Present(w) && Writable(v) == Writable(w) && User(v) == User(w)
    requires Huge(v) == Huge(w) && Nx(v) == Nx(w)
    requires FrameBits(v) == FrameBits(w) && LowBits(v) == LowBits(w) && HighBits(v) == HighBits(w)
    ensures v == w
  {
  }

  /** Masking with !0xFFF, as pte_ptr does, and with the address mask agree without high bits. */
  lemma TableAddress(w: bv64)
    requires !Nx(w) && HighBits(w) == 0
    ensures w & !(0xfff as bv64) == FrameBits(w) << 12
  {
  }

  function Num(x: bv64): nat { x as nat }

  lemma NumRoundTrip(a: bv64)
    ensures Num(a) < 0x1_0000_0000_0000_0000 && Num(a) as bv64 == a
  {
  }

  lemma NumInjective(a: bv64, b: bv64)
    requires Num(a) == Num(b)
    ensures a == b
  {
    hide Num;
    NumRoundTrip(a);
    NumRoundTrip(b);
  }

  lemma NumZero()
    ensures Num(0) == 0
  {
  }
}

/**
 Agreement of the 64-bit words with `Physical.Entry`: each word operation has, on the decoded
 entry, exactly the effect the page-table model gives it.
 */
module EntryBits {
  import opened Physical
  import opened Paging
  import W = WordBits

  /** Reads a word field by field. */
  function Decode(w: bv64): Entry {
    Entry(W.Present(w), W.Writable(w), W.User(w), W.Huge(w), W.Nx(w),
          W.Num(W.FrameBits(w)), W.Num(W.LowBits(w)), W.Num(W.HighBits(w)))
  }

  /** Decoding loses nothing: the fields determine the word. */
  lemma DecodeInjective(v: bv64, w: bv64)
    requires Decode(v) == Decode(w)
    ensures v == w
  {
    hide W.Num, W.Present, W.Writable, W.User, W.Huge, W.Nx, W.FrameBits, W.LowBits, W.HighBits;
    W.NumInjective(W.FrameBits(v), W.FrameBits(w));
    W.NumInjective(W.LowBits(v), W.LowBits(w));
    W.NumInjective(W.HighBits(v), W.HighBits(w));
    W.FieldsDetermineWord(v, w);
  }

  /** The test `*ptr == 0` of map_page_in. */
  lemma ZeroWord(w: bv64)
    ensures w == 0 <==> Decode(w) == ZERO_ENTRY
  {
  }

  /** Every bit expression of the source, on the decoded entry. */
  lemma WordOperations(w: bv64, f: bv64, flags: MapFlags)
    requires W.FitsFrame(f)
    ensures Decode(W.LeafWord(f, flags.writable, flags.user, flags.executable)) == LeafEntry(W.Num(f), flags)
    ensures Decode(W.TableWord(f, flags.user)) == TableEntry(W.Num(f), flags.user)
    ensures Decode(W.ProtectWord(w, flags.writable, flags.user, flags.executable)) == WithFlags(Decode(w), flags)
    ensures w == 0 <==> Decode(w) == ZERO_ENTRY
    ensures Decode(W.CloneWord(w, f)) == Decode(w).(frame := W.Num(f))
  {
    hide W.Num, W.Present, W.Writable, W.User, W.Huge, W.Nx, W.FrameBits, W.LowBits, W.HighBits;
    hide W.LeafWord, W.TableWord, W.ProtectWord, W.CloneWord, W.FitsFrame;
    W.LeafFields(f, flags.writable, flags.user, flags.executable);
    W.TableFields(f, flags.user);
    W.ProtectFields(w, flags.writable, flags.user, flags.executable);
    W.CloneFields(w, f);
    W.NumZero();
    ZeroWord(w);
  }

  /** pte_ptr masks with !0xFFF, the cloner with the address mask: the same table on clean entries. */
  lemma TableAddress(w: bv64)
    requires !Decode(w).nx && Decode(w).high == 0
    ensures w & !(0xfff as bv64) == W.FrameBits(w) << 12
  {
    hide W.Num, W.Nx, W.FrameBits, W.HighBits;
    W.NumZero();
    W.NumInjective(W.HighBits(w), 0);
    W.TableAddress(w);
  }
}
