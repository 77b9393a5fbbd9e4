// load_elf of pk/elf.c: the loading of a program's segments into its address space.

module Elf {
  import opened Options
  import opened PageTable
  import opened AddressSpace
  import opened VirtualMemory
  import FileTable
  import PageAllocator

  const PF_X: bv32 := 1
  const PF_W: bv32 := 2
  const PF_R: bv32 := 4

  // A program header: PT_LOAD, PT_INTERP or some other type.
  datatype Kind = Load | Interp | Other
  datatype Phdr = Phdr(kind: Kind, flags: bv32, offset: nat, vaddr: nat, filesz: nat, memsz: nat)

  // get_prot: ELF and mmap number their permission bits in opposite orders.
  function GetProt(flags: bv32): bv32 {
    (if flags & PF_X != 0 then PROT_EXEC else 0) |
    (if flags & PF_W != 0 then PROT_WRITE else 0) |
    (if flags & PF_R != 0 then PROT_READ else 0)
  }

  // The byte at an address, if its page is mapped.
  function ByteAt(space: Space, a: nat): Option<bv8> {
    if a / PGSIZE in space && a % PGSIZE < |space[a / PGSIZE].bytes| then Some(space[a / PGSIZE].bytes[a % PGSIZE])
    else None
  }

  function FileByte(bytes: seq<bv8>, i: nat): bv8 {
    if i < |bytes| then bytes[i] else 0
  }

  // What a segment puts at byte i of its memory image.
  function SegmentByte(ph: Phdr, bytes: seq<bv8>, i: nat): bv8 {
    if i < ph.filesz then FileByte(bytes, ph.offset + i) else 0
  }

  // Every byte of the segment reads as it should.
  ghost predicate Loaded(space: Space, ph: Phdr, bias: nat, bytes: seq<bv8>) {
    forall i :: 0 <= i < ph.memsz ==> ByteAt(space, ph.vaddr + bias + i) == Some(SegmentByte(ph, bytes, i))
  }

  // A page grants what p_flags asks for: bit 0 is execute, bit 1 write and bit 2 read. Its
  // entry has X and W as asked, and R as asked or if nothing is; a fault for reading is
  // granted if reading or writing is asked for.
  predicate AsHeader(page: bv8, flags: bv32) {
    && page & PTE_U != 0
    && (page & PTE_X != 0 <==> flags & 1 != 0) && (Permits(page, PROT_EXEC) <==> flags & 1 != 0)
    && (page & PTE_W != 0 <==> flags & 2 != 0) && (Permits(page, PROT_WRITE) <==> flags & 2 != 0)
    && (page & PTE_R != 0 <==> flags & 4 != 0 || flags & 3 == 0) && (Permits(page, PROT_READ) <==> flags & 6 != 0)
  }

  lemma ProtAsHeader(flags: bv32)
    ensures AsHeader(ProtToType(GetProt(flags), true), flags)
  {
  }

  // Every page of the segment has the segment's permissions.
  ghost predicate Protected(space: Space, ph: Phdr, bias: nat) {
    forall w :: FirstPage(ph, bias) <= w < EndPage(ph, bias) ==> w in space && AsHeader(space[w].flags, ph.flags)
  }

  predicate Loads(ph: Phdr) {
    ph.kind.Load? && ph.memsz > 0
  }

  // The pages a segment occupies.
  function FirstPage(ph: Phdr, bias: nat): nat { (ph.vaddr + bias) / PGSIZE }
  function EndPage(ph: Phdr, bias: nat): nat { PageEnd(ph.vaddr + bias + ph.memsz) }

  // Outside pages lo .. hi - 1 the space is the same.
  ghost predicate SameOutside(s: Space, s': Space, lo: nat, hi: nat) {
    forall w :: !(lo <= w < hi) ==> (w in s <==> w in s') && (w in s ==> s'[w] == s[w])
  }

  // ---- One mapping ----

  // Byte a of a mapping just made is the region's; other pages keep their bytes.
  lemma MappedByte(s: Space, r: Vmr, contents: seq<seq<bv8>>, a: nat)
    requires r.addr % PGSIZE == 0 && r.addr <= a < r.addr + r.length
    ensures ByteAt(MapIn(s, r, contents), a) == Some(RegionByte(r, contents, a - r.addr))
  {
    var w := a / PGSIZE;
    assert r.addr / PGSIZE <= w < PageEnd(r.addr + r.length);
    var page := RegionPage(r, contents, w);
    assert page.bytes[a % PGSIZE] == RegionByte(r, contents, w * PGSIZE - r.addr + a % PGSIZE);
  }

  // So are the bytes between the end of the region and the end of its last page.
  lemma MappedTail(s: Space, r: Vmr, contents: seq<seq<bv8>>, a: nat)
    requires r.addr % PGSIZE == 0 && 0 < r.length && r.addr + r.length <= a < PageEnd(r.addr + r.length) * PGSIZE
    ensures ByteAt(MapIn(s, r, contents), a) == Some(0)
  {
    var w := a / PGSIZE;
    assert r.addr / PGSIZE <= w < PageEnd(r.addr + r.length);
    var page := RegionPage(r, contents, w);
    assert page.bytes[a % PGSIZE] == RegionByte(r, contents, w * PGSIZE - r.addr + a % PGSIZE);
  }

  lemma MapInOutside(s: Space, r: Vmr, contents: seq<seq<bv8>>)
    requires r.addr % PGSIZE == 0
    ensures SameOutside(s, MapIn(s, r, contents), r.addr / PGSIZE, PageEnd(r.addr + r.length))
  {
  }

  // ---- Zeroing by the kernel ----

  // n bytes from a on, all in one page, set to zero.
  ghost function WithZeros(s: Space, a: nat, n: nat): (r: Space)
    requires a % PGSIZE == 0 && n <= PGSIZE && (n > 0 ==> a / PGSIZE in s && |s[a / PGSIZE].bytes| == PGSIZE)
    ensures n > 0 ==> a / PGSIZE in r && |r[a / PGSIZE].bytes| == PGSIZE
  {
    if n == 0 then s else WithByte(WithZeros(s, a, n - 1), a + n - 1, 0)
  }

  lemma {:induction false} ZeroedBytes(s: Space, a: nat, n: nat)
    requires a % PGSIZE == 0 && n <= PGSIZE && (n > 0 ==> a / PGSIZE in s && |s[a / PGSIZE].bytes| == PGSIZE)
    ensures forall b: nat :: ByteAt(WithZeros(s, a, n), b) == if a <= b < a + n then Some(0) else ByteAt(s, b)
    ensures SameOutside(s, WithZeros(s, a, n), a / PGSIZE, a / PGSIZE + 1)
  {
    if n > 0 {
      ZeroedBytes(s, a, n - 1);
      var t := WithZeros(s, a, n - 1);
      forall b: nat ensures ByteAt(WithZeros(s, a, n), b) == if a <= b < a + n then Some(0) else ByteAt(s, b) {
        assert ByteAt(WithByte(t, a + n - 1, 0), b) == if b == a + n - 1 then Some(0) else ByteAt(t, b);
      }
    }
  }

  lemma {:induction false} ZeroedFlags(s: Space, a: nat, n: nat, w: nat)
    requires a % PGSIZE == 0 && n <= PGSIZE && (n > 0 ==> a / PGSIZE in s && |s[a / PGSIZE].bytes| == PGSIZE)
    ensures w in WithZeros(s, a, n) <==> w in s
    ensures w in s ==> WithZeros(s, a, n)[w].flags == s[w].flags
  {
    if n > 0 {
      ZeroedFlags(s, a, n - 1, w);
    }
  }

  // A populated page that takes stores.
  ghost predicate Writable(slots: map<nat, Entry>, w: nat) {
    SlotAt(slots, w).Leaf? && Permits(SlotAt(slots, w).flags, PROT_WRITE)
  }

  lemma WritableKept(slots0: map<nat, Entry>, vmrs0: map<RegionId, Vmr>, slots: map<nat, Entry>,
                     vmrs: map<RegionId, Vmr>, w: nat)
    requires KeepsOutside(slots0, vmrs0, slots, vmrs, 0, 0) && Writable(slots0, w)
    ensures Writable(slots, w)
  {
    assert KeepsPage(slots0, vmrs0, slots, vmrs, w);
  }

  lemma WritableSeen(vm: Kernel, w: nat)
    requires Writable(vm.slots, w)
    ensures !vm.Panics(w) && w in vm.Space() && Permits(vm.Space()[w].flags, PROT_WRITE)
  {
    hide Permits;
    vm.SeenFlags(w);
  }

  // memset_user of zeros at the start of a page. A store that faults fatally ends it.
  method ZeroUser(vm: Kernel, a: nat, n: nat) returns (ok: bool)
    requires vm.Valid() && vm.pending == 0 && a % PGSIZE == 0 && n <= PGSIZE
    modifies vm`mem, vm`slots, vm`use, vm`vmrs, vm`freelist, vm`promised
    modifies vm.pa, vm.pa.storage, vm.ft`held, vm.ft`mapped, vm.ft`closed, vm.ft.refcnt
    ensures ok ==> vm.Valid() && vm.ft.held == old(vm.ft.held)
    ensures ok && n > 0 ==> a / PGSIZE in old(vm.Space()) && |old(vm.Space())[a / PGSIZE].bytes| == PGSIZE
    ensures ok ==> vm.Space() == WithZeros(old(vm.Space()), a, n)
    ensures ok ==> KeepsOutside(old(vm.slots), old(vm.vmrs), vm.slots, vm.vmrs, 0, 0)
    ensures ok && n > 0 ==> SlotAt(vm.slots, a / PGSIZE).Leaf?
    ensures ok ==> |vm.pa.free| - vm.promised == old(|vm.pa.free| - vm.promised)
    ensures n == 0 || Writable(old(vm.slots), a / PGSIZE) ==> ok
  {
    hide Kernel.Valid, Kernel.Space, Kernel.Panics, WithByte, Permits, KeepsOutside, Covered, Writable;
    vm.SlotKinds();
    KeepsSelf(vm.slots, vm.vmrs);
    var k := 0;
    while k < n
      invariant k <= n
      invariant vm.Valid() && vm.ft.held == old(vm.ft.held)
      invariant k > 0 ==> a / PGSIZE in old(vm.Space()) && |old(vm.Space())[a / PGSIZE].bytes| == PGSIZE
      invariant vm.Space() == WithZeros(old(vm.Space()), a, k)
      invariant KeepsOutside(old(vm.slots), old(vm.vmrs), vm.slots, vm.vmrs, 0, 0)
      invariant k > 0 ==> SlotAt(vm.slots, a / PGSIZE).Leaf?
      invariant |vm.pa.free| - vm.promised == old(|vm.pa.free| - vm.promised)
    {
      assert (a + k) / PGSIZE == a / PGSIZE;
      ghost var slots1, vmrs1 := vm.slots, vm.vmrs;
      if Writable(old(vm.slots), a / PGSIZE) {
        WritableKept(old(vm.slots), old(vm.vmrs), vm.slots, vm.vmrs, a / PGSIZE);
        WritableSeen(vm, a / PGSIZE);
      }
      var r := vm.StoreByte(a + k, 0);
      if r != Granted {
        return false;
      }
      KeepsTrans(old(vm.slots), old(vm.vmrs), slots1, vmrs1, vm.slots, vm.vmrs, 0, 0);
      k := k + 1;
    }
    ok := true;
  }

  // ---- One segment ----

  // The number of bytes after vaddr that the file mapping's pages hold.
  function MappedBytes(ph: Phdr): nat {
    RoundUp(ph.filesz + ph.vaddr % PGSIZE) - ph.vaddr % PGSIZE
  }

  function FileRegion(ph: Phdr, bias: nat, f: nat): Vmr
    requires Fits(ph, bias) && ph.offset >= ph.vaddr % PGSIZE
  {
    var pad := ph.vaddr % PGSIZE;
    Vmr(ph.vaddr + bias - pad, ph.filesz + pad, Some(f), ph.offset - pad, PageCount(ph.filesz + pad),
        GetProt(ph.flags) | PROT_WRITE)
  }

  // Address arithmetic on the header stays within 64 bits.
  predicate Fits(ph: Phdr, bias: nat) {
    && bias % PGSIZE == 0 && ph.offset < WORD
    && ph.vaddr + bias + ph.memsz + 2 * PGSIZE < WORD && ph.filesz + 2 * PGSIZE < WORD
  }

  // The page at which the file mapping ends and the anonymous one starts.
  function MidPage(ph: Phdr, bias: nat): nat
    requires Fits(ph, bias)
  {
    (ph.vaddr + bias + MappedBytes(ph)) / PGSIZE
  }

  lemma Spans(ph: Phdr, bias: nat)
    requires Fits(ph, bias) && ph.filesz <= ph.memsz && ph.memsz > 0
    ensures FirstPage(ph, bias) <= MidPage(ph, bias)
    ensures ph.memsz > MappedBytes(ph) ==> MidPage(ph, bias) <= EndPage(ph, bias)
    ensures ph.memsz <= MappedBytes(ph) ==> MidPage(ph, bias) == EndPage(ph, bias)
    ensures ph.filesz == 0 ==> MidPage(ph, bias) == FirstPage(ph, bias) + (if ph.vaddr % PGSIZE == 0 then 0 else 1)
    ensures ph.filesz > 0 ==> MidPage(ph, bias) == PageEnd(ph.vaddr + bias + ph.filesz)
  {
    Alignment(ph, bias);
  }

  // Once a segment's mappings are made and its first page zeroed, every page of it is
  // populated or held by a region of the segment's own.
  ghost predicate Placed(slots: map<nat, Entry>, vmrs: map<RegionId, Vmr>, ph: Phdr, bias: nat)
    requires Fits(ph, bias)
  {
    && (ph.filesz > 0 ==>
          AllMappedWith(slots, vmrs, FirstPage(ph, bias), MidPage(ph, bias), GetProt(ph.flags) | PROT_WRITE))
    && (ph.filesz == 0 && ph.vaddr % PGSIZE > 0 ==> SlotAt(slots, FirstPage(ph, bias)).Leaf?)
    && AllMappedWith(slots, vmrs, MidPage(ph, bias), EndPage(ph, bias), GetProt(ph.flags))
  }

  // So no page elsewhere shares a region with it.
  lemma PlacedApart(slots: map<nat, Entry>, vmrs: map<RegionId, Vmr>, ph: Phdr, bias: nat, w: nat, u: nat)
    requires Fits(ph, bias) && ph.filesz <= ph.memsz && ph.memsz > 0
    requires Placed(slots, vmrs, ph, bias) && Covered(slots, vmrs)
    requires FirstPage(ph, bias) <= u < EndPage(ph, bias) && !(FirstPage(ph, bias) <= w < EndPage(ph, bias))
    ensures !Touches(slots, w, u)
  {
    hide FirstPage, EndPage, MidPage, MappedBytes, GetProt, MappedWith, Covered, Touches;
    Spans(ph, bias);
    var prot := GetProt(ph.flags);
    if u >= MidPage(ph, bias) {
      RegionWithin(slots, vmrs, w, u, MidPage(ph, bias), EndPage(ph, bias), prot);
    } else if ph.filesz > 0 {
      RegionWithin(slots, vmrs, w, u, FirstPage(ph, bias), MidPage(ph, bias), prot | PROT_WRITE);
    } else {
      LeafAlone(slots, w, u);
    }
  }

  // Pages that share a mapping's region are pages of the mapping.
  lemma RegionWithin(slots: map<nat, Entry>, vmrs: map<RegionId, Vmr>, w: nat, u: nat, lo: nat, hi: nat, prot: bv32)
    requires MappedWith(slots, vmrs, u, lo, hi, prot) && Covered(slots, vmrs) && lo <= u < hi
    ensures Touches(slots, w, u) ==> lo <= w < hi
  {
  }

  lemma LeafAlone(slots: map<nat, Entry>, w: nat, u: nat)
    requires SlotAt(slots, u).Leaf?
    ensures Touches(slots, w, u) <==> w == u
  {
  }

  // And its own protection is one that each of its pages accepts.
  lemma PlacedProtectable(slots: map<nat, Entry>, vmrs: map<RegionId, Vmr>, ph: Phdr, bias: nat, w: nat)
    requires Fits(ph, bias) && ph.filesz <= ph.memsz && ph.memsz > 0 && (ph.filesz > 0 || ph.vaddr % PGSIZE == 0)
    requires Placed(slots, vmrs, ph, bias) && FirstPage(ph, bias) <= w < EndPage(ph, bias)
    ensures Protectable(slots, vmrs, w, GetProt(ph.flags))
  {
    hide FirstPage, EndPage, MidPage, MappedBytes, GetProt, Protectable, MappedWith;
    Spans(ph, bias);
    if w < MidPage(ph, bias) {
      WithWriteAccepted(slots, vmrs, w, FirstPage(ph, bias), MidPage(ph, bias), GetProt(ph.flags));
    } else {
      SameAccepted(slots, vmrs, w, MidPage(ph, bias), EndPage(ph, bias), GetProt(ph.flags));
    }
  }

  lemma WithWriteAccepted(slots: map<nat, Entry>, vmrs: map<RegionId, Vmr>, w: nat, lo: nat, hi: nat, prot: bv32)
    requires MappedWith(slots, vmrs, w, lo, hi, prot | PROT_WRITE)
    ensures Protectable(slots, vmrs, w, prot)
  {
    hide Protectable, MappedWith;
    assert prot & !(prot | PROT_WRITE) == 0;
    MappedProtectable(slots, vmrs, w, lo, hi, prot | PROT_WRITE, prot);
  }

  lemma SameAccepted(slots: map<nat, Entry>, vmrs: map<RegionId, Vmr>, w: nat, lo: nat, hi: nat, prot: bv32)
    requires MappedWith(slots, vmrs, w, lo, hi, prot)
    ensures Protectable(slots, vmrs, w, prot)
  {
    hide Protectable, MappedWith;
    assert prot & !prot == 0;
    MappedProtectable(slots, vmrs, w, lo, hi, prot, prot);
  }

  // What load_elf needs of a segment: it ends in the user half, and its bytes are in the
  // file or, if it has none, it starts on a page.
  predicate WellFormed(ph: Phdr, bias: nat, size: nat) {
    && ph.filesz <= ph.memsz && ph.vaddr + bias + ph.memsz <= MMAP_MAX
    && if ph.filesz > 0 then ph.vaddr % PGSIZE <= ph.offset && ph.offset + ph.filesz <= size else ph.vaddr % PGSIZE == 0
  }

  // What its mappings are charged at most.
  function FileCost(ph: Phdr, bias: nat): nat
    requires Fits(ph, bias)
  {
    if ph.filesz > 0 then Charge(ph.filesz + ph.vaddr % PGSIZE) else 0
  }

  function ZeroCost(ph: Phdr, bias: nat): nat
    requires Fits(ph, bias)
  {
    if ph.memsz > MappedBytes(ph) then Charge(ph.memsz - MappedBytes(ph)) else 0
  }

  // A file mapping starts at or after the start of the file.
  predicate OffsetOk(ph: Phdr) {
    ph.filesz > 0 ==> ph.offset >= ph.vaddr % PGSIZE
  }

  // The space after the steps that fill a segment.
  ghost function FilePart(s: Space, ph: Phdr, bias: nat, f: nat, contents: seq<seq<bv8>>): Space
    requires Fits(ph, bias) && OffsetOk(ph)
  {
    if ph.filesz == 0 then s else MapIn(s, FileRegion(ph, bias, f), contents)
  }

  function ZeroRegion(ph: Phdr, bias: nat): (r: Vmr)
    requires Fits(ph, bias) && ph.memsz > MappedBytes(ph)
    ensures r.addr % PGSIZE == 0
  {
    Alignment(ph, bias);
    var n := ph.memsz - MappedBytes(ph);
    Vmr(ph.vaddr + bias + MappedBytes(ph), n, None, 0, PageCount(n), GetProt(ph.flags))
  }

  ghost function ZeroPart(s: Space, ph: Phdr, bias: nat, contents: seq<seq<bv8>>): Space
    requires Fits(ph, bias)
  {
    if ph.memsz > MappedBytes(ph) then MapIn(s, ZeroRegion(ph, bias), contents) else s
  }

  lemma Alignment(ph: Phdr, bias: nat)
    requires Fits(ph, bias)
    ensures (ph.vaddr + bias - ph.vaddr % PGSIZE) % PGSIZE == 0
    ensures (ph.vaddr + bias + MappedBytes(ph)) % PGSIZE == 0
    ensures ph.filesz <= MappedBytes(ph)
    ensures ph.filesz > 0 ==> PageEnd(ph.vaddr + bias + ph.filesz) * PGSIZE == ph.vaddr + bias + MappedBytes(ph)
    ensures FirstPage(ph, bias) * PGSIZE == ph.vaddr + bias - ph.vaddr % PGSIZE
  {
    Aligned(ph.vaddr, bias, ph.filesz);
  }

  lemma Aligned(vaddr: nat, bias: nat, filesz: nat)
    requires bias % PGSIZE == 0
    ensures var pad := vaddr % PGSIZE;
            (vaddr + bias - pad) % PGSIZE == 0 && (vaddr + bias + RoundUp(filesz + pad) - pad) % PGSIZE == 0 &&
            (vaddr + bias) / PGSIZE * PGSIZE == vaddr + bias - pad && filesz + pad <= RoundUp(filesz + pad) &&
            (filesz > 0 ==> PageEnd(vaddr + bias + filesz) * PGSIZE == vaddr + bias + RoundUp(filesz + pad) - pad)
  {
    assert (vaddr + bias) % PGSIZE == vaddr % PGSIZE;
  }

  // Zeroing touches a page that is there.
  ghost predicate CanZero(s: Space, ph: Phdr, bias: nat)
    requires bias % PGSIZE == 0
  {
    ph.vaddr % PGSIZE > 0 ==> FirstPage(ph, bias) in s && |s[FirstPage(ph, bias)].bytes| == PGSIZE
  }

  // The whole of a segment's contents: its file pages, the bytes before it in its first
  // page zeroed, and its anonymous pages.
  ghost function Filled(s: Space, ph: Phdr, bias: nat, f: nat, contents: seq<seq<bv8>>): Space
    requires Fits(ph, bias) && OffsetOk(ph) && CanZero(FilePart(s, ph, bias, f, contents), ph, bias)
  {
    Alignment(ph, bias);
    var t := FilePart(s, ph, bias, f, contents);
    ZeroPart(WithZeros(t, FirstPage(ph, bias) * PGSIZE, ph.vaddr % PGSIZE), ph, bias, contents)
  }

  // Byte i of a segment that has file bytes, or starts on a page.
  lemma FilledByte(s: Space, ph: Phdr, bias: nat, f: nat, contents: seq<seq<bv8>>, i: nat)
    requires Fits(ph, bias) && OffsetOk(ph) && CanZero(FilePart(s, ph, bias, f, contents), ph, bias)
    requires f < |contents| && ph.filesz <= ph.memsz && i < ph.memsz
    requires ph.filesz > 0 || ph.vaddr % PGSIZE == 0
    ensures ByteAt(Filled(s, ph, bias, f, contents), ph.vaddr + bias + i) == Some(SegmentByte(ph, contents[f], i))
  {
    hide Filled, FilePart, ZeroPart, WithZeros, MapIn, MappedBytes, PageEnd, ByteAt, SameOutside, CanZero;
    var pad, a := ph.vaddr % PGSIZE, ph.vaddr + bias + i;
    Alignment(ph, bias);
    var t := FilePart(s, ph, bias, f, contents);
    FilledIs(s, ph, bias, f, contents);
    var z := WithZeros(t, FirstPage(ph, bias) * PGSIZE, pad);
    ZeroedBytes(t, FirstPage(ph, bias) * PGSIZE, pad);
    assert ByteAt(z, a) == ByteAt(t, a);
    if i < MappedBytes(ph) {
      var r := FileRegion(ph, bias, f);
      FilePartIs(s, ph, bias, f, contents);
      ZeroPartBelow(z, ph, bias, contents, a);
      if i < ph.filesz {
        MappedByte(s, r, contents, a);
      } else {
        assert r.addr + r.length == ph.vaddr + bias + ph.filesz;
        MappedTail(s, r, contents, a);
      }
    } else {
      ZeroPartIs(z, ph, bias, contents);
      MappedByte(z, ZeroRegion(ph, bias), contents, a);
    }
  }

  lemma FilledIs(s: Space, ph: Phdr, bias: nat, f: nat, contents: seq<seq<bv8>>)
    requires Fits(ph, bias) && OffsetOk(ph) && CanZero(FilePart(s, ph, bias, f, contents), ph, bias)
    ensures var t := FilePart(s, ph, bias, f, contents); var a := FirstPage(ph, bias) * PGSIZE;
            (ph.vaddr % PGSIZE > 0 ==> a / PGSIZE in t && |t[a / PGSIZE].bytes| == PGSIZE) &&
            Filled(s, ph, bias, f, contents) == ZeroPart(WithZeros(t, a, ph.vaddr % PGSIZE), ph, bias, contents)
  {
  }

  lemma FilePartIs(s: Space, ph: Phdr, bias: nat, f: nat, contents: seq<seq<bv8>>)
    requires Fits(ph, bias) && OffsetOk(ph)
    ensures MappedBytes(ph) > 0 && (ph.filesz > 0 || ph.vaddr % PGSIZE == 0) ==> ph.filesz > 0
    ensures ph.filesz > 0 ==> FilePart(s, ph, bias, f, contents) == MapIn(s, FileRegion(ph, bias, f), contents)
  {
  }

  lemma ZeroPartIs(s: Space, ph: Phdr, bias: nat, contents: seq<seq<bv8>>)
    requires Fits(ph, bias) && ph.memsz > MappedBytes(ph)
    ensures ZeroRegion(ph, bias).addr % PGSIZE == 0 &&
              ZeroPart(s, ph, bias, contents) == MapIn(s, ZeroRegion(ph, bias), contents)
  {
    Alignment(ph, bias);
  }

  // The anonymous pages do not reach down to the file's.
  lemma ZeroPartBelow(s: Space, ph: Phdr, bias: nat, contents: seq<seq<bv8>>, a: nat)
    requires Fits(ph, bias) && a < ph.vaddr + bias + MappedBytes(ph)
    ensures ByteAt(ZeroPart(s, ph, bias, contents), a) == ByteAt(s, a)
  {
    Alignment(ph, bias);
    if ph.memsz > MappedBytes(ph) {
      MapInOutside(s, ZeroRegion(ph, bias), contents);
    }
  }

  // Other pages keep their bytes.
  lemma FilledOutside(s: Space, ph: Phdr, bias: nat, f: nat, contents: seq<seq<bv8>>)
    requires Fits(ph, bias) && OffsetOk(ph) && CanZero(FilePart(s, ph, bias, f, contents), ph, bias)
    requires ph.filesz <= ph.memsz && ph.memsz > 0
    ensures SameOutside(s, Filled(s, ph, bias, f, contents), FirstPage(ph, bias), EndPage(ph, bias))
  {
    hide Filled, FilePart, ZeroPart, WithZeros, MapIn, CanZero, SameOutside;
    var lo, hi := FirstPage(ph, bias), EndPage(ph, bias);
    Alignment(ph, bias);
    var t := FilePart(s, ph, bias, f, contents);
    FilledIs(s, ph, bias, f, contents);
    ZeroedBytes(t, FirstPage(ph, bias) * PGSIZE, ph.vaddr % PGSIZE);
    var z := WithZeros(t, FirstPage(ph, bias) * PGSIZE, ph.vaddr % PGSIZE);
    SameStill(s, lo, hi);
    if ph.filesz > 0 {
      FilePartIs(s, ph, bias, f, contents);
      MapInOutside(s, FileRegion(ph, bias, f), contents);
      SameThen(s, s, t, lo, hi, lo, PageEnd(ph.vaddr + bias + ph.filesz));
    } else {
      NoFilePart(s, ph, bias, f, contents);
    }
    SameThen(s, t, z, lo, hi, lo, lo + 1);
    if ph.memsz > MappedBytes(ph) {
      ZeroPartIs(z, ph, bias, contents);
      MapInOutside(z, ZeroRegion(ph, bias), contents);
      SameThen(s, z, ZeroPart(z, ph, bias, contents), lo, hi, ZeroRegion(ph, bias).addr / PGSIZE, hi);
    } else {
      NoZeroPart(z, ph, bias, contents);
    }
  }

  lemma SameStill(s: Space, lo: nat, hi: nat)
    ensures SameOutside(s, s, lo, hi)
  {
  }

  // A further change within the range.
  lemma SameThen(s: Space, t: Space, u: Space, lo: nat, hi: nat, lo': nat, hi': nat)
    requires SameOutside(s, t, lo, hi) && SameOutside(t, u, lo', hi') && lo <= lo' && hi' <= hi
    ensures SameOutside(s, u, lo, hi)
  {
  }

  lemma NoFilePart(s: Space, ph: Phdr, bias: nat, f: nat, contents: seq<seq<bv8>>)
    requires Fits(ph, bias) && OffsetOk(ph) && ph.filesz == 0
    ensures FilePart(s, ph, bias, f, contents) == s
  {
  }

  lemma NoZeroPart(s: Space, ph: Phdr, bias: nat, contents: seq<seq<bv8>>)
    requires Fits(ph, bias) && ph.memsz <= MappedBytes(ph)
    ensures ZeroPart(s, ph, bias, contents) == s
  {
  }

  // ---- The loader ----

  // The file mapping of a segment.
  method MapFile(vm: Kernel, f: nat, ph: Phdr, bias: nat) returns (ok: bool)
    requires vm.Valid() && vm.pending == 0 && f < FileTable.MAX_FILES && vm.ft.held[f] > 0
    requires Fits(ph, bias) && ph.filesz > 0 && |vm.ft.contents[f]| < WORD - PGSIZE
    modifies vm`mem, vm`tables, vm`slots, vm`use, vm`vmrs, vm`freelist, vm`promised, vm`placing, vm`pending, vm`born
    modifies vm`guess
    modifies vm.pa, vm.pa.storage, vm.ft`held, vm.ft`mapped, vm.ft`closed, vm.ft.refcnt
    ensures ok ==> vm.Valid() && vm.pending == 0 && vm.ft.held == old(vm.ft.held)
    ensures ok ==> OffsetOk(ph) && ph.vaddr + bias + ph.filesz <= MMAP_MAX
    ensures ok ==> vm.Space() == FilePart(old(vm.Space()), ph, bias, f, vm.ft.contents)
    ensures ok ==>
              AllMappedWith(vm.slots, vm.vmrs, FirstPage(ph, bias), MidPage(ph, bias), GetProt(ph.flags) | PROT_WRITE)
    ensures ok && ph.vaddr % PGSIZE > 0 ==> Writable(vm.slots, FirstPage(ph, bias))
    ensures ok ==> |vm.pa.free| - vm.promised + FileCost(ph, bias) >= old(|vm.pa.free| - vm.promised)
    ensures WellFormed(ph, bias, |vm.ft.contents[f]|) && old(|vm.pa.free| - vm.promised) > FileCost(ph, bias) ==> ok
  {
    hide Kernel.Valid, Kernel.Space, MapIn, Window, FilePart, GetProt, PageCount, FileRegion, MappedBytes, FirstPage,
      PageEnd, MidPage, Writable, AllMappedWith, AllLeaf, KeepsOutside;
    var pad := ph.vaddr % PGSIZE;
    var base := ph.vaddr + bias - pad;
    Alignment(ph, bias);
    FileSpan(ph, bias);
    vm.PagesCounted();
    WrappedOffset(ph.offset, pad);
    if pad <= ph.offset {
      FilePartIs(vm.Space(), ph, bias, f, vm.ft.contents);
      FileRegionIs(ph, bias, f);
    }
    var flags := MapFlags(true, true, false, pad != 0);
    var offset := (ph.offset + WORD - pad) % WORD;
    var r := vm.Mmap(base, ph.filesz + pad, GetProt(ph.flags) | PROT_WRITE, flags, Some(f), offset);
    ok := r == Mapped(base);
    if ok && pad > 0 {
      FirstWritable(vm.slots, vm.vmrs, FirstPage(ph, bias), MidPage(ph, bias), GetProt(ph.flags));
    }
  }

  lemma FileSpan(ph: Phdr, bias: nat)
    requires Fits(ph, bias) && ph.filesz > 0
    ensures var pad := ph.vaddr % PGSIZE;
            (ph.vaddr + bias - pad) / PGSIZE == FirstPage(ph, bias) < MidPage(ph, bias) &&
            PageEnd(ph.vaddr + bias - pad + (ph.filesz + pad)) == MidPage(ph, bias)
    ensures PageCount(ph.filesz + ph.vaddr % PGSIZE) == (ph.filesz + ph.vaddr % PGSIZE - 1) / PGSIZE + 1
  {
    Alignment(ph, bias);
  }

  lemma FirstWritable(slots: map<nat, Entry>, vmrs: map<RegionId, Vmr>, lo: nat, hi: nat, prot: bv32)
    requires lo < hi && AllLeaf(slots, lo, hi) && AllMappedWith(slots, vmrs, lo, hi, prot | PROT_WRITE)
    ensures Writable(slots, lo)
  {
    assert MappedWith(slots, vmrs, lo, lo, hi, prot | PROT_WRITE);
    WriteFlag(prot);
  }

  lemma WriteFlag(prot: bv32)
    ensures Permits(ProtToType(prot | PROT_WRITE, true), PROT_WRITE)
  {
  }

  lemma WrappedOffset(offset: nat, pad: nat)
    requires offset < WORD && pad < PGSIZE
    ensures (offset + WORD - pad) % WORD == if pad <= offset then offset - pad else offset + WORD - pad
  {
  }

  lemma FileRegionIs(ph: Phdr, bias: nat, f: nat)
    requires Fits(ph, bias) && ph.offset >= ph.vaddr % PGSIZE
    ensures var pad := ph.vaddr % PGSIZE;
            FileRegion(ph, bias, f) == Vmr(ph.vaddr + bias - pad, ph.filesz + pad, Some(f), ph.offset - pad,
                                           PageCount(ph.filesz + pad), GetProt(ph.flags) | PROT_WRITE)
  {
  }

  // The anonymous mapping that completes a segment.
  method MapZeros(vm: Kernel, ph: Phdr, bias: nat) returns (ok: bool)
    requires vm.Valid() && vm.pending == 0 && Fits(ph, bias)
    modifies vm`mem, vm`tables, vm`slots, vm`use, vm`vmrs, vm`freelist, vm`promised, vm`placing, vm`pending, vm`born
    modifies vm`guess
    modifies vm.pa, vm.pa.storage, vm.ft`held, vm.ft`mapped, vm.ft`closed, vm.ft.refcnt
    ensures ok ==> vm.Valid() && vm.pending == 0 && vm.ft.held == old(vm.ft.held)
    ensures ok && ph.memsz > MappedBytes(ph) ==> ph.vaddr + bias + ph.memsz <= MMAP_MAX
    ensures ok ==> vm.Space() == ZeroPart(old(vm.Space()), ph, bias, vm.ft.contents)
    ensures ok ==> KeepsOutside(old(vm.slots), old(vm.vmrs), vm.slots, vm.vmrs, MidPage(ph, bias), EndPage(ph, bias))
    ensures ok ==> AllMappedWith(vm.slots, vm.vmrs, MidPage(ph, bias), EndPage(ph, bias), GetProt(ph.flags))
    ensures ok ==> |vm.pa.free| - vm.promised + ZeroCost(ph, bias) >= old(|vm.pa.free| - vm.promised)
    ensures ph.vaddr + bias + ph.memsz <= MMAP_MAX && old(|vm.pa.free| - vm.promised) > ZeroCost(ph, bias) ==> ok
  {
    hide Kernel.Valid, Kernel.Space, MapIn, Window, MappedBytes, PageCount, PageEnd, GetProt, MidPage, EndPage,
      KeepsOutside, AllMappedWith, AllLeaf, Covered;
    var mapped := MappedBytes(ph);
    Alignment(ph, bias);
    ZeroSpan(ph, bias);
    vm.PagesCounted();
    if ph.memsz <= mapped {
      vm.SlotKinds();
      KeepsSelf(vm.slots, vm.vmrs);
      KeepsWider(vm.slots, vm.vmrs, vm.slots, vm.vmrs, 0, 0, MidPage(ph, bias), EndPage(ph, bias));
      NoneMapped(vm.slots, vm.vmrs, MidPage(ph, bias), EndPage(ph, bias), GetProt(ph.flags));
      return true;
    }
    var start := ph.vaddr + bias + mapped;
    var r := vm.Mmap(start, ph.memsz - mapped, GetProt(ph.flags), MapFlags(true, true, true, false), None, 0);
    ok := r == Mapped(start);
  }

  lemma ZeroSpan(ph: Phdr, bias: nat)
    requires Fits(ph, bias)
    ensures ph.memsz > MappedBytes(ph) ==>
              MidPage(ph, bias) == (ph.vaddr + bias + MappedBytes(ph)) / PGSIZE &&
              EndPage(ph, bias) == PageEnd(ph.vaddr + bias + MappedBytes(ph) + (ph.memsz - MappedBytes(ph)))
    ensures ph.memsz <= MappedBytes(ph) ==> EndPage(ph, bias) <= MidPage(ph, bias)
  {
    hide MappedBytes;
    Alignment(ph, bias);
  }

  lemma NoneMapped(slots: map<nat, Entry>, vmrs: map<RegionId, Vmr>, lo: nat, hi: nat, prot: bv32)
    requires hi <= lo
    ensures AllMappedWith(slots, vmrs, lo, hi, prot)
  {
  }

  ghost predicate IsFilled(s: Space, s': Space, ph: Phdr, bias: nat, f: nat, contents: seq<seq<bv8>>)
    requires Fits(ph, bias)
  {
    OffsetOk(ph) && CanZero(FilePart(s, ph, bias, f, contents), ph, bias) && s' == Filled(s, ph, bias, f, contents)
  }

  // Taking write permission back changes no byte.
  lemma SegmentDone(s: Space, filled: Space, s': Space, ph: Phdr, bias: nat, f: nat, contents: seq<seq<bv8>>,
                    prot: bv32)
    requires Fits(ph, bias) && ph.filesz <= ph.memsz && ph.memsz > 0 && f < |contents|
    requires IsFilled(s, filled, ph, bias, f, contents) && Narrowed(filled, s', prot)
    requires SameOutside(filled, s', FirstPage(ph, bias), EndPage(ph, bias))
    ensures ph.filesz > 0 || ph.vaddr % PGSIZE == 0 ==> Loaded(s', ph, bias, contents[f])
    ensures SameOutside(s, s', FirstPage(ph, bias), EndPage(ph, bias))
  {
    hide Filled, CanZero, FilePart, FirstPage, EndPage;
    FilledOutside(s, ph, bias, f, contents);
    SameThen(s, filled, s', FirstPage(ph, bias), EndPage(ph, bias), FirstPage(ph, bias), EndPage(ph, bias));
    if ph.filesz > 0 || ph.vaddr % PGSIZE == 0 {
      forall i | 0 <= i < ph.memsz ensures ByteAt(s', ph.vaddr + bias + i) == Some(SegmentByte(ph, contents[f], i)) {
        FilledByte(s, ph, bias, f, contents, i);
      }
    }
  }

  // A writable segment's pages have its permissions, file pages and anonymous ones.
  lemma FilledFlags(s: Space, ph: Phdr, bias: nat, f: nat, contents: seq<seq<bv8>>)
    requires Fits(ph, bias) && OffsetOk(ph) && CanZero(FilePart(s, ph, bias, f, contents), ph, bias)
    requires ph.filesz <= ph.memsz && ph.memsz > 0 && (ph.filesz > 0 || ph.vaddr % PGSIZE == 0)
    requires GetProt(ph.flags) & PROT_WRITE != 0
    ensures Protected(Filled(s, ph, bias, f, contents), ph, bias)
  {
    hide Filled, FilePart, ZeroPart, WithZeros, MapIn, MappedBytes, GetProt, FileRegion, ZeroRegion, AsHeader,
      ProtToType;
    ProtAsHeader(ph.flags);
    Alignment(ph, bias);
    FilledIs(s, ph, bias, f, contents);
    var (t, a) := (FilePart(s, ph, bias, f, contents), FirstPage(ph, bias) * PGSIZE);
    var z := WithZeros(t, a, ph.vaddr % PGSIZE);
    forall w | FirstPage(ph, bias) <= w < EndPage(ph, bias)
      ensures w in ZeroPart(z, ph, bias, contents) &&
                ZeroPart(z, ph, bias, contents)[w].flags == ProtToType(GetProt(ph.flags), true)
    {
      if (w + 1) * PGSIZE <= ph.vaddr + bias + MappedBytes(ph) {
        FileFlags(s, ph, bias, f, contents, w);
        ZeroedFlags(t, a, ph.vaddr % PGSIZE, w);
        ZeroPartSkips(z, ph, bias, contents, w);
      } else {
        ZeroFlags(z, ph, bias, contents, w);
      }
    }
  }

  lemma FileFlags(s: Space, ph: Phdr, bias: nat, f: nat, contents: seq<seq<bv8>>, w: nat)
    requires Fits(ph, bias) && OffsetOk(ph) && GetProt(ph.flags) & PROT_WRITE != 0 && FirstPage(ph, bias) <= w
    requires (ph.filesz > 0 || ph.vaddr % PGSIZE == 0) && (w + 1) * PGSIZE <= ph.vaddr + bias + MappedBytes(ph)
    ensures w in FilePart(s, ph, bias, f, contents)
    ensures FilePart(s, ph, bias, f, contents)[w].flags == ProtToType(GetProt(ph.flags), true)
  {
    hide GetProt, FilePart, MappedBytes, ProtToType;
    Alignment(ph, bias);
    FilePartIs(s, ph, bias, f, contents);
    WriteKept(GetProt(ph.flags));
    NoBytes(ph);
    var r := FileRegion(ph, bias, f);
    assert r.addr == FirstPage(ph, bias) * PGSIZE && r.addr + r.length == ph.vaddr + bias + ph.filesz;
    MappedFlags(s, r, contents, w);
  }

  lemma NoBytes(ph: Phdr)
    ensures ph.filesz == 0 && ph.vaddr % PGSIZE == 0 ==> MappedBytes(ph) == 0
  {
  }

  lemma WriteKept(prot: bv32)
    requires prot & PROT_WRITE != 0
    ensures prot | PROT_WRITE == prot
  {
  }

  lemma MappedFlags(s: Space, r: Vmr, contents: seq<seq<bv8>>, w: nat)
    requires r.addr % PGSIZE == 0 && r.addr / PGSIZE <= w < PageEnd(r.addr + r.length)
    ensures w in MapIn(s, r, contents) && MapIn(s, r, contents)[w].flags == ProtToType(r.prot, true)
  {
  }

  lemma ZeroPartSkips(s: Space, ph: Phdr, bias: nat, contents: seq<seq<bv8>>, w: nat)
    requires Fits(ph, bias) && w in s && (w + 1) * PGSIZE <= ph.vaddr + bias + MappedBytes(ph)
    ensures w in ZeroPart(s, ph, bias, contents) && ZeroPart(s, ph, bias, contents)[w].flags == s[w].flags
  {
    hide MappedBytes;
    Alignment(ph, bias);
  }

  lemma ZeroFlags(s: Space, ph: Phdr, bias: nat, contents: seq<seq<bv8>>, w: nat)
    requires Fits(ph, bias) && w < EndPage(ph, bias) && ph.vaddr + bias + MappedBytes(ph) < (w + 1) * PGSIZE
    ensures w in ZeroPart(s, ph, bias, contents) &&
              ZeroPart(s, ph, bias, contents)[w].flags == ProtToType(GetProt(ph.flags), true)
  {
    hide MappedBytes, GetProt, ProtToType, MapIn;
    Alignment(ph, bias);
    assert ph.memsz > MappedBytes(ph);
    ZeroPartIs(s, ph, bias, contents);
    MappedFlags(s, ZeroRegion(ph, bias), contents, w);
  }

  lemma FillDone(s: Space, t: Space, z: Space, s': Space, ph: Phdr, bias: nat, f: nat, contents: seq<seq<bv8>>)
    requires Fits(ph, bias) && OffsetOk(ph)
    requires t == if ph.filesz == 0 then s else FilePart(s, ph, bias, f, contents)
    requires var a := ph.vaddr + bias - ph.vaddr % PGSIZE; var pad := ph.vaddr % PGSIZE;
             a % PGSIZE == 0 && (pad > 0 ==> a / PGSIZE in t && |t[a / PGSIZE].bytes| == PGSIZE) &&
             z == WithZeros(t, a, pad)
    requires s' == ZeroPart(z, ph, bias, contents)
    ensures IsFilled(s, s', ph, bias, f, contents)
    ensures ph.vaddr % PGSIZE > 0 ==> FirstPage(ph, bias) in t
  {
    hide FilePart, ZeroPart, WithZeros, Filled;
    Alignment(ph, bias);
    if ph.filesz == 0 {
      NoFilePart(s, ph, bias, f, contents);
    }
    assert (ph.vaddr + bias - ph.vaddr % PGSIZE) / PGSIZE == FirstPage(ph, bias);
    FilledIs(s, ph, bias, f, contents);
  }

  lemma ContentsKnown(vm: Kernel)
    requires vm.Valid()
    ensures |vm.ft.contents| == FileTable.MAX_FILES
  {
    hide PageAllocator.Pages.Valid, Radix, Represents, Owned, Records, Accounted, FilesCounted, WXBounded, Limits,
      SpaceOf;
  }

  method SetBrkMin(vm: Kernel, end: nat)
    requires vm.Valid()
    modifies vm`brkMin
    ensures vm.Valid() && vm.brkMin == end && vm.Space() == old(vm.Space())
  {
    hide PageAllocator.Pages.Valid, FileTable.Files.Valid, Radix, Represents, Owned, Records, Accounted, FilesCounted,
      WXBounded, Limits, SpaceOf;
    vm.brkMin := end;
  }

  lemma UserPage(vm: Kernel, w: nat)
    requires vm.Valid() && w in vm.Space()
    ensures w < USER_PAGES
  {
    hide PageAllocator.Pages.Valid, FileTable.Files.Valid, Radix, Owned, Records, Accounted, FilesCounted, WXBounded,
      Limits;
  }

  // A segment whose mappings and zeroing succeeded lies in the user half.
  lemma SegmentEnd(ph: Phdr, bias: nat)
    requires Fits(ph, bias) && ph.filesz <= ph.memsz && ph.memsz > 0
    requires ph.filesz > 0 ==> ph.vaddr + bias + ph.filesz <= MMAP_MAX
    requires ph.vaddr % PGSIZE > 0 ==> FirstPage(ph, bias) < USER_PAGES
    requires ph.memsz > MappedBytes(ph) ==> ph.vaddr + bias + ph.memsz <= MMAP_MAX
    ensures ph.vaddr + bias + ph.memsz <= MMAP_MAX
  {
    Alignment(ph, bias);
  }

  // One round of load_elf's loop, for a segment with PT_LOAD and a memory size.
  method LoadSegment(vm: Kernel, f: nat, ph: Phdr, bias: nat) returns (ok: bool)
    requires vm.Valid() && vm.pending == 0 && f < FileTable.MAX_FILES && vm.ft.held[f] > 0
    requires Fits(ph, bias) && Loads(ph) && |vm.ft.contents[f]| < WORD - PGSIZE
    modifies vm`mem, vm`tables, vm`slots, vm`use, vm`vmrs, vm`freelist, vm`promised, vm`placing, vm`pending, vm`born
    modifies vm`guess, vm`brkMin
    modifies vm.pa, vm.pa.storage, vm.ft`held, vm.ft`mapped, vm.ft`closed, vm.ft.refcnt
    ensures ok ==> vm.Valid() && vm.pending == 0 && vm.ft.held == old(vm.ft.held)
    ensures ok ==>
              vm.brkMin ==
              (if old(vm.brkMin) < ph.vaddr + bias + ph.memsz then ph.vaddr + bias + ph.memsz else old(vm.brkMin))
    ensures ok ==> ph.vaddr + bias + ph.memsz <= MMAP_MAX
    ensures ok && (ph.filesz > 0 || ph.vaddr % PGSIZE == 0) ==> Loaded(vm.Space(), ph, bias, vm.ft.contents[f])
    ensures ok && (ph.filesz > 0 || ph.vaddr % PGSIZE == 0) ==> Protected(vm.Space(), ph, bias)
    ensures ok ==> SameOutside(old(vm.Space()), vm.Space(), FirstPage(ph, bias), EndPage(ph, bias))
    ensures ok ==>
              |vm.pa.free| - vm.promised + FileCost(ph, bias) + ZeroCost(ph, bias) >= old(|vm.pa.free| - vm.promised)
    ensures WellFormed(ph, bias, |vm.ft.contents[f]|) ==>
              old(|vm.pa.free| - vm.promised) > FileCost(ph, bias) + ZeroCost(ph, bias) ==> ok
  {
    hide Kernel.Valid, Kernel.Space, Loaded, SameOutside, FirstPage, EndPage, Filled, FilePart, ZeroPart, WithZeros,
      CanZero, Narrowed, MappedBytes, Protected, PageEnd, GetProt, Placed, FlagsElsewhere, Protectable, FileCost,
      ZeroCost, Covered;
    if ph.filesz > ph.memsz {
      return false;
    }
    ok := FillSegment(vm, f, ph, bias);
    if !ok {
      return;
    }
    ghost var filled := vm.Space();
    var prot := GetProt(ph.flags);
    var pad := ph.vaddr % PGSIZE;
    NarrowedRefl(filled, prot);
    SameStill(filled, FirstPage(ph, bias), EndPage(ph, bias));
    if prot & PROT_WRITE == 0 {
      vm.SlotKinds();
      ProtectRange(vm.slots, vm.vmrs, ph, bias);
      ghost var slots1 := vm.slots;
      var res := vm.DoMprotect(ph.vaddr + bias - pad, ph.memsz + pad, prot);
      if res != 0 {
        return false;
      }
      OnlyInside(slots1, filled, vm.Space(), ph, bias, prot);
      ProtectedIs(vm.Space(), ph, bias);
    } else if ph.filesz > 0 || pad == 0 {
      IsFilledIs(old(vm.Space()), filled, ph, bias, f, vm.ft.contents);
      FilledFlags(old(vm.Space()), ph, bias, f, vm.ft.contents);
    }
    ContentsKnown(vm);
    SegmentDone(old(vm.Space()), filled, vm.Space(), ph, bias, f, vm.ft.contents, prot);
  }

  // The range that mprotect is given: the segment's pages. It accepts the protection,
  // and no page elsewhere shares a region with it.
  lemma ProtectRange(slots: map<nat, Entry>, vmrs: map<RegionId, Vmr>, ph: Phdr, bias: nat)
    requires Fits(ph, bias) && ph.filesz <= ph.memsz && ph.memsz > 0
    requires Placed(slots, vmrs, ph, bias) && Covered(slots, vmrs)
    ensures var (a, n) := (ph.vaddr + bias - ph.vaddr % PGSIZE, ph.memsz + ph.vaddr % PGSIZE);
            a % PGSIZE == 0 && a / PGSIZE == FirstPage(ph, bias) &&
            WrappedEnd(a, n) == a + n && PageEnd(a + n) == EndPage(ph, bias)
    ensures Alone(slots, FirstPage(ph, bias), EndPage(ph, bias))
    ensures ph.filesz > 0 || ph.vaddr % PGSIZE == 0 ==>
              forall w :: FirstPage(ph, bias) <= w < EndPage(ph, bias) ==>
                Protectable(slots, vmrs, w, GetProt(ph.flags))
  {
    hide Placed, Covered, GetProt, Protectable, Touches;
    Alignment(ph, bias);
    var lo, hi := FirstPage(ph, bias), EndPage(ph, bias);
    forall w: nat, u: nat | !(lo <= w < hi) && lo <= u < hi
      ensures !Touches(slots, w, u)
    {
      PlacedApart(slots, vmrs, ph, bias, w, u);
    }
    if ph.filesz > 0 || ph.vaddr % PGSIZE == 0 {
      forall w | FirstPage(ph, bias) <= w < EndPage(ph, bias)
        ensures Protectable(slots, vmrs, w, GetProt(ph.flags))
      {
        PlacedProtectable(slots, vmrs, ph, bias, w);
      }
    }
  }

  // No page outside lo .. hi - 1 shares a region with one inside.
  ghost predicate Alone(slots: map<nat, Entry>, lo: nat, hi: nat) {
    forall w: nat, u: nat :: !(lo <= w < hi) && lo <= u < hi ==> !Touches(slots, w, u)
  }

  // So taking write permission back changes no page outside.
  lemma OnlyInside(slots: map<nat, Entry>, s: Space, s': Space, ph: Phdr, bias: nat, prot: bv32)
    requires Alone(slots, FirstPage(ph, bias), EndPage(ph, bias)) && Narrowed(s, s', prot)
    requires FlagsElsewhere(slots, s, s', FirstPage(ph, bias), EndPage(ph, bias))
    ensures SameOutside(s, s', FirstPage(ph, bias), EndPage(ph, bias))
  {
    hide FirstPage, EndPage, Touches, NoMoreWX, ProtToType;
    forall w: nat | !(FirstPage(ph, bias) <= w < EndPage(ph, bias))
      ensures (w in s <==> w in s') && (w in s ==> s'[w] == s[w])
    {
      assert SameFlags(s, s', w);
    }
  }

  lemma IsFilledIs(s: Space, s': Space, ph: Phdr, bias: nat, f: nat, contents: seq<seq<bv8>>)
    requires Fits(ph, bias) && IsFilled(s, s', ph, bias, f, contents)
    ensures OffsetOk(ph) && CanZero(FilePart(s, ph, bias, f, contents), ph, bias) &&
              s' == Filled(s, ph, bias, f, contents)
  {
    hide Filled, CanZero, FilePart;
  }

  // The range that mprotect is given is the segment's pages.
  lemma ProtectedIs(space: Space, ph: Phdr, bias: nat)
    requires Fits(ph, bias)
    requires var (a, n) := (ph.vaddr + bias - ph.vaddr % PGSIZE, ph.memsz + ph.vaddr % PGSIZE);
             forall w :: a / PGSIZE <= w < PageEnd(a + n) ==>
               w in space && space[w].flags == ProtToType(GetProt(ph.flags), true)
    ensures Protected(space, ph, bias)
  {
    hide PageEnd, GetProt, AsHeader, ProtToType;
    ProtAsHeader(ph.flags);
    Alignment(ph, bias);
  }

  // The mappings of a segment, before write permission is taken back.
  method FillSegment(vm: Kernel, f: nat, ph: Phdr, bias: nat) returns (ok: bool)
    requires vm.Valid() && vm.pending == 0 && f < FileTable.MAX_FILES && vm.ft.held[f] > 0
    requires Fits(ph, bias) && Loads(ph) && ph.filesz <= ph.memsz && |vm.ft.contents[f]| < WORD - PGSIZE
    modifies vm`mem, vm`tables, vm`slots, vm`use, vm`vmrs, vm`freelist, vm`promised, vm`placing, vm`pending, vm`born
    modifies vm`guess, vm`brkMin
    modifies vm.pa, vm.pa.storage, vm.ft`held, vm.ft`mapped, vm.ft`closed, vm.ft.refcnt
    ensures ok ==> vm.Valid() && vm.pending == 0 && vm.ft.held == old(vm.ft.held)
    ensures ok ==>
              vm.brkMin ==
              (if old(vm.brkMin) < ph.vaddr + bias + ph.memsz then ph.vaddr + bias + ph.memsz else old(vm.brkMin))
    ensures ok ==> ph.vaddr + bias + ph.memsz <= MMAP_MAX
    ensures ok ==> IsFilled(old(vm.Space()), vm.Space(), ph, bias, f, vm.ft.contents)
    ensures ok ==> Placed(vm.slots, vm.vmrs, ph, bias)
    ensures ok ==>
              |vm.pa.free| - vm.promised + FileCost(ph, bias) + ZeroCost(ph, bias) >= old(|vm.pa.free| - vm.promised)
    ensures WellFormed(ph, bias, |vm.ft.contents[f]|) ==>
              old(|vm.pa.free| - vm.promised) > FileCost(ph, bias) + ZeroCost(ph, bias) ==> ok
  {
    hide Kernel.Space, Kernel.Valid, FilePart, ZeroPart, WithZeros, MappedBytes, IsFilled, Placed, FileCost, ZeroCost,
      AllMappedWith, KeepsOutside, Writable, FirstPage, EndPage, MidPage, GetProt;
    var pad := ph.vaddr % PGSIZE;
    var vaddr := ph.vaddr + bias;
    if vaddr + ph.memsz > vm.brkMin {
      SetBrkMin(vm, vaddr + ph.memsz);
    }
    Alignment(ph, bias);
    if ph.filesz != 0 {
      ok := MapFile(vm, f, ph, bias);
      if !ok {
        return;
      }
    }
    ghost var t, slots1, vmrs1 := vm.Space(), vm.slots, vm.vmrs;
    FirstIs(ph, bias);
    ok := ZeroUser(vm, vaddr - pad, pad);
    if !ok {
      return;
    }
    if pad > 0 {
      ZeroedPage(t, vm.Space(), vaddr - pad, pad);
      UserPage(vm, (vaddr - pad) / PGSIZE);
    }
    ghost var z, slots2, vmrs2 := vm.Space(), vm.slots, vm.vmrs;
    ok := MapZeros(vm, ph, bias);
    if ok {
      FillDone(old(vm.Space()), t, z, vm.Space(), ph, bias, f, vm.ft.contents);
      SegmentEnd(ph, bias);
      PlacedDone(slots1, vmrs1, slots2, vmrs2, vm.slots, vm.vmrs, ph, bias);
    }
  }

  lemma FirstIs(ph: Phdr, bias: nat)
    requires Fits(ph, bias)
    ensures (ph.vaddr + bias - ph.vaddr % PGSIZE) / PGSIZE == FirstPage(ph, bias)
    ensures ph.filesz == 0 ==> FileCost(ph, bias) == 0
  {
    Alignment(ph, bias);
  }

  // What the file mapping and the zeroing established outlasts the anonymous mapping.
  lemma PlacedDone(slots1: map<nat, Entry>, vmrs1: map<RegionId, Vmr>, slots2: map<nat, Entry>,
                   vmrs2: map<RegionId, Vmr>, slots: map<nat, Entry>, vmrs: map<RegionId, Vmr>, ph: Phdr, bias: nat)
    requires Fits(ph, bias) && ph.filesz <= ph.memsz && ph.memsz > 0
    requires ph.filesz > 0 ==>
               AllMappedWith(slots1, vmrs1, FirstPage(ph, bias), MidPage(ph, bias), GetProt(ph.flags) | PROT_WRITE)
    requires KeepsOutside(slots1, vmrs1, slots2, vmrs2, 0, 0)
    requires ph.vaddr % PGSIZE > 0 ==> SlotAt(slots2, FirstPage(ph, bias)).Leaf?
    requires KeepsOutside(slots2, vmrs2, slots, vmrs, MidPage(ph, bias), EndPage(ph, bias))
    requires AllMappedWith(slots, vmrs, MidPage(ph, bias), EndPage(ph, bias), GetProt(ph.flags))
    ensures Placed(slots, vmrs, ph, bias)
  {
    hide FirstPage, EndPage, MidPage, MappedBytes, GetProt, MappedWith, KeepsPage;
    Spans(ph, bias);
    var (lo, mid, prot) := (FirstPage(ph, bias), MidPage(ph, bias), GetProt(ph.flags) | PROT_WRITE);
    if ph.filesz > 0 {
      forall w: nat | lo <= w < mid
        ensures MappedWith(slots, vmrs, w, lo, mid, prot)
      {
        KeepsMapped(slots1, vmrs1, slots2, vmrs2, w, lo, mid, prot);
        KeepsMapped(slots2, vmrs2, slots, vmrs, w, lo, mid, prot);
      }
    } else if ph.vaddr % PGSIZE > 0 {
      LeafKept(slots2, vmrs2, slots, vmrs, lo);
    }
  }

  lemma LeafKept(slots0: map<nat, Entry>, vmrs0: map<RegionId, Vmr>, slots: map<nat, Entry>, vmrs: map<RegionId, Vmr>,
                 w: nat)
    requires KeepsPage(slots0, vmrs0, slots, vmrs, w) && SlotAt(slots0, w).Leaf?
    ensures SlotAt(slots, w).Leaf?
  {
  }

  lemma ZeroedPage(t: Space, z: Space, a: nat, n: nat)
    requires a % PGSIZE == 0 && 0 < n <= PGSIZE && a / PGSIZE in t && |t[a / PGSIZE].bytes| == PGSIZE &&
              z == WithZeros(t, a, n)
    ensures a / PGSIZE in z
  {
  }

  // ---- The whole program ----

  predicate PagesApart(a: Phdr, b: Phdr, bias: nat) {
    EndPage(a, bias) <= FirstPage(b, bias) || EndPage(b, bias) <= FirstPage(a, bias)
  }

  // No two loaded segments share a page, and one without file bytes starts on a page.
  ghost predicate Loadable(phs: seq<Phdr>, bias: nat) {
    && (forall j, k :: 0 <= j < k < |phs| && Loads(phs[j]) && Loads(phs[k]) ==> PagesApart(phs[j], phs[k], bias))
    && (forall k :: 0 <= k < |phs| && Loads(phs[k]) ==> phs[k].filesz > 0 || phs[k].vaddr % PGSIZE == 0)
  }

  // Segments from i on are in memory, with their permissions.
  ghost predicate AllLoaded(space: Space, phs: seq<Phdr>, i: nat, bias: nat, bytes: seq<bv8>) {
    forall k :: i <= k < |phs| && Loads(phs[k]) ==> Loaded(space, phs[k], bias, bytes) && Protected(space, phs[k], bias)
  }

  // No interpreter, and every segment loaded is well formed.
  predicate Acceptable(phs: seq<Phdr>, bias: nat, size: nat) {
    forall k :: 0 <= k < |phs| ==> !phs[k].kind.Interp? && (Loads(phs[k]) ==> WellFormed(phs[k], bias, size))
  }

  // What the mappings of the first n segments are charged at most.
  function Costs(phs: seq<Phdr>, n: nat, bias: nat): nat
    requires n <= |phs| && forall k :: 0 <= k < |phs| ==> Fits(phs[k], bias)
  {
    if n == 0 then 0
    else
      var ph := phs[n - 1];
      Costs(phs, n - 1, bias) + if Loads(ph) then FileCost(ph, bias) + ZeroCost(ph, bias) else 0
  }

  // Loading a segment on other pages leaves a loaded one as it is.
  lemma StaysLoaded(s: Space, s': Space, ph: Phdr, other: Phdr, bias: nat, bytes: seq<bv8>)
    requires Loaded(s, ph, bias, bytes) && PagesApart(other, ph, bias)
    requires SameOutside(s, s', FirstPage(other, bias), EndPage(other, bias))
    ensures Loaded(s', ph, bias, bytes)
    ensures Protected(s, ph, bias) ==> Protected(s', ph, bias)
  {
    forall i | 0 <= i < ph.memsz ensures ByteAt(s', ph.vaddr + bias + i) == Some(SegmentByte(ph, bytes, i)) {
      var a := ph.vaddr + bias + i;
      assert ByteAt(s, a) == Some(SegmentByte(ph, bytes, i));
      assert FirstPage(ph, bias) <= a / PGSIZE < EndPage(ph, bias);
    }
  }

  lemma OneMore(s: Space, s': Space, phs: seq<Phdr>, i: nat, bias: nat, bytes: seq<bv8>)
    requires i < |phs| && Loadable(phs, bias) && AllLoaded(s, phs, i + 1, bias, bytes)
    requires Loads(phs[i]) && Loaded(s', phs[i], bias, bytes) && Protected(s', phs[i], bias)
    requires SameOutside(s, s', FirstPage(phs[i], bias), EndPage(phs[i], bias))
    ensures AllLoaded(s', phs, i, bias, bytes)
  {
    hide Loaded, Protected, SameOutside, FirstPage, EndPage;
    forall k | i <= k < |phs| && Loads(phs[k])
      ensures Loaded(s', phs[k], bias, bytes) && Protected(s', phs[k], bias)
    {
      if k > i {
        StaysLoaded(s, s', phs[k], phs[i], bias, bytes);
      }
    }
  }

  // load_elf once the headers are read: the segments from last to first, then the
  // initial break. If it returns, every byte of every segment is the file's or zero, and
  // every page of it has the segment's permissions. On an acceptable file it does, unless
  // memory is short.
  method LoadElf(vm: Kernel, f: nat, phs: seq<Phdr>, dyn: bool) returns (ok: bool)
    requires vm.Valid() && vm.pending == 0 && f < FileTable.MAX_FILES && vm.ft.held[f] > 0 && vm.brkMin <= MMAP_MAX
    requires forall k :: 0 <= k < |phs| ==> Fits(phs[k], if dyn then PGSIZE else 0)
    requires |vm.ft.contents[f]| < WORD - PGSIZE
    modifies vm`mem, vm`tables, vm`slots, vm`use, vm`vmrs, vm`freelist, vm`promised, vm`placing, vm`pending, vm`born
    modifies vm`guess, vm`brkMin, vm`brk
    modifies vm.pa, vm.pa.storage, vm.ft`held, vm.ft`mapped, vm.ft`closed, vm.ft.refcnt
    ensures ok ==> vm.Valid() && vm.pending == 0 && vm.ft.held == FileTable.Minus(old(vm.ft.held), f)
    ensures ok ==> var bias := if dyn then PGSIZE else 0;
              (Loadable(phs, bias) ==> AllLoaded(vm.Space(), phs, 0, bias, vm.ft.contents[f])) &&
              (forall k :: 0 <= k < |phs| && Loads(phs[k]) ==> phs[k].vaddr + bias + phs[k].memsz <= vm.brkMin)
    ensures var bias := if dyn then PGSIZE else 0;
            Acceptable(phs, bias, |vm.ft.contents[f]|) ==>
              old(|vm.pa.free| - vm.promised) > Costs(phs, |phs|, bias) ==> ok
    ensures ok ==> vm.brk == RoundUp(vm.brkMin)
    ensures ok ==> forall k :: 0 <= k < |phs| ==> !phs[k].kind.Interp?
  {
    hide Kernel.Valid, Kernel.Space, Loadable, AllLoaded, SameOutside, Loaded, Protected, FirstPage, EndPage, FileCost,
      ZeroCost, WellFormed;
    var bias := if dyn then PGSIZE else 0;
    var i := |phs|;
    ContentsKnown(vm);
    NoneLoaded(vm.Space(), phs, bias, vm.ft.contents[f]);
    ghost var good := Acceptable(phs, bias, |vm.ft.contents[f]|) &&
      |vm.pa.free| - vm.promised > Costs(phs, |phs|, bias);
    while i > 0
      invariant 0 <= i <= |phs|
      invariant good ==> |vm.pa.free| - vm.promised > Costs(phs, i, bias)
      invariant vm.Valid() && vm.pending == 0 && vm.ft.held == old(vm.ft.held) && vm.brkMin <= MMAP_MAX
      invariant Loadable(phs, bias) ==> AllLoaded(vm.Space(), phs, i, bias, vm.ft.contents[f])
      invariant forall k :: i <= k < |phs| && Loads(phs[k]) ==> phs[k].vaddr + bias + phs[k].memsz <= vm.brkMin
      invariant forall k :: i <= k < |phs| ==> !phs[k].kind.Interp?
    {
      i := i - 1;
      if phs[i].kind.Interp? {
        return false;
      }
      if phs[i].kind.Load? && phs[i].memsz != 0 {
        ghost var before := vm.Space();
        ok := LoadSegment(vm, f, phs[i], bias);
        if !ok {
          return;
        }
        if Loadable(phs, bias) {
          Sane(phs, i, bias);
          OneMore(before, vm.Space(), phs, i, bias, vm.ft.contents[f]);
        }
      } else {
        SkipOne(vm.Space(), phs, i, bias, vm.ft.contents[f]);
      }
    }
    vm.DropReference(f);
    BrkMinFits(vm.brkMin);
    vm.SetBrk(RoundUp(vm.brkMin));
    ok := true;
  }

  lemma NoneLoaded(s: Space, phs: seq<Phdr>, bias: nat, bytes: seq<bv8>)
    ensures AllLoaded(s, phs, |phs|, bias, bytes)
  {
  }

  lemma SkipOne(s: Space, phs: seq<Phdr>, i: nat, bias: nat, bytes: seq<bv8>)
    requires i < |phs| && !Loads(phs[i])
    ensures AllLoaded(s, phs, i + 1, bias, bytes) ==> AllLoaded(s, phs, i, bias, bytes)
  {
  }

  lemma Sane(phs: seq<Phdr>, i: nat, bias: nat)
    requires Loadable(phs, bias) && i < |phs| && Loads(phs[i])
    ensures phs[i].filesz > 0 || phs[i].vaddr % PGSIZE == 0
  {
  }

  lemma BrkMinFits(end: nat)
    requires end <= MMAP_MAX
    ensures RoundUp(end) <= MMAP_MAX
  {
  }
}
