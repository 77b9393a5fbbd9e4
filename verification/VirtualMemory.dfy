// The virtual-memory manager of pk/mmap.c.

module VirtualMemory {
  import opened Options
  import opened Sets
  import opened PageTable
  import opened AddressSpace
  import PageAllocator
  import FileTable

  const MMAP_MAX: nat := USER_PAGES * PGSIZE

  // How __handle_page_fault ends: 0, -1, or the kernel panic of its kassert.
  datatype Fault = Granted | Denied | Panicked

  datatype MapFlags = MapFlags(private_: bool, fixed: bool, anonymous: bool, populate: bool)

  // How __do_mmap ends: an address, (uintptr_t)-1, or a panic while populating.
  datatype MmapResult = Mapped(addr: nat) | Failed | Panic

  // What do_mmap returns: what __do_mmap did, or its own -EINVAL or -EBADF.
  datatype MmapCall = Returned(r: MmapResult) | Rejected(errno: int)

  const EACCES := 13
  const ENOMEM := 12
  const EINVAL := 22
  const EBADF := 9
  const WORD: nat := 0x1_0000_0000_0000_0000   // 2^64

  // __valid_user_range, on 64-bit words.
  predicate ValidUserRange(vaddr: nat, len: nat) {
    var last := (vaddr + len + WORD - 1) % WORD;
    vaddr <= last < MMAP_MAX
  }

  lemma ValidUserRangeExact(vaddr: nat, len: nat)
    requires vaddr < WORD && len < WORD
    ensures ValidUserRange(vaddr, len) <==> len > 0 && vaddr + len <= MMAP_MAX
  {
  }

  // (length-1)/RISCV_PGSIZE+1, on 64-bit words.
  function PageCount(length: nat): (n: nat)
    requires length < WORD
    ensures n > 0
  {
    (length + WORD - 1) % WORD / PGSIZE + 1
  }

  // Physical memory fits in half of the address space, and the break and the hint are
  // page addresses in the user half.
  ghost predicate Limits(total: nat, brk: nat, brkMax: nat, guess: nat) {
    && total <= USER_PAGES && brk % PGSIZE == 0 && guess % PGSIZE == 0
    && brk <= MMAP_MAX && brkMax <= MMAP_MAX && guess <= MMAP_MAX
  }

  class Kernel {
    const pa: PageAllocator.Pages
    const ft: FileTable.Files
    const root: int                       // root_page_table
    var mem: Memory                       // physical memory
    var vmrs: map<RegionId, Vmr>          // live region records
    var freelist: seq<RegionId>           // vmr_freelist_head and what follows it
    var promised: nat                     // pages_promised

    const demandPaging: bool              // demand_paging
    var brkMin: nat                       // current.brk_min, brk, brk_max, vm_alloc_guess
    var brk: nat
    var brkMax: nat
    var guess: nat

    ghost var tables: map<Key, int>       // the page of each page table
    ghost var slots: map<nat, Entry>      // the non-empty user slots
    ghost var use: map<int, Use>          // what each page handed out is used for
    ghost var placing: RegionId           // region __do_mmap is placing, and how many of
    ghost var pending: nat                //   its count have no slot yet
    ghost var born: map<nat, bv32>        // the prot each page was mapped with

    // pk_vm_init: the freelist's storage, the root table, the tables of the kernel's own
    // half, and the kernel stack. Booting on less memory than these need panics.
    constructor (mem0: Memory, pages: PageAllocator.Pages, files: FileTable.Files, storagePages: nat, kernelTables: nat,
                 demand: bool)
      requires pages.Valid() && pages.free == pages.Managed() && pages.next == 0 && pages.total <= USER_PAGES
      requires files.Valid() && files.mapped == FileTable.Zeros()
      requires pages.storage as object != files.refcnt as object && pages.storage != files.kfd
      requires kernelTables <= 256 && storagePages + kernelTables + 2 <= pages.total
      modifies pages, pages.storage
      ensures Valid() && pending == 0 && pa == pages && ft == files && demandPaging == demand
      ensures Space() == map[] && slots == map[] && vmrs == map[] && promised == 0
      ensures |pa.free| == pages.total - storagePages - kernelTables - 2
      ensures brk == 0 && brkMin == 0 && brkMax == MMAP_MAX && guess == 0
    {
      hide PageAllocator.Pages.Valid, FileTable.Files.Valid;
      pages.NumFreeIsSize();
      var m, r, u := Boot(mem0, pages, storagePages, kernelTables);
      pa, ft, mem, root := pages, files, m, r;
      vmrs, freelist, promised := map[], [], 0;
      demandPaging := demand;
      brkMin, brk, brkMax, guess := 0, 0, MMAP_MAX, 0;
      tables, slots, use := map[Key(2, 0) := r], map[], u;
      placing, pending, born := RegionId(0, 0), 0, map[];
      new;
      Booted();
    }

    lemma Booted()
      requires tables == map[Key(2, 0) := root] && slots == map[] && vmrs == map[] && freelist == []
      requires root in use && use[root] == AsTable(Key(2, 0)) && HoldsWords(mem, root)
      requires forall p :: p in use ==> p == root || use[p] == Reserved
      requires forall i :: 0 <= i < 256 ==> WordsOf(mem, root)[i] == Empty
      requires Handed(use, pa.Managed(), pa.free)
      requires |ft.mapped| == MAX_FILES && forall f :: 0 <= f < MAX_FILES ==> ft.mapped[f] == 0
      ensures Radix(mem, root, tables, use) && Represents(mem, tables, slots)
      ensures Owned(use, mem, slots, pa.Managed(), pa.free) && Records(vmrs.Keys, freelist, use)
      ensures Accounted(slots, vmrs, 0, RegionId(0, 0), 0) && FilesCounted(vmrs, ft.mapped)
      ensures SpaceOf(slots, mem, vmrs, ft.contents) == map[] && WXBounded(map[], map[])
    {
      assert LazyPages(slots) == {};
      forall f: nat ensures Backed(vmrs, f) == {} { }
      forall k: Key | k.level == 1 && UserKey(k) ensures k == Child(Key(2, 0), k.prefix) { }
    }

    // ---- Pages and page-table words ----

    // __page_alloc
    method PageAlloc() returns (p: int)
      requires pa.Valid()
      modifies this`mem, pa, pa.storage
      ensures pa.Valid()
      ensures p == 0 <==> old(pa.free) == {}
      ensures p == 0 ==> pa.free == old(pa.free) && mem == old(mem)
      ensures p != 0 ==> p in old(pa.free) && pa.free == old(pa.free) - {p}
      ensures |pa.free| == old(|pa.free|) - (if p == 0 then 0 else 1)
      ensures p != 0 ==> mem == old(mem)[p := Data(ZeroBytes())]
    {
      hide PageAllocator.Pages.Valid;
      p := pa.Take();
      if p == 0 {
        return;
      }
      mem := mem[p := Data(ZeroBytes())];
    }

    // __walk: the page of the last-level table, 0 if there is none.
    method Walk(vpn: nat) returns (t: int)
      requires Radix(mem, root, tables, use) && vpn < USER_PAGES
      requires 0 !in use
      ensures t == 0 <==> Key(0, vpn / FANOUT) !in tables
      ensures t != 0 ==> t == tables[Key(0, vpn / FANOUT)]
    {
      hide Radix, KeyOf, PtIdx;
      t := root;
      var level := 2;
      WalkStep(mem, root, tables, use, vpn, 2);
      while level > 0
        invariant 0 <= level <= 2
        invariant KeyOf(vpn, level) in tables && t == tables[KeyOf(vpn, level)]
      {
        WalkStep(mem, root, tables, use, vpn, level);
        var e := WordsOf(mem, t)[PtIdx(vpn, level)];
        if !e.Table? {
          return 0;
        }
        t := e.page;
        level := level - 1;
      }
      WalkStep(mem, root, tables, use, vpn, 0);
    }

    // *pte, with 0 for a missing table.
    method Lookup(vpn: nat) returns (e: Entry)
      requires Radix(mem, root, tables, use) && Represents(mem, tables, slots) && vpn < USER_PAGES && 0 !in use
      ensures e == SlotAt(slots, vpn)
    {
      var t := Walk(vpn);
      assert SlotWord(mem, tables, vpn) == SlotAt(slots, vpn);
      if t == 0 {
        return Empty;
      }
      e := WordsOf(mem, t)[vpn % FANOUT];
    }

    // *pte = e
    method StoreSlot(t: int, vpn: nat, e: Entry)
      requires Radix(mem, root, tables, use) && Represents(mem, tables, slots) && vpn < USER_PAGES && !e.Table?
      requires Key(0, vpn / FANOUT) in tables && t == tables[Key(0, vpn / FANOUT)]
      modifies this`mem, this`slots
      ensures Radix(mem, root, tables, use) && Represents(mem, tables, slots)
      ensures slots == if e == Empty then old(slots) - {vpn} else old(slots)[vpn := e]
      ensures forall p :: p != t ==> SameFrame(old(mem), mem, p)
    {
      SetSlot(mem, root, tables, use, slots, vpn, e);
      mem := WithWord(mem, t, vpn % FANOUT, e);
      slots := if e == Empty then slots - {vpn} else slots[vpn := e];
    }

    // __walk_create: 0 only when memory ran out first. Every page it takes becomes a
    // table among `need`, and no page's slot changes.
    method WalkCreate(vpn: nat, ghost need: set<Key>) returns (t: int)
      requires pa.Valid() && Radix(mem, root, tables, use) && Represents(mem, tables, slots) && vpn < USER_PAGES
      requires Handed(use, pa.Managed(), pa.free)
      requires Chain(vpn) <= need
      modifies this`mem, this`tables, this`use, pa, pa.storage
      ensures pa.Valid() && Radix(mem, root, tables, use) && Represents(mem, tables, slots)
      ensures Handed(use, pa.Managed(), pa.free)
      ensures t != 0 ==> Key(0, vpn / FANOUT) in tables && t == tables[Key(0, vpn / FANOUT)]
      ensures t == 0 ==> |pa.free| == 0 < Missing(need, tables)
      ensures |pa.free| - Missing(need, tables) == old(|pa.free| - Missing(need, tables))
      ensures OnlyTablesAdded(old(use), old(mem), use, mem)
    {
      hide PageAllocator.Pages.Valid, Radix, Represents, Missing, OnlyTablesAdded, Handed, KeyOf;
      t := root;
      var level := 2;
      WalkStep(mem, root, tables, use, vpn, 2);
      UseNotZero(KeyOf(vpn, 2));
      OnlyTablesAddedRefl(use, mem);
      while level > 0
        invariant 0 <= level <= 2
        invariant pa.Valid() && Radix(mem, root, tables, use) && Represents(mem, tables, slots)
        invariant Handed(use, pa.Managed(), pa.free)
        invariant KeyOf(vpn, level) in tables && t == tables[KeyOf(vpn, level)] && t != 0
        invariant |pa.free| - Missing(need, tables) == old(|pa.free| - Missing(need, tables))
        invariant OnlyTablesAdded(old(use), old(mem), use, mem)
      {
        ghost var use1, mem1 := use, mem;
        t := Descend(vpn, level, t, need);
        OnlyTablesAddedTrans(old(use), old(mem), use1, mem1, use, mem);
        if t == 0 {
          return;
        }
        level := level - 1;
      }
      WalkStep(mem, root, tables, use, vpn, 0);
    }

    // One level of __walk_internal with create set.
    method Descend(vpn: nat, level: nat, t: int, ghost need: set<Key>) returns (next: int)
      requires pa.Valid() && Radix(mem, root, tables, use) && Represents(mem, tables, slots) && vpn < USER_PAGES &&
                0 < level <= 2
      requires Handed(use, pa.Managed(), pa.free)
      requires KeyOf(vpn, level) in tables && t == tables[KeyOf(vpn, level)]
      requires Chain(vpn) <= need
      modifies this`mem, this`tables, this`use, pa, pa.storage
      ensures pa.Valid() && Radix(mem, root, tables, use) && Represents(mem, tables, slots)
      ensures Handed(use, pa.Managed(), pa.free)
      ensures next != 0 ==> KeyOf(vpn, level - 1) in tables && next == tables[KeyOf(vpn, level - 1)]
      ensures next == 0 ==> |pa.free| == 0 < Missing(need, tables)
      ensures |pa.free| - Missing(need, tables) == old(|pa.free| - Missing(need, tables))
      ensures OnlyTablesAdded(old(use), old(mem), use, mem)
    {
      hide PageAllocator.Pages.Valid, Radix, Represents, Missing, OnlyTablesAdded, Handed, KeyOf, PtIdx;
      WalkStep(mem, root, tables, use, vpn, level);
      OnlyTablesAddedRefl(use, mem);
      var e := WordsOf(mem, t)[PtIdx(vpn, level)];
      if e.Table? {
        UseNotZero(KeyOf(vpn, level - 1));
        return e.page;
      }
      ghost var c := KeyOf(vpn, level - 1);
      assert c in need by { InChain(vpn, level - 1); }
      MissingSome(need, tables, c);
      next := NewTable(vpn, level, t, PtIdx(vpn, level));
      if next != 0 {
        MissingStep(need, old(tables), c, next);
      }
    }

    lemma UseNotZero(k: Key)
      requires pa.Valid() && Radix(mem, root, tables, use) && Handed(use, pa.Managed(), pa.free)
      requires k in tables
      ensures tables[k] != 0
    {
    }

    // The branch of __walk_internal that fills an empty word with a new table.
    method NewTable(vpn: nat, level: nat, t: int, i: nat) returns (page: int)
      requires pa.Valid() && Radix(mem, root, tables, use) && Represents(mem, tables, slots) && vpn < USER_PAGES &&
                0 < level <= 2 && i == PtIdx(vpn, level)
      requires Handed(use, pa.Managed(), pa.free)
      requires KeyOf(vpn, level) in tables && t == tables[KeyOf(vpn, level)] && KeyOf(vpn, level - 1) !in tables
      modifies this`mem, this`tables, this`use, pa, pa.storage
      ensures pa.Valid() && Radix(mem, root, tables, use) && Represents(mem, tables, slots)
      ensures Handed(use, pa.Managed(), pa.free)
      ensures page == 0 ==> |pa.free| == 0 == old(|pa.free|) && tables == old(tables)
      ensures page != 0 ==> tables == old(tables)[KeyOf(vpn, level - 1) := page]
      ensures page != 0 ==> |pa.free| + 1 == old(|pa.free|)
      ensures OnlyTablesAdded(old(use), old(mem), use, mem)
    {
      hide PageAllocator.Pages.Valid, Radix, Represents, OnlyTablesAdded, WithTable, Handed, KeyOf, UserKey, Child,
        PtIdx;
      ghost var k, c := KeyOf(vpn, level), KeyOf(vpn, level - 1);
      KeyChain(vpn, level);
      KeyChain(vpn, level - 1);
      WalkStep(mem, root, tables, use, vpn, level);
      KeyLevel(vpn, level);
      OnlyTablesAddedRefl(use, mem);
      page := PageAlloc();
      if page == 0 {
        return;
      }
      HandOut(use, pa.Managed(), old(pa.free), page, AsTable(c));
      AddTable(old(mem), root, tables, use, slots, k, i, page);
      AddTableFrames(old(mem), root, tables, use, k, i, page);
      SameTable(old(mem), t, i, page);
      mem, tables, use := WithTable(mem, t, i, page), tables[c := page], use[page := AsTable(c)];
    }

    // ---- The whole state ----

    // The address space the running program sees.
    ghost function Space(): Space
      reads this, ft
    {
      SpaceOf(slots, mem, vmrs, ft.contents)
    }

    ghost predicate Valid()
      reads this, pa, pa.storage, ft, ft.fds, ft.refcnt
    {
      && pa.Valid() && ft.Valid() && pa.storage as object != ft.refcnt as object && pa.storage != ft.kfd
      && Radix(mem, root, tables, use) && Represents(mem, tables, slots)
      && Owned(use, mem, slots, pa.Managed(), pa.free)
      && Records(vmrs.Keys, freelist, use)
      && Accounted(slots, vmrs, promised, placing, pending)
      && FilesCounted(vmrs, ft.mapped)
      && WXBounded(Space(), born)
      && promised <= |pa.free|
      && Limits(pa.total, brk, brkMax, guess)
    }

    // __vmr_decref
    method VmrDecref(v: RegionId, dec: nat)
      requires ft.Valid() && FilesCounted(vmrs, ft.mapped)
      requires Records(vmrs.Keys, freelist, use)
      requires v in vmrs && 0 < dec <= vmrs[v].refcnt && dec <= promised
      modifies this`vmrs, this`freelist, this`promised, ft`held, ft`mapped, ft`closed, ft.refcnt
      ensures ft.Valid() && FilesCounted(vmrs, ft.mapped) && ft.held == old(ft.held)
      ensures Records(vmrs.Keys, freelist, use)
      ensures vmrs == Decref(old(vmrs), v, dec) && promised == old(promised) - dec
    {
      hide FileTable.Files.Valid, FilesCounted, Records;
      promised := promised - dec;
      var r := vmrs[v].(refcnt := vmrs[v].refcnt - dec);
      if r.refcnt == 0 {
        DropBacked(vmrs, ft.mapped, v);
        if r.file.Some? {
          FileInRange(v);
          ft.DecRef(r.file.value, true);
        }
        RecordsReturn(vmrs.Keys, freelist, use, v);
        assert (vmrs - {v}).Keys == vmrs.Keys - {v};
        vmrs := vmrs - {v};
        freelist := [v] + freelist;
      } else {
        SameBacked(vmrs, ft.mapped, v, r);
        assert vmrs[v := r].Keys == vmrs.Keys;
        vmrs := vmrs[v := r];
      }
    }

    lemma FilesInRange(v: RegionId)
      requires Valid() && v in vmrs
      ensures vmrs[v].file.Some? ==> vmrs[v].file.value < |ft.contents|
    {
    }

    lemma FileInRange(v: RegionId)
      requires ft.Valid() && FilesCounted(vmrs, ft.mapped) && v in vmrs && vmrs[v].file.Some?
      ensures vmrs[v].file.value < FileTable.MAX_FILES && |ft.mapped| == FileTable.MAX_FILES && ft.Shape()
    {
    }

    lemma NoPageZero()
      requires pa.Valid() && Handed(use, pa.Managed(), pa.free)
      ensures 0 !in use
    {
    }

    // What Valid says of the slot of one page.
    lemma SlotFacts(vpn: nat)
      requires Valid() && vpn < USER_PAGES
      ensures 0 !in use && Handed(use, pa.Managed(), pa.free)
      ensures !SlotAt(slots, vpn).Table?
      ensures SlotAt(slots, vpn) == Empty <==> vpn !in slots
      ensures vpn in slots ==> Key(0, vpn / FANOUT) in tables
      ensures Key(0, vpn / FANOUT) in tables ==> var t := tables[Key(0, vpn / FANOUT)]; t in use && use[t].AsTable?
      ensures SlotAt(slots, vpn).Lazy? ==> var v := slots[vpn].region;
                v in vmrs && vmrs[v].refcnt > 0 && promised > 0 &&
                vmrs[v].addr <= vpn * PGSIZE < vmrs[v].addr + vmrs[v].length
      ensures SlotAt(slots, vpn).Leaf? ==> var p := slots[vpn].page;
                p in pa.Managed() && p !in pa.free && p in use && use[p] == AsData(vpn) && HoldsData(mem, p)
    {
      hide PageAllocator.Pages.Valid, FileTable.Files.Valid;
      NoPageZero();
      assert SlotWord(mem, tables, vpn) == SlotAt(slots, vpn);
      if SlotAt(slots, vpn).Lazy? {
        HeldIsLive(slots, vmrs, promised, placing, pending, vpn);
      }
    }

    // One round of __do_munmap.
    method MunmapPage(vpn: nat)
      requires Valid() && vpn < USER_PAGES
      modifies this`mem, this`slots, this`use, this`vmrs, this`freelist, this`promised
      modifies pa, pa.storage, ft`held, ft`mapped, ft`closed, ft.refcnt
      ensures Valid()
      ensures slots == old(slots) - {vpn} && Space() == old(Space()) - {vpn}
      ensures Shrunk(old(vmrs), vmrs) && ft.held == old(ft.held)
      ensures |pa.free| >= old(|pa.free|) && promised <= old(promised)
    {
      hide PageAllocator.Pages.Valid, FileTable.Files.Valid, Radix, Represents, Owned, Records, Accounted, FilesCounted,
        WXBounded, Limits, SpaceOf, Shrunk;
      SlotFacts(vpn);
      var t := Walk(vpn);
      var e := Lookup(vpn);
      if e == Empty {
        NothingThere(vpn);
        return;
      }
      if e.Leaf? {
        UnmapLeaf(vpn, t, e.page);
      } else {
        UnmapLazy(vpn, t, e.region);
      }
    }

    lemma NothingThere(vpn: nat)
      requires vpn !in slots
      ensures slots == slots - {vpn} && Space() == Space() - {vpn} && Shrunk(vmrs, vmrs)
    {
    }

    method UnmapLeaf(vpn: nat, t: int, p: int)
      requires Valid() && vpn < USER_PAGES && SlotAt(slots, vpn).Leaf? && slots[vpn].page == p
      requires Key(0, vpn / FANOUT) in tables && t == tables[Key(0, vpn / FANOUT)]
      modifies this`mem, this`slots, this`use, pa, pa.storage
      ensures Valid()
      ensures slots == old(slots) - {vpn} && Space() == old(Space()) - {vpn}
      ensures Shrunk(old(vmrs), vmrs)
      ensures |pa.free| >= old(|pa.free|)
    {
      hide PageAllocator.Pages.Valid, FileTable.Files.Valid, Radix, Represents, Owned, Records, Accounted, FilesCounted,
        WXBounded, Limits, SpaceOf, Shrunk;
      SlotFacts(vpn);
      pa.Release(p);
      assert ft.Valid();
      StoreSlot(t, vpn, Empty);
      assert pa.Valid() && ft.Valid();
      LeafGone(old(mem), old(slots), pa.Managed(), old(pa.free), vpn, t, p);
      use := use - {p};
    }

    lemma LeafGone(mem0: Memory, slots0: map<nat, Entry>, managed: set<int>, free: set<int>, vpn: nat, t: int, p: int)
      requires Owned(use, mem0, slots0, managed, free) && t in use && use[t].AsTable?
      requires SlotAt(slots0, vpn).Leaf? && slots0[vpn].page == p && slots == slots0 - {vpn}
      requires forall q :: q != t ==> SameFrame(mem0, mem, q)
      requires Radix(mem, root, tables, use) && Records(vmrs.Keys, freelist, use)
      requires Accounted(slots0, vmrs, promised, placing, pending)
      requires WXBounded(SpaceOf(slots0, mem0, vmrs, ft.contents), born)
      ensures Owned(use - {p}, mem, slots, managed, free + {p}) && Accounted(slots, vmrs, promised, placing, pending)
      ensures Radix(mem, root, tables, use - {p}) && Records(vmrs.Keys, freelist, use - {p})
      ensures Space() == SpaceOf(slots0, mem0, vmrs, ft.contents) - {vpn} && WXBounded(Space(), born)
      ensures Shrunk(vmrs, vmrs)
    {
      hide Radix, Records, SpaceOf, WXBounded;
      OwnedDrop(use, mem0, slots0, managed, free, vpn, t, mem);
      Reuse(mem, root, tables, use, use - {p});
      RecordsReuse(vmrs.Keys, freelist, use, use - {p});
      DropLeaf(slots0, slots, vmrs, promised, placing, pending, vpn);
      ShrunkRefl(vmrs);
      ViewsAfter(use, mem0, slots0, managed, free, vmrs, vpn, t);
    }

    // The view and its bound after the slot of vpn went away.
    lemma ViewsAfter(use0: map<int, Use>, mem0: Memory, slots0: map<nat, Entry>, managed: set<int>, free: set<int>,
                     vmrs0: map<RegionId, Vmr>, vpn: nat, t: int)
      requires Owned(use0, mem0, slots0, managed, free) && t in use0 && use0[t].AsTable?
      requires slots == slots0 - {vpn} && vpn in slots0
      requires forall p :: p != t ==> SameFrame(mem0, mem, p)
      requires Accounted(slots, vmrs, promised, placing, pending) && Shrunk(vmrs0, vmrs)
      requires WXBounded(SpaceOf(slots0, mem0, vmrs0, ft.contents), born)
      ensures Space() == SpaceOf(slots0, mem0, vmrs0, ft.contents) - {vpn} && WXBounded(Space(), born)
    {
      forall p | p in use0 && use0[p].AsData? && use0[p].vpn != vpn ensures SameFrame(mem0, mem, p) { }
      SameViews(use0, mem0, slots0, managed, free, vmrs0, mem, slots, vmrs, ft.contents, vpn);
      assert Space() == Space() - {vpn};
    }

    method UnmapLazy(vpn: nat, t: int, v: RegionId)
      requires Valid() && vpn < USER_PAGES && SlotAt(slots, vpn) == Lazy(v)
      requires Key(0, vpn / FANOUT) in tables && t == tables[Key(0, vpn / FANOUT)]
      modifies this`mem, this`slots, this`vmrs, this`freelist, this`promised
      modifies ft`held, ft`mapped, ft`closed, ft.refcnt
      ensures Valid()
      ensures slots == old(slots) - {vpn} && Space() == old(Space()) - {vpn}
      ensures Shrunk(old(vmrs), vmrs) && ft.held == old(ft.held)
      ensures promised <= old(promised)
    {
      hide PageAllocator.Pages.Valid, FileTable.Files.Valid, Radix, Represents, Owned, Records, Accounted, FilesCounted,
        WXBounded, Limits, SpaceOf, Shrunk, Decref;
      SlotFacts(vpn);
      VmrDecref(v, 1);
      StoreSlot(t, vpn, Empty);
      LazyGone(old(mem), old(slots), old(vmrs), old(promised), pa.Managed(), pa.free, vpn, t, v);
    }

    lemma LazyGone(mem0: Memory, slots0: map<nat, Entry>, vmrs0: map<RegionId, Vmr>, promised0: nat, managed: set<int>,
                   free: set<int>, vpn: nat, t: int, v: RegionId)
      requires Owned(use, mem0, slots0, managed, free) && t in use && use[t].AsTable?
      requires SlotAt(slots0, vpn) == Lazy(v) && slots == slots0 - {vpn} && v in vmrs0 && vmrs0[v].refcnt > 0 &&
                promised0 > 0
      requires vmrs == Decref(vmrs0, v, 1) && promised == promised0 - 1
      requires forall p :: p != t ==> SameFrame(mem0, mem, p)
      requires Accounted(slots0, vmrs0, promised0, placing, pending)
      requires WXBounded(SpaceOf(slots0, mem0, vmrs0, ft.contents), born)
      ensures Owned(use, mem, slots, managed, free) && Accounted(slots, vmrs, promised, placing, pending)
      ensures Space() == SpaceOf(slots0, mem0, vmrs0, ft.contents) - {vpn} && WXBounded(Space(), born)
      ensures Shrunk(vmrs0, vmrs)
    {
      hide Owned, SpaceOf, Shrunk, Decref, WXBounded;
      OwnedWrite(use, mem0, slots0, managed, free, vpn, t, mem, slots);
      DropLazy(slots0, slots, vmrs0, promised0, placing, pending, vpn);
      DecrefShrinks(vmrs0, v, 1);
      ViewsAfter(use, mem0, slots0, managed, free, vmrs0, vpn, t);
    }

    // ---- Page faults ----

    // The reading of a file page into physical page p; false if kassert(ret > 0) fails.
    method ReadPage(p: int, r: Vmr, vpn: nat) returns (ok: bool)
      requires Covers(r, vpn) && r.file.Some? && r.file.value < |ft.contents|
      requires p in mem && mem[p] == Data(ZeroBytes())
      modifies this`mem
      ensures ok <==> !PastEof(r, ft.contents, vpn)
      ensures ok ==> mem == old(mem)[p := Data(RegionPage(r, ft.contents, vpn).bytes)]
    {
      var pos := vpn * PGSIZE - r.addr;
      var flen := if r.length - pos < PGSIZE then r.length - pos else PGSIZE;
      var got := Pread(ft.contents[r.file.value], flen, pos + r.offset);
      if |got| == 0 {
        return false;
      }
      FilledPage(r, ft.contents, vpn, got);
      mem := mem[p := Data(got + ZeroBytes()[|got|..])];
      if |got| < PGSIZE {
        var zeroed := mem[p].bytes[..|got|] + ZeroBytes()[|got|..];
        assert mem[p].bytes[..|got|] == got;
        mem := mem[p := Data(zeroed)];
      }
      return true;
    }

    // The allocation of a page for vpn, mapped for the kernel while it is filled.
    method AcquirePage(vpn: nat, t: int) returns (page: int)
      requires pa.Valid() && Radix(mem, root, tables, use) && Represents(mem, tables, slots)
      requires Handed(use, pa.Managed(), pa.free) && |pa.free| > 0
      requires vpn < USER_PAGES && Key(0, vpn / FANOUT) in tables && t == tables[Key(0, vpn / FANOUT)]
      modifies this`mem, this`slots, pa, pa.storage
      ensures pa.Valid() && page in old(pa.free) && page !in use && page != t && pa.free == old(pa.free) - {page}
      ensures |pa.free| == old(|pa.free|) - 1
      ensures Radix(mem, root, tables, use) && Represents(mem, tables, slots)
      ensures page in mem && mem[page] == Data(ZeroBytes())
      ensures forall q :: q != t && q != page ==> SameFrame(old(mem), mem, q)
      ensures slots == old(slots)[vpn := Leaf(page, ProtToType(PROT_READ | PROT_WRITE, false))]
    {
      hide PageAllocator.Pages.Valid, Radix, Represents, Handed, ProtToType;
      TableInUse(Key(0, vpn / FANOUT));
      page := PageAlloc();
      assert page != 0;
      HandOut(use, pa.Managed(), old(pa.free), page, AsData(vpn));
      WriteElsewhere(old(mem), root, tables, use, slots, page, Data(ZeroBytes()));
      ghost var mem1 := mem;
      StoreSlot(t, vpn, Leaf(page, ProtToType(PROT_READ | PROT_WRITE, false)));
      assert SameFrame(mem1, mem, page);
      forall q | q != t && q != page ensures SameFrame(old(mem), mem, q) {
        assert SameFrame(mem1, mem, q);
      }
    }

    lemma TableInUse(k: Key)
      requires Radix(mem, root, tables, use) && k in tables
      ensures tables[k] in use && use[tables[k]].AsTable?
    {
    }

    // The contents of the fresh page p: the file's bytes, or none.
    method FillPage(p: int, r: Vmr, vpn: nat) returns (ok: bool)
      requires Covers(r, vpn) && (r.file.Some? ==> r.file.value < |ft.contents|)
      requires p in mem && mem[p] == Data(ZeroBytes())
      modifies this`mem
      ensures ok <==> !PastEof(r, ft.contents, vpn)
      ensures ok ==> mem == old(mem)[p := Data(RegionPage(r, ft.contents, vpn).bytes)]
    {
      hide PastEof, RegionPage;
      if r.file.Some? {
        ok := ReadPage(p, r, vpn);
      } else {
        AnonymousPage(r, ft.contents, vpn);
        NotPastEof(r, ft.contents, vpn);
        assert mem == mem[p := Data(ZeroBytes())];
        ok := true;
      }
    }

    method AcquireFilled(vpn: nat, t: int, r: Vmr) returns (page: int, ok: bool)
      requires pa.Valid() && Radix(mem, root, tables, use) && Represents(mem, tables, slots)
      requires Handed(use, pa.Managed(), pa.free) && |pa.free| > 0
      requires vpn < USER_PAGES && Key(0, vpn / FANOUT) in tables && t == tables[Key(0, vpn / FANOUT)]
      requires Covers(r, vpn) && (r.file.Some? ==> r.file.value < |ft.contents|)
      modifies this`mem, this`slots, pa, pa.storage
      ensures pa.Valid() && page in old(pa.free) && page !in use && page != t && pa.free == old(pa.free) - {page}
      ensures |pa.free| == old(|pa.free|) - 1
      ensures ok <==> !PastEof(r, ft.contents, vpn)
      ensures ok ==> Radix(mem, root, tables, use) && Represents(mem, tables, slots)
      ensures ok ==> page in mem && mem[page] == Data(RegionPage(r, ft.contents, vpn).bytes)
      ensures ok ==> forall q :: q != t && q != page ==> SameFrame(old(mem), mem, q)
      ensures slots == old(slots)[vpn := Leaf(page, ProtToType(PROT_READ | PROT_WRITE, false))]
    {
      hide PageAllocator.Pages.Valid, Radix, Represents, Handed, ProtToType, PastEof, RegionPage;
      page := AcquirePage(vpn, t);
      ghost var mem1 := mem;
      ok := FillPage(page, r, vpn);
      if ok {
        WriteElsewhere(mem1, root, tables, use, slots, page, mem[page]);
        forall q | q != t && q != page ensures SameFrame(old(mem), mem, q) {
          assert SameFrame(old(mem), mem1, q);
        }
      }
    }

    // The filled page takes the place of the promise.
    method SettlePage(vpn: nat, t: int, page: int, v: RegionId, prot: bv32)
      requires Radix(mem, root, tables, use) && Represents(mem, tables, slots)
      requires ft.Valid() && FilesCounted(vmrs, ft.mapped) && Records(vmrs.Keys, freelist, use)
      requires vpn < USER_PAGES && Key(0, vpn / FANOUT) in tables && t == tables[Key(0, vpn / FANOUT)]
      requires v in vmrs && vmrs[v].refcnt > 0 && promised > 0
      modifies this`mem, this`slots, this`vmrs, this`freelist, this`promised, ft`held, ft`mapped, ft`closed, ft.refcnt
      ensures Radix(mem, root, tables, use) && Represents(mem, tables, slots)
      ensures ft.Valid() && FilesCounted(vmrs, ft.mapped) && Records(vmrs.Keys, freelist, use) &&
                ft.held == old(ft.held)
      ensures slots == old(slots)[vpn := Leaf(page, ProtToType(prot, true))]
      ensures vmrs == Decref(old(vmrs), v, 1) && promised == old(promised) - 1
      ensures forall q :: q != t ==> SameFrame(old(mem), mem, q)
    {
      hide FileTable.Files.Valid, Radix, Represents, Records, FilesCounted, Decref, ProtToType;
      VmrDecref(v, 1);
      StoreSlot(t, vpn, Leaf(page, ProtToType(prot, true)));
    }

    // The lazy branch of __handle_page_fault: the page gets the contents it was seen to
    // have, and nothing else changes. "Out of memory!" cannot happen; the panic of
    // kassert(ret > 0) happens exactly on a page past the end of its file.
    method PopulatePage(vpn: nat, t: int, v: RegionId) returns (ok: bool)
      requires Valid() && vpn < USER_PAGES && SlotAt(slots, vpn) == Lazy(v)
      requires Key(0, vpn / FANOUT) in tables && t == tables[Key(0, vpn / FANOUT)]
      requires v in vmrs
      modifies this`mem, this`slots, this`use, this`vmrs, this`freelist, this`promised
      modifies pa, pa.storage, ft`held, ft`mapped, ft`closed, ft.refcnt
      ensures ok <==> !PastEof(old(vmrs[v]), ft.contents, vpn)
      ensures ok ==> Valid() && Space() == old(Space())
      ensures ok ==> SlotAt(slots, vpn).Leaf? && slots == old(slots)[vpn := SlotAt(slots, vpn)]
      ensures ok ==> Shrunk(old(vmrs), vmrs) && ft.held == old(ft.held)
      ensures ok ==> |pa.free| - promised == old(|pa.free| - promised)
    {
      hide PageAllocator.Pages.Valid, FileTable.Files.Valid, Radix, Represents, Owned, Records, Accounted, FilesCounted,
        WXBounded, Limits, SpaceOf, Shrunk, PastEof, RegionPage, Decref, ProtToType;
      SlotFacts(vpn);
      var page;
      page, ok := FetchPage(vpn, t, v);
      if !ok {
        return;
      }
      Populated(old(use), old(mem), old(slots), pa.Managed(), old(pa.free), old(vmrs), old(promised), vpn, t, page, v);
      use := use[page := AsData(vpn)];
    }

    // The steps of that branch, before anything is said of the page's new use.
    method FetchPage(vpn: nat, t: int, v: RegionId) returns (page: int, ok: bool)
      requires Valid() && vpn < USER_PAGES && SlotAt(slots, vpn) == Lazy(v)
      requires Key(0, vpn / FANOUT) in tables && t == tables[Key(0, vpn / FANOUT)]
      requires v in vmrs
      modifies this`mem, this`slots, this`vmrs, this`freelist, this`promised
      modifies pa, pa.storage, ft`held, ft`mapped, ft`closed, ft.refcnt
      ensures ok <==> !PastEof(old(vmrs[v]), ft.contents, vpn)
      ensures ok ==> pa.Valid() && page in old(pa.free) && page !in use && pa.free == old(pa.free) - {page}
      ensures ok ==> |pa.free| == old(|pa.free|) - 1
      ensures ok ==> Radix(mem, root, tables, use) && Represents(mem, tables, slots)
      ensures ok ==> page in mem && mem[page] == Data(RegionPage(old(vmrs[v]), ft.contents, vpn).bytes)
      ensures ok ==> forall q :: q != t && q != page ==> SameFrame(old(mem), mem, q)
      ensures ok ==>
                ft.Valid() && FilesCounted(vmrs, ft.mapped) && Records(vmrs.Keys, freelist, use) &&
                ft.held == old(ft.held)
      ensures ok ==> slots == old(slots)[vpn := Leaf(page, ProtToType(old(vmrs[v]).prot, true))]
      ensures ok ==> vmrs == Decref(old(vmrs), v, 1) && promised == old(promised) - 1
    {
      hide PageAllocator.Pages.Valid, FileTable.Files.Valid, Radix, Represents, Owned, Records, Accounted, FilesCounted,
        WXBounded, Limits, SpaceOf, PastEof, RegionPage, Decref, ProtToType;
      SlotFacts(vpn);
      FilesInRange(v);
      var r := vmrs[v];
      page, ok := AcquireFilled(vpn, t, r);
      if ok {
        ghost var mem1 := mem;
        SettlePage(vpn, t, page, v, r.prot);
        SameFrames(old(mem), mem1, mem, t, page);
      }
    }

    lemma Populated(use0: map<int, Use>, mem0: Memory, slots0: map<nat, Entry>, managed: set<int>, free: set<int>,
                    vmrs0: map<RegionId, Vmr>, promised0: nat, vpn: nat, t: int, page: int, v: RegionId)
      requires Owned(use0, mem0, slots0, managed, free) && page in free && page !in use0
      requires t in use0 && use0[t].AsTable? && (forall q :: q != t && q != page ==> SameFrame(mem0, mem, q))
      requires SlotAt(slots0, vpn) == Lazy(v) && v in vmrs0 && vmrs0[v].addr <= vpn * PGSIZE && 0 < vmrs0[v].refcnt &&
                0 < promised0
      requires page in mem && mem[page] == Data(RegionPage(vmrs0[v], ft.contents, vpn).bytes)
      requires slots == slots0[vpn := Leaf(page, ProtToType(vmrs0[v].prot, true))]
      requires vmrs == Decref(vmrs0, v, 1) && promised == promised0 - 1
      requires Accounted(slots0, vmrs0, promised0, placing, pending)
      requires Radix(mem, root, tables, use0) && Records(vmrs.Keys, freelist, use0)
      ensures Owned(use0[page := AsData(vpn)], mem, slots, managed, free - {page})
      ensures Accounted(slots, vmrs, promised, placing, pending)
      ensures Radix(mem, root, tables, use0[page := AsData(vpn)]) &&
                Records(vmrs.Keys, freelist, use0[page := AsData(vpn)])
      ensures Space() == SpaceOf(slots0, mem0, vmrs0, ft.contents) && Shrunk(vmrs0, vmrs)
    {
      hide Radix, Owned, Records, SpaceOf, Shrunk, Decref;
      OwnedLeaf(use0, mem0, slots0, managed, free, vpn, t, page, ProtToType(vmrs0[v].prot, true), mem);
      DropLazy(slots0, slots, vmrs0, promised0, placing, pending, vpn);
      Reuse(mem, root, tables, use0, use0[page := AsData(vpn)]);
      RecordsReuse(vmrs.Keys, freelist, use0, use0[page := AsData(vpn)]);
      DecrefShrinks(vmrs0, v, 1);
      PopulatedView(use0, mem0, slots0, managed, free, vmrs0, mem, vmrs, ft.contents, vpn, t, page, v);
    }

    // A first touch of this page would fail kassert(ret > 0).
    ghost predicate Panics(vpn: nat)
      reads this, ft
    {
      PanicsIn(slots, vmrs, ft.contents, vpn)
    }

    ghost predicate SomePanics(lo: nat, hi: nat)
      reads this, ft
    {
      exists w :: lo <= w < hi && Panics(w)
    }

    lemma SeenFlags(vpn: nat)
      ensures vpn in slots <==> vpn in Space()
      ensures vpn in slots && slots[vpn].Leaf? ==> Space()[vpn].flags == slots[vpn].flags
    {
    }

    lemma SlotsInRange(vpn: nat)
      requires Represents(mem, tables, slots) && vpn in slots
      ensures vpn < USER_PAGES
    {
    }

    lemma SlotKinds()
      requires Valid()
      ensures Covered(slots, vmrs) && forall w :: w in slots ==> slots[w].Leaf? || slots[w].Lazy?
    {
      hide PageAllocator.Pages.Valid, FileTable.Files.Valid, Radix, Owned, Records, FilesCounted, WXBounded, Limits,
        SpaceOf;
    }

    // __handle_page_fault. Whether or not the page was populated before, the fault is
    // a check of the permissions the page is seen to have, and the view is untouched.
    method HandlePageFault(vaddr: nat, prot: bv32) returns (r: Fault)
      requires Valid()
      modifies this`mem, this`slots, this`use, this`vmrs, this`freelist, this`promised
      modifies pa, pa.storage, ft`held, ft`mapped, ft`closed, ft.refcnt
      ensures r == Panicked <==> vaddr < MMAP_MAX && old(Panics(vaddr / PGSIZE))
      ensures r != Panicked ==> Valid() && Space() == old(Space())
      ensures r != Panicked ==> (r == Granted <==>
                vaddr / PGSIZE in old(Space()) && Permits(old(Space())[vaddr / PGSIZE].flags, prot))
      ensures r == Granted ==>
                && vaddr / PGSIZE in born
                && (prot & PROT_WRITE != 0 ==> born[vaddr / PGSIZE] & PROT_WRITE != 0)
                && (prot & PROT_EXEC != 0 ==> born[vaddr / PGSIZE] & PROT_EXEC != 0)
      ensures r != Panicked ==>
                SameElsewhere(old(slots), slots, vaddr / PGSIZE) && Shrunk(old(vmrs), vmrs) && ft.held == old(ft.held)
      ensures r != Panicked && vaddr / PGSIZE in slots ==> slots[vaddr / PGSIZE].Leaf?
      ensures r != Panicked ==> |pa.free| - promised == old(|pa.free| - promised)
    {
      hide PageAllocator.Pages.Valid, FileTable.Files.Valid, Radix, Represents, Owned, Records, Accounted, FilesCounted,
        WXBounded, Limits, SpaceOf, Shrunk, PastEof, Permits, NoMoreWX, ProtToType;
      var vpn := vaddr / PGSIZE;
      SeenFlags(vpn);
      ShrunkRefl(vmrs);
      if vaddr >= MMAP_MAX {
        if vpn in slots {
          SlotsInRange(vpn);
        }
        return Denied;
      }
      SlotFacts(vpn);
      var t := Walk(vpn);
      var e := Lookup(vpn);
      if e == Empty {
        return Denied;
      }
      if e.Lazy? {
        var ok := PopulatePage(vpn, t, e.region);
        if !ok {
          return Panicked;
        }
      }
      r := CheckPerms(vpn, prot);
      if r == Granted {
        GrantedWithinBorn(vpn, prot);
      }
    }

    lemma GrantedWithinBorn(vpn: nat, prot: bv32)
      requires WXBounded(Space(), born) && vpn in Space() && Permits(Space()[vpn].flags, prot)
      ensures vpn in born
      ensures prot & PROT_WRITE != 0 ==> born[vpn] & PROT_WRITE != 0
      ensures prot & PROT_EXEC != 0 ==> born[vpn] & PROT_EXEC != 0
    {
      hide Permits, NoMoreWX, ProtToType, SpaceOf;
      PermitsBounded(Space()[vpn].flags, born[vpn], prot);
    }

    // The permission check that ends __handle_page_fault.
    method CheckPerms(vpn: nat, prot: bv32) returns (r: Fault)
      requires Valid() && vpn < USER_PAGES && SlotAt(slots, vpn).Leaf?
      ensures r == if vpn in Space() && Permits(Space()[vpn].flags, prot) then Granted else Denied
    {
      hide PageAllocator.Pages.Valid, FileTable.Files.Valid, Radix, Represents, Owned, Records, Accounted, FilesCounted,
        WXBounded, Limits, SpaceOf, Permits;
      SeenFlags(vpn);
      SlotFacts(vpn);
      var e := Lookup(vpn);
      r := if Permits(e.flags, prot) then Granted else Denied;
    }

    // __do_munmap
    method Munmap(addr: nat, len: nat)
      requires Valid() && addr % PGSIZE == 0 && addr + len <= MMAP_MAX
      modifies this`mem, this`slots, this`use, this`vmrs, this`freelist, this`promised
      modifies pa, pa.storage, ft`held, ft`mapped, ft`closed, ft.refcnt
      ensures Valid()
      ensures Space() == Without(old(Space()), addr / PGSIZE, PageEnd(addr + len))
      ensures slots.Keys == old(slots.Keys) - NatRange(addr / PGSIZE, PageEnd(addr + len))
      ensures Shrunk(old(vmrs), vmrs) && ft.held == old(ft.held)
      ensures |pa.free| >= old(|pa.free|) && promised <= old(promised)
    {
      hide Kernel.Valid, Kernel.Space, Shrunk;
      var a := addr;
      ShrunkRefl(vmrs);
      assert Without(Space(), addr / PGSIZE, a / PGSIZE) == Space();
      while a < addr + len
        invariant addr <= a && a % PGSIZE == 0 && (a > addr ==> a - PGSIZE < addr + len)
        invariant Valid()
        invariant Space() == Without(old(Space()), addr / PGSIZE, a / PGSIZE)
        invariant slots.Keys == old(slots.Keys) - NatRange(addr / PGSIZE, a / PGSIZE)
        invariant Shrunk(old(vmrs), vmrs) && ft.held == old(ft.held)
        invariant |pa.free| >= old(|pa.free|) && promised <= old(promised)
      {
        ghost var vmrs1 := vmrs;
        MunmapPage(a / PGSIZE);
        ShrunkTrans(old(vmrs), vmrs1, vmrs);
        NextPage(addr, a);
        a := a + PGSIZE;
      }
      assert len > 0 ==> a / PGSIZE == PageEnd(addr + len);
      assert len == 0 ==> a == addr && PageEnd(addr + len) == addr / PGSIZE;
    }

    // ---- Finding room ----

    // __vm_alloc_at: the lowest window of npage free pages that starts in start .. end.
    // 0 says there is none, or, from start 0 only, that the window at 0 is free.
    method VmAllocAt(start: nat, end: nat, npage: nat) returns (r: nat)
      requires Radix(mem, root, tables, use) && Represents(mem, tables, slots) && 0 !in use
      requires start % PGSIZE == 0 && npage > 0 && end + npage * PGSIZE <= MMAP_MAX
      ensures r != 0 ==> start <= r <= end && r % PGSIZE == 0 && Window(slots, r / PGSIZE, npage)
      ensures r != 0 ==> forall v :: start / PGSIZE <= v < r / PGSIZE ==> !Window(slots, v, npage)
      ensures r == 0 && !(start == 0 && Window(slots, 0, npage)) ==>
                forall v :: start / PGSIZE <= v && v * PGSIZE <= end ==> !Window(slots, v, npage)
    {
      hide Radix, Represents;
      var a := start;
      while a <= end
        invariant a % PGSIZE == 0 && start <= a
        invariant forall v :: start / PGSIZE <= v < a / PGSIZE ==> !Window(slots, v, npage)
        decreases end + PGSIZE - a
      {
        var avail := VaAvail(a);
        if !avail {
          forall v | v == a / PGSIZE ensures !Window(slots, v, npage) { }
          a := a + PGSIZE;
        } else {
          var first, last := a, a + (npage - 1) * PGSIZE;
          a := last;
          avail := VaAvail(a);
          while a > first && avail
            invariant first <= a <= last && a % PGSIZE == 0
            invariant avail <==> a / PGSIZE !in slots
            invariant forall w :: a / PGSIZE < w < first / PGSIZE + npage ==> w !in slots
            decreases a
          {
            a := a - PGSIZE;
            avail := VaAvail(a);
          }
          if a == first {
            return a;
          }
          forall v | first / PGSIZE <= v <= a / PGSIZE ensures !Window(slots, v, npage) {
            assert v <= a / PGSIZE < v + npage;
          }
          a := a + PGSIZE;
        }
      }
      r := 0;
    }

    // __va_avail
    method VaAvail(vaddr: nat) returns (b: bool)
      requires Radix(mem, root, tables, use) && Represents(mem, tables, slots) && 0 !in use
      requires vaddr < MMAP_MAX
      ensures b <==> vaddr / PGSIZE !in slots
    {
      var e := Lookup(vaddr / PGSIZE);
      b := e == Empty;
    }

    // ---- Placing a region ----

    // __vmr_alloc's refill of an empty record list. Its caller's admission check has left
    // a page; the NULL test on pa2kva(0) could not see the lack of one.
    method RefillRecords()
      requires Valid() && freelist == [] && |pa.free| > promised
      modifies this`mem, this`use, this`freelist, pa, pa.storage
      ensures Valid() && Space() == old(Space()) && freelist != []
      ensures |pa.free| == old(|pa.free|) - 1
    {
      hide PageAllocator.Pages.Valid, FileTable.Files.Valid, Radix, Represents, Owned, Records, Accounted, FilesCounted,
        WXBounded, Limits, SpaceOf, Shrunk, NewRecords;
      var page := PageAlloc();
      assert page != 0;
      mem := mem[page := Regions];
      Refilled(old(mem), old(pa.free), page);
      use := use[page := AsRegions];
      freelist := NewRecords(page);
    }

    lemma Refilled(mem0: Memory, free: set<int>, page: int)
      requires Owned(use, mem0, slots, pa.Managed(), free) && page in free
      requires Radix(mem0, root, tables, use) && Represents(mem0, tables, slots) && Records(vmrs.Keys, [], use)
      requires mem == mem0[page := Regions]
      ensures page !in use && Owned(use[page := AsRegions], mem, slots, pa.Managed(), free - {page})
      ensures Radix(mem, root, tables, use[page := AsRegions]) && Represents(mem, tables, slots)
      ensures Records(vmrs.Keys, NewRecords(page), use[page := AsRegions]) && NewRecords(page) != []
      ensures Space() == SpaceOf(slots, mem0, vmrs, ft.contents)
    {
      hide Radix, Represents, Records, NewRecords;
      OwnedRegions(use, mem0, slots, pa.Managed(), free, page, Regions);
      WriteElsewhere(mem0, root, tables, use, slots, page, Regions);
      Reuse(mem, root, tables, use, use[page := AsRegions]);
      RecordsRefill(vmrs.Keys, use, page);
      assert |NewRecords(page)| == RECORDS by { NewRecordsSize(page); }
      forall w | w in slots
        ensures SlotView(slots[w], w, mem, vmrs, ft.contents) == SlotView(slots[w], w, mem0, vmrs, ft.contents) { }
    }

    // __vmr_alloc. All n pages of the new region are promised and still to be placed.
    method VmrAlloc(addr: nat, length: nat, file: Option<nat>, offset: nat, n: nat, prot: bv32) returns (v: RegionId)
      requires Valid() && pending == 0 && n > 0 && promised + n < |pa.free|
      requires file.Some? ==> file.value < FileTable.MAX_FILES && ft.held[file.value] > 0
      modifies this`mem, this`use, this`vmrs, this`freelist, this`promised, this`placing, this`pending
      modifies pa, pa.storage, ft`held, ft`mapped, ft.refcnt
      ensures Valid() && Space() == old(Space()) && ft.held == old(ft.held)
      ensures v !in old(vmrs) && vmrs == old(vmrs)[v := Vmr(addr, length, file, offset, n, prot)]
      ensures placing == v && pending == n && promised == old(promised) + n
      ensures |pa.free| >= old(|pa.free|) - 1
    {
      hide PageAllocator.Pages.Valid, FileTable.Files.Valid, Radix, Represents, Owned, Records, Accounted, FilesCounted,
        WXBounded, Limits, SpaceOf, Shrunk;
      if freelist == [] {
        RefillRecords();
      }
      v := TakeRecord(Vmr(addr, length, file, offset, n, prot));
    }

    // The rest of __vmr_alloc, with a record at the head of the list.
    method TakeRecord(r: Vmr) returns (v: RegionId)
      requires Valid() && pending == 0 && freelist != [] && r.refcnt > 0 && promised + r.refcnt <= |pa.free|
      requires r.file.Some? ==> r.file.value < FileTable.MAX_FILES && ft.held[r.file.value] > 0
      modifies this`vmrs, this`freelist, this`promised, this`placing, this`pending
      modifies ft`held, ft`mapped, ft.refcnt
      ensures Valid() && Space() == old(Space()) && ft.held == old(ft.held)
      ensures v !in old(vmrs) && vmrs == old(vmrs)[v := r]
      ensures placing == v && pending == r.refcnt && promised == old(promised) + r.refcnt
    {
      hide PageAllocator.Pages.Valid, FileTable.Files.Valid, Radix, Represents, Owned, Records, Accounted, FilesCounted,
        WXBounded, Limits, SpaceOf, Shrunk, WithRegion;
      v := freelist[0];
      RecordTaken(v, r);
      RefFile(r.file);
      freelist, promised, vmrs, placing, pending := freelist[1..], promised + r.refcnt, vmrs[v := r], v, r.refcnt;
    }

    // if (file) file_incref(file)
    method RefFile(f: Option<nat>)
      requires ft.Valid() && (f.Some? ==> f.value < FileTable.MAX_FILES && ft.held[f.value] > 0)
      modifies ft`held, ft`mapped, ft.refcnt
      ensures ft.Valid() && ft.held == old(ft.held) && |old(ft.mapped)| == FileTable.MAX_FILES
      ensures ft.mapped == WithRegion(old(ft.mapped), f)
    {
      if f.Some? {
        HeldReferences(f.value);
        ft.IncRef(f.value, true);
      }
    }

    lemma RecordTaken(v: RegionId, r: Vmr)
      requires freelist != [] && v == freelist[0] && r.refcnt > 0 && pending == 0
      requires r.file.Some? ==> r.file.value < FileTable.MAX_FILES
      requires Records(vmrs.Keys, freelist, use) && Accounted(slots, vmrs, promised, placing, pending) &&
                FilesCounted(vmrs, ft.mapped)
      ensures v !in vmrs && Records(vmrs[v := r].Keys, freelist[1..], use)
      ensures Accounted(slots, vmrs[v := r], promised + r.refcnt, v, r.refcnt)
      ensures |ft.mapped| == MAX_FILES
      ensures FilesCounted(vmrs[v := r], WithRegion(ft.mapped, r.file))
      ensures SpaceOf(slots, mem, vmrs[v := r], ft.contents) == Space()
    {
      RecordsTake(vmrs.Keys, freelist, use);
      hide Records, SpaceOf;
      NewRegion(slots, vmrs, promised, placing, v, r);
      AddBacked(vmrs, ft.mapped, v, r);
      CoveredOf(slots, vmrs, promised, placing, pending);
      UnseenRegion(slots, mem, vmrs, ft.contents, v, r);
      assert vmrs[v := r].Keys == vmrs.Keys + {v};
    }

    lemma HeldReferences(f: nat)
      requires ft.Valid() && f < FileTable.MAX_FILES && ft.held[f] > 0
      ensures ft.Shape() && ft.Refs(f) > 0
    {
    }

    // __walk_create with its kassert, as a step of the whole state.
    method EnsureTable(vpn: nat, ghost need: set<Key>) returns (t: int)
      requires Valid() && vpn < USER_PAGES && Chain(vpn) <= need
      requires |pa.free| >= promised + Missing(need, tables)
      modifies this`mem, this`tables, this`use, pa, pa.storage
      ensures Valid() && Space() == old(Space())
      ensures Key(0, vpn / FANOUT) in tables && t == tables[Key(0, vpn / FANOUT)]
      ensures |pa.free| - Missing(need, tables) == old(|pa.free| - Missing(need, tables))
    {
      hide PageAllocator.Pages.Valid, FileTable.Files.Valid, Radix, Represents, Owned, Records, Accounted, FilesCounted,
        WXBounded, Limits, SpaceOf, Shrunk, Missing, OnlyTablesAdded;
      PagesHanded();
      t := WalkCreate(vpn, need);
      assert t != 0;   // kassert(pte)
      OwnedGrow(old(use), old(mem), slots, pa.Managed(), old(pa.free), use, mem, pa.free);
      RecordsGrow(vmrs.Keys, freelist, old(use), old(mem), use, mem);
      GrowKeepsView(old(use), old(mem), slots, pa.Managed(), old(pa.free), vmrs, use, mem, ft.contents);
    }

    lemma PagesHanded()
      requires Owned(use, mem, slots, pa.Managed(), pa.free)
      ensures Handed(use, pa.Managed(), pa.free)
    {
    }

    // One round of __do_mmap's placement loop.
    method PlacePage(vpn: nat, v: RegionId, ghost need: set<Key>)
      requires Valid() && v == placing && pending > 0 && vpn < USER_PAGES && Chain(vpn) <= need
      requires placing in vmrs && Covers(vmrs[placing], vpn)
      requires |pa.free| >= promised + Missing(need, tables)
      modifies this`mem, this`tables, this`slots, this`use, this`vmrs, this`freelist, this`promised, this`pending
      modifies this`born
      modifies pa, pa.storage, ft`held, ft`mapped, ft`closed, ft.refcnt
      ensures Valid() && pending == old(pending) - 1
      ensures slots == old(slots)[vpn := Lazy(placing)] && born == old(born)[vpn := old(vmrs[placing]).prot]
      ensures placing in vmrs && Shrunk(old(vmrs), vmrs) && ft.held == old(ft.held)
      ensures Space() == old(Space())[vpn := RegionPage(old(vmrs[placing]), ft.contents, vpn)]
      ensures |pa.free| >= promised + Missing(need, tables)
      ensures |pa.free| - promised - Missing(need, tables) >= old(|pa.free| - promised - Missing(need, tables))
    {
      hide Kernel.Valid, Kernel.Space, Shrunk, Missing, RegionPage;
      var t := EnsureTable(vpn, need);
      var e := LookupHere(vpn);
      if e != Empty {
        MunmapPage(vpn);
      }
      PlacingKept(old(vmrs));
      SameRegionPage(old(vmrs[placing]), vmrs[placing], ft.contents, vpn);
      PlaceSlot(vpn, t, v);
    }

    lemma PlacingKept(vmrs0: map<RegionId, Vmr>)
      requires Valid() && Shrunk(vmrs0, vmrs) && pending > 0
      ensures placing in vmrs && placing in vmrs0 && SameRegion(vmrs0[placing], vmrs[placing])
    {
    }

    method LookupHere(vpn: nat) returns (e: Entry)
      requires Valid() && vpn < USER_PAGES
      ensures e == SlotAt(slots, vpn)
      ensures e == Empty <==> vpn !in slots
      ensures e == Empty ==> Shrunk(vmrs, vmrs) && slots - {vpn} == slots && Space() - {vpn} == Space()
    {
      hide PageAllocator.Pages.Valid, FileTable.Files.Valid, Radix, Represents, Owned, Records, Accounted, FilesCounted,
        WXBounded, Limits, SpaceOf, Shrunk;
      SlotFacts(vpn);
      e := Lookup(vpn);
      if e == Empty {
        NothingThere(vpn);
      }
    }

    // *pte = (pte_t)v on an empty slot.
    method PlaceSlot(vpn: nat, t: int, v: RegionId)
      requires Valid() && v == placing && pending > 0 && vpn < USER_PAGES && vpn !in slots
      requires placing in vmrs && Covers(vmrs[placing], vpn)
      requires Key(0, vpn / FANOUT) in tables && t == tables[Key(0, vpn / FANOUT)]
      modifies this`mem, this`slots, this`pending, this`born
      ensures Valid() && pending == old(pending) - 1
      ensures slots == old(slots)[vpn := Lazy(placing)] && born == old(born)[vpn := vmrs[placing].prot]
      ensures Space() == old(Space())[vpn := RegionPage(vmrs[placing], ft.contents, vpn)]
    {
      hide PageAllocator.Pages.Valid, FileTable.Files.Valid, Radix, Represents, Owned, Records, Accounted, FilesCounted,
        WXBounded, Limits, SpaceOf, RegionPage;
      TableInUse(Key(0, vpn / FANOUT));
      StoreSlot(t, vpn, Lazy(v));
      PlaceLazy(old(slots), vmrs, promised, placing, pending, vpn);
      CoveredOf(slots, vmrs, promised, placing, pending - 1);
      assert SlotAt(slots, vpn) == Lazy(placing);
      OwnedWrite(use, old(mem), old(slots), pa.Managed(), pa.free, vpn, t, mem, slots);
      PlacedView(use, old(mem), old(slots), pa.Managed(), pa.free, vmrs, mem, ft.contents, vpn, t, placing);
      BornPage(old(Space()), born, vpn, vmrs[placing], ft.contents);
      pending := pending - 1;
      born := born[vpn := vmrs[placing].prot];
    }

    // The placement loop of __do_mmap. The admission check's slack covers every table
    // page, so its kassert never fires.
    method PlaceRegion(addr: nat, length: nat, v: RegionId, ghost r: Vmr)
      requires Valid() && length > 0 && addr % PGSIZE == 0 && addr + length <= MMAP_MAX
      requires v == placing && v in vmrs && vmrs[v] == r && r.addr == addr && r.length == length
      requires pending == (length - 1) / PGSIZE + 1
      requires |pa.free| >= promised + |Needed(addr / PGSIZE, pending)|
      modifies this`mem, this`tables, this`slots, this`use, this`vmrs, this`freelist, this`promised, this`pending
      modifies this`born
      modifies pa, pa.storage, ft`held, ft`mapped, ft`closed, ft.refcnt
      ensures Valid() && pending == 0 && ft.held == old(ft.held)
      ensures Space() == MapIn(old(Space()), r, ft.contents)
      ensures v in vmrs && SameRegion(r, vmrs[v])
      ensures KeepsOutside(old(slots), old(vmrs), slots, vmrs, addr / PGSIZE, PageEnd(addr + length))
      ensures |pa.free| - promised + |Needed(addr / PGSIZE, old(pending))| >= old(|pa.free| - promised)
      ensures born == BornOver(old(born), addr / PGSIZE, PageEnd(addr + length), r.prot)
      ensures forall w :: addr / PGSIZE <= w < PageEnd(addr + length) ==> SlotAt(slots, w) == Lazy(v)
    {
      hide Kernel.Valid, Kernel.Space, Shrunk, Missing, RegionPage, Overlay, Needed, NatRange, BornOver, KeepsOutside,
        Covered;
      ghost var lo, n := addr / PGSIZE, pending;
      ghost var need := Needed(lo, n);
      ghost var k := 0;
      OverlayNone(Space(), lo, r, ft.contents);
      BornNone(born, lo, r.prot);
      MissingAtMost(need, tables);
      SlotKinds();
      KeepsSelf(slots, vmrs);
      KeepsWider(slots, vmrs, slots, vmrs, 0, 0, lo, lo + n);
      SameRegionRefl(r);
      RangeEnd(addr, length, n);
      var a := addr;
      while a < addr + length
        invariant k <= n && a == addr + k * PGSIZE && pending == n - k
        invariant Valid() && v == placing && ft.held == old(ft.held)
        invariant v in vmrs && SameRegion(r, vmrs[v])
        invariant forall w :: lo <= w < lo + k ==> SlotAt(slots, w) == Lazy(v)
        invariant Space() == Overlay(old(Space()), lo, lo + k, r, ft.contents)
        invariant born == BornOver(old(born), lo, lo + k, r.prot)
        invariant |pa.free| >= promised + Missing(need, tables)
        invariant |pa.free| - promised - Missing(need, tables) >= old(|pa.free| - promised - Missing(need, tables))
        invariant KeepsOutside(old(slots), old(vmrs), slots, vmrs, lo, lo + n)
        decreases addr + length - a
      {
        PageAt(addr, k, length, n);
        ghost var r1, vmrs1, slots1 := vmrs[v], vmrs, slots;
        ChainNeeded(lo, n, lo + k);
        PlacePage(a / PGSIZE, v, need);
        forall w | lo <= w < lo + k + 1 ensures SlotAt(slots, w) == Lazy(v) {
          assert w < lo + k ==> SlotAt(slots1, w) == Lazy(v);
        }
        ShrunkOne(vmrs1, vmrs, v);
        SlotKinds();
        KeepsPlaced(slots1, vmrs1, slots, vmrs, lo + k, lo, lo + n);
        KeepsTrans(old(slots), old(vmrs), slots1, vmrs1, slots, vmrs, lo, lo + n);
        BornNext(old(born), lo, lo + k, r.prot);
        OverlayNext(old(Space()), lo, lo + k, r, r1, ft.contents);
        a := a + PGSIZE;
        k := k + 1;
      }
    }

    // The populating loop of __do_mmap. Its kassert fails only on a page past the end of
    // the file, never on the permissions.
    method PopulateRange(addr: nat, length: nat, prot: bv32) returns (ok: bool)
      requires Valid() && length > 0 && addr % PGSIZE == 0 && addr + length <= MMAP_MAX
      requires forall w :: addr / PGSIZE <= w < PageEnd(addr + length) ==>
                w in Space() && Space()[w].flags == ProtToType(prot, true)
      modifies this`mem, this`slots, this`use, this`vmrs, this`freelist, this`promised
      modifies pa, pa.storage, ft`held, ft`mapped, ft`closed, ft.refcnt
      ensures ok <==> !old(SomePanics(addr / PGSIZE, PageEnd(addr + length)))
      ensures ok ==> KeepsOutside(old(slots), old(vmrs), slots, vmrs, 0, 0)
      ensures ok ==> AllLeaf(slots, addr / PGSIZE, PageEnd(addr + length))
      ensures ok ==> |pa.free| - promised == old(|pa.free| - promised)
      ensures ok ==> Valid() && Space() == old(Space()) && ft.held == old(ft.held)
    {
      hide PageAllocator.Pages.Valid, FileTable.Files.Valid, Radix, Represents, Owned, Records, Accounted, FilesCounted,
        WXBounded, Limits, SpaceOf, Shrunk, Permits, PanicsIn, KeepsOutside, Covered, AllLeaf;
      SlotKinds();
      KeepsSelf(slots, vmrs);
      LeafNone(slots, addr / PGSIZE);
      var a := addr;
      while a < addr + length
        invariant addr <= a && a % PGSIZE == 0
        invariant Valid() && Space() == old(Space()) && ft.held == old(ft.held)
        invariant forall w :: a / PGSIZE <= w < PageEnd(addr + length) ==> (Panics(w) <==> old(Panics(w)))
        invariant forall w :: addr / PGSIZE <= w < a / PGSIZE ==> !old(Panics(w))
        invariant KeepsOutside(old(slots), old(vmrs), slots, vmrs, 0, 0)
        invariant AllLeaf(slots, addr / PGSIZE, a / PGSIZE)
        invariant |pa.free| - promised == old(|pa.free| - promised)
        decreases addr + length - a
      {
        var vpn := a / PGSIZE;
        assert vpn < PageEnd(addr + length);
        PermitsOwn(prot);
        ghost var slots1, mem1, vmrs1, promised1 := slots, mem, vmrs, promised;
        SlotKinds();
        SeenFlags(vpn);
        var r := HandlePageFault(a, prot);
        if r == Panicked {
          assert old(Panics(vpn));
          return false;
        }
        assert r == Granted;   // kassert(__handle_page_fault(a, prot) == 0)
        PanicsKept(slots1, vmrs1, promised1, slots, vmrs, promised, placing, pending, ft.contents, vpn);
        SlotKinds();
        SeenFlags(vpn);
        KeepsFaulted(slots1, mem1, vmrs1, slots, mem, vmrs, ft.contents, vpn);
        LeafNext(slots1, slots, addr / PGSIZE, vpn);
        KeepsTrans(old(slots), old(vmrs), slots1, vmrs1, slots, vmrs, 0, 0);
        a := a + PGSIZE;
      }
      LeafFewer(slots, addr / PGSIZE, a / PGSIZE, PageEnd(addr + length));
      return true;
    }

    lemma BrkAligned()
      requires Limits(pa.total, brk, brkMax, guess)
      ensures brk % PGSIZE == 0 && guess % PGSIZE == 0
    {
    }

    // __vm_alloc: first fit from where the last mapping ended, then from the break.
    method VmAlloc(npage: nat) returns (r: nat)
      requires Valid() && npage > 0 && npage * PGSIZE <= MMAP_MAX
      ensures r != 0 ==> r % PGSIZE == 0 && r + npage * PGSIZE <= MMAP_MAX && Window(slots, r / PGSIZE, npage)
      ensures r != 0 ==> NextFit(slots, guess, brk, r, npage)
      ensures r == 0 && !(brk == 0 && Window(slots, 0, npage)) ==>
                forall v :: brk / PGSIZE <= v && (v + npage) * PGSIZE <= MMAP_MAX ==> !Window(slots, v, npage)
    {
      hide PageAllocator.Pages.Valid, FileTable.Files.Valid, Radix, Represents, Owned, Records, Accounted, FilesCounted,
        WXBounded, Limits, SpaceOf, Window;
      SlotFacts(0);
      assert brk % PGSIZE == 0 && guess % PGSIZE == 0 by { BrkAligned(); }
      var end := MMAP_MAX - npage * PGSIZE;
      if guess != 0 {
        var ret := VmAllocAt(guess, end, npage);
        if ret != 0 {
          return ret;
        }
      }
      r := VmAllocAt(brk, end, npage);
    }

    // ---- mmap, munmap and brk ----

    // The admission check of __do_mmap lets the request through.
    ghost predicate Admitted(length: nat)
      reads this, pa
      requires length < WORD
    {
      PageCount(length) * 17 / 16 + 16 + promised < pa.NumFree()
    }

    // __do_mmap. A mapping is seen whole at once, the same whether its pages are
    // populated now or on demand.
    method Mmap(addr0: nat, length: nat, prot: bv32, flags: MapFlags, f: Option<nat>, offset: nat)
      returns (r: MmapResult)
      requires Valid() && pending == 0 && addr0 < WORD && length < WORD
      requires f.Some? ==> f.value < FileTable.MAX_FILES && ft.held[f.value] > 0
      modifies this`mem, this`tables, this`slots, this`use, this`vmrs, this`freelist, this`promised, this`placing
      modifies this`pending, this`born, this`guess
      modifies pa, pa.storage, ft`held, ft`mapped, ft`closed, ft.refcnt
      ensures r != Panic ==> Valid() && pending == 0 && ft.held == old(ft.held)
      ensures r == Failed ==> Space() == old(Space()) && slots == old(slots) && guess == old(guess) && born == old(born)
      ensures !old(Admitted(length)) ==> r == Failed
      ensures old(Admitted(length)) && flags.fixed ==>
                (r == Failed <==> !(addr0 % PGSIZE == 0 && 0 < length && addr0 + length <= MMAP_MAX))
      ensures old(Admitted(length)) && !flags.fixed && r == Failed &&
                !(brk == 0 && Window(old(slots), 0, PageCount(length))) ==>
                forall v :: brk / PGSIZE <= v && (v + PageCount(length)) * PGSIZE <= MMAP_MAX ==>
                  !Window(old(slots), v, PageCount(length))
      ensures r.Mapped? ==>
                r.addr % PGSIZE == 0 && 0 < length && r.addr + length <= MMAP_MAX &&
                guess == r.addr + PageCount(length) * PGSIZE
      ensures r.Mapped? ==>
                if flags.fixed then r.addr == addr0 else Window(old(slots), r.addr / PGSIZE, PageCount(length))
      ensures r.Mapped? && !flags.fixed ==> NextFit(old(slots), old(guess), brk, r.addr, PageCount(length))
      ensures r.Mapped? ==>
                Space() == MapIn(old(Space()), Vmr(r.addr, length, f, offset, PageCount(length), prot), ft.contents)
      ensures r.Mapped? ==> born == BornOver(old(born), r.addr / PGSIZE, PageEnd(r.addr + length), prot)
      ensures r.Mapped? ==> KeepsOutside(old(slots), old(vmrs), slots, vmrs, r.addr / PGSIZE, PageEnd(r.addr + length))
      ensures r.Mapped? ==> AllMappedWith(slots, vmrs, r.addr / PGSIZE, PageEnd(r.addr + length), prot)
      ensures r.Mapped? && (flags.populate || !demandPaging) ==>
                AllLeaf(slots, r.addr / PGSIZE, PageEnd(r.addr + length))
      ensures r.Mapped? ==> |pa.free| - promised + Charge(length) >= old(|pa.free| - promised)
      ensures r != Failed && (flags.populate || !demandPaging) && f.Some? ==>
                (r == Panic <==> offset + (PageCount(length) - 1) * PGSIZE >= |ft.contents[f.value]|)
      ensures r == Panic ==> (flags.populate || !demandPaging) && f.Some?
    {
      hide Kernel.Valid, Kernel.Space, Shrunk, Window, MapIn, PageCount, Needed, BornOver, PageEnd, KeepsOutside,
        AllMappedWith, AllLeaf, NextFit;
      var npage := PageCount(length);
      PagesCounted();
      if npage * 17 / 16 + 16 + promised >= pa.NumFree() {
        return Failed;
      }
      AdmittedFits(length);
      var ok, addr := ChooseAddress(addr0, length, flags.fixed);
      if !ok {
        return Failed;
      }
      NeededFits(addr / PGSIZE, npage);
      r := MmapAt(addr, length, prot, flags, f, offset);
    }

    // The address of a new mapping: the one asked for, if it is a page of the user half
    // and the range ends there, or the first room found.
    method ChooseAddress(addr0: nat, length: nat, fixed: bool) returns (ok: bool, addr: nat)
      requires Valid() && addr0 < WORD && 0 < length < WORD
      requires PageCount(length) == (length - 1) / PGSIZE + 1 && PageCount(length) * PGSIZE <= MMAP_MAX
      ensures ok ==> addr % PGSIZE == 0 && addr + length <= MMAP_MAX
      ensures fixed ==> (ok <==> addr0 % PGSIZE == 0 && addr0 + length <= MMAP_MAX) && (ok ==> addr == addr0)
      ensures !fixed && ok ==> Window(slots, addr / PGSIZE, PageCount(length))
      ensures !fixed && ok ==> NextFit(slots, guess, brk, addr, PageCount(length))
      ensures !fixed && !ok && !(brk == 0 && Window(slots, 0, PageCount(length))) ==>
                forall v :: brk / PGSIZE <= v && (v + PageCount(length)) * PGSIZE <= MMAP_MAX ==>
                  !Window(slots, v, PageCount(length))
    {
      hide PageAllocator.Pages.Valid, FileTable.Files.Valid, Radix, Represents, Owned, Records, Accounted, FilesCounted,
        WXBounded, Limits, SpaceOf, Window, NextFit;
      if fixed {
        ValidUserRangeExact(addr0, length);
        return addr0 % PGSIZE == 0 && ValidUserRange(addr0, length), addr0;
      }
      addr := VmAlloc(PageCount(length));
      ok := addr != 0;
    }

    // What the admission check is for.
    lemma AdmittedFits(length: nat)
      requires Valid() && length < WORD && Admitted(length)
      ensures length > 0 && PageCount(length) == (length - 1) / PGSIZE + 1
      ensures PageCount(length) * PGSIZE <= MMAP_MAX
      ensures forall vpn: nat :: promised + PageCount(length) + 1 + |Needed(vpn, PageCount(length))| <= |pa.free|
    {
      hide Needed, Kernel.Valid;
      PagesCounted();
      var n := PageCount(length);
      AdmittedCount(length, promised, pa.NumFree());
      forall vpn: nat ensures promised + n + 1 + |Needed(vpn, n)| <= |pa.free| {
        NeededFits(vpn, n);
      }
    }

    lemma AdmittedCount(length: nat, promised: nat, free: nat)
      requires length < WORD && PageCount(length) * 17 / 16 + 16 + promised < free <= USER_PAGES
      ensures length > 0 && PageCount(length) == (length - 1) / PGSIZE + 1
      ensures PageCount(length) * PGSIZE <= MMAP_MAX
    {
    }

    lemma PagesCounted()
      requires Valid()
      ensures pa.NumFree() == |pa.free| <= pa.total && Limits(pa.total, brk, brkMax, guess)
    {
      pa.NumFreeIsSize();
    }

    lemma ContentsSize()
      requires Valid()
      ensures |ft.contents| == FileTable.MAX_FILES
    {
    }

    // The pages just placed: their permissions, and which of them would panic.
    lemma FreshPages(space: Space, addr: nat, length: nat, v: RegionId, r: Vmr)
      requires addr % PGSIZE == 0 && 0 < length < WORD && addr + length <= MMAP_MAX && r.addr == addr
      requires r.length == length && Space() == MapIn(space, r, ft.contents)
      requires v in vmrs && SameRegion(r, vmrs[v])
      requires forall w :: addr / PGSIZE <= w < PageEnd(addr + length) ==> SlotAt(slots, w) == Lazy(v)
      requires r.file.Some? ==> r.file.value < |ft.contents|
      ensures forall w :: addr / PGSIZE <= w < PageEnd(addr + length) ==>
                w in Space() && Space()[w].flags == ProtToType(r.prot, true)
      ensures SomePanics(addr / PGSIZE, PageEnd(addr + length)) <==>
              (r.file.Some? && r.offset + (PageCount(length) - 1) * PGSIZE >= |ft.contents[r.file.value]|)
    {
      var lo, hi := addr / PGSIZE, PageEnd(addr + length);
      GuessFits(0, 0, 0, 0, addr, length);
      forall w | lo <= w < hi ensures Panics(w) <==> PastEof(r, ft.contents, w) {
        assert SlotAt(slots, w) == Lazy(v);
      }
      assert Panics(hi - 1) <==> PastEof(r, ft.contents, hi - 1);
    }

    // __do_mmap once the address is settled.
    method MmapAt(addr: nat, length: nat, prot: bv32, flags: MapFlags, f: Option<nat>, offset: nat)
      returns (r: MmapResult)
      requires Valid() && pending == 0 && addr % PGSIZE == 0 && length > 0 && addr + length <= MMAP_MAX && length < WORD
      requires f.Some? ==> f.value < FileTable.MAX_FILES && ft.held[f.value] > 0
      requires var n := PageCount(length);
               n == (length - 1) / PGSIZE + 1 && promised + n + 1 + |Needed(addr / PGSIZE, n)| <= |pa.free|
      modifies this`mem, this`tables, this`slots, this`use, this`vmrs, this`freelist, this`promised, this`placing
      modifies this`pending, this`born, this`guess
      modifies pa, pa.storage, ft`held, ft`mapped, ft`closed, ft.refcnt
      ensures r == Mapped(addr) || r == Panic
      ensures r.Mapped? ==>
                Valid() && pending == 0 && ft.held == old(ft.held) && guess == addr + PageCount(length) * PGSIZE
      ensures r.Mapped? ==>
                Space() == MapIn(old(Space()), Vmr(addr, length, f, offset, PageCount(length), prot), ft.contents)
      ensures r.Mapped? ==> born == BornOver(old(born), addr / PGSIZE, PageEnd(addr + length), prot)
      ensures r.Mapped? ==> KeepsOutside(old(slots), old(vmrs), slots, vmrs, addr / PGSIZE, PageEnd(addr + length))
      ensures r.Mapped? ==> AllMappedWith(slots, vmrs, addr / PGSIZE, PageEnd(addr + length), prot)
      ensures r.Mapped? && (flags.populate || !demandPaging) ==> AllLeaf(slots, addr / PGSIZE, PageEnd(addr + length))
      ensures r.Mapped? ==>
                var n := PageCount(length);
                |pa.free| - promised + n + 1 + |Needed(addr / PGSIZE, n)| >= old(|pa.free| - promised)
      ensures r == Panic <==> (flags.populate || !demandPaging) && f.Some? &&
                              offset + (PageCount(length) - 1) * PGSIZE >= |ft.contents[f.value]|
    {
      hide Kernel.Valid, Kernel.Space, Shrunk, MapIn, Needed, SomePanics, PageEnd, NatRange, PageCount, BornOver,
        KeepsOutside, AllMappedWith, AllLeaf;
      var npage := PageCount(length);
      ghost var v := CreateRegion(addr, length, prot, f, offset);
      ghost var slots1, vmrs1 := slots, vmrs;
      ghost var region := Vmr(addr, length, f, offset, npage, prot);
      if !demandPaging || flags.populate {
        ContentsSize();
        FreshPages(old(Space()), addr, length, v, region);
        var ok := PopulateRange(addr, length, prot);
        if !ok {
          return Panic;
        }
        PopulatedKeeps(old(slots), old(vmrs), slots1, vmrs1, slots, vmrs, addr / PGSIZE, PageEnd(addr + length), prot);
      }
      SetGuess(addr, length);
      return Mapped(addr);
    }

    // current.vm_alloc_guess = addr + npage * RISCV_PGSIZE
    method SetGuess(addr: nat, length: nat)
      requires Valid() && addr % PGSIZE == 0 && 0 < length < WORD && addr + length <= MMAP_MAX
      modifies this`guess
      ensures Valid() && Space() == old(Space()) && guess == addr + PageCount(length) * PGSIZE
    {
      hide PageAllocator.Pages.Valid, FileTable.Files.Valid, Radix, Represents, Owned, Records, Accounted, FilesCounted,
        WXBounded, Limits, SpaceOf, PageCount;
      GuessFits(pa.total, brk, brkMax, guess, addr, length);
      guess := addr + PageCount(length) * PGSIZE;
    }

    // The new region and its slots.
    method CreateRegion(addr: nat, length: nat, prot: bv32, f: Option<nat>, offset: nat) returns (ghost v: RegionId)
      requires Valid() && pending == 0 && addr % PGSIZE == 0 && length > 0 && addr + length <= MMAP_MAX && length < WORD
      requires f.Some? ==> f.value < FileTable.MAX_FILES && ft.held[f.value] > 0
      requires var n := PageCount(length);
               n == (length - 1) / PGSIZE + 1 && promised + n + 1 + |Needed(addr / PGSIZE, n)| <= |pa.free|
      modifies this`mem, this`tables, this`slots, this`use, this`vmrs, this`freelist, this`promised, this`placing
      modifies this`pending, this`born
      modifies pa, pa.storage, ft`held, ft`mapped, ft`closed, ft.refcnt
      ensures Valid() && pending == 0 && ft.held == old(ft.held)
      ensures Space() == MapIn(old(Space()), Vmr(addr, length, f, offset, PageCount(length), prot), ft.contents)
      ensures born == BornOver(old(born), addr / PGSIZE, PageEnd(addr + length), prot)
      ensures KeepsOutside(old(slots), old(vmrs), slots, vmrs, addr / PGSIZE, PageEnd(addr + length))
      ensures AllMappedWith(slots, vmrs, addr / PGSIZE, PageEnd(addr + length), prot)
      ensures var n := PageCount(length);
              |pa.free| - promised + n + 1 + |Needed(addr / PGSIZE, n)| >= old(|pa.free| - promised)
      ensures v in vmrs && SameRegion(Vmr(addr, length, f, offset, PageCount(length), prot), vmrs[v])
      ensures forall w :: addr / PGSIZE <= w < PageEnd(addr + length) ==> SlotAt(slots, w) == Lazy(v)
    {
      hide PageAllocator.Pages.Valid, FileTable.Files.Valid, Radix, Represents, Owned, Records, Accounted, FilesCounted,
        WXBounded, Limits, SpaceOf, MapIn, Needed, PageEnd, PageCount, BornOver, KeepsOutside, AllMappedWith, Covered;
      var npage := PageCount(length);
      SlotKinds();
      var id := VmrAlloc(addr, length, f, offset, npage, prot);
      v := id;
      ghost var vmrs1 := vmrs;
      KeepsNewRegion(slots, old(vmrs), id, vmrs[id]);
      PlaceRegion(addr, length, id, vmrs[id]);
      PlacedMapped(old(slots), old(vmrs), vmrs1, slots, vmrs, id, vmrs1[id], addr, length);
    }

    // do_munmap
    method DoMunmap(addr: nat, length: nat) returns (res: int)
      requires Valid() && pending == 0 && addr < WORD && length < WORD
      modifies this`mem, this`slots, this`use, this`vmrs, this`freelist, this`promised
      modifies pa, pa.storage, ft`held, ft`mapped, ft`closed, ft.refcnt
      ensures Valid() && ft.held == old(ft.held)
      ensures res == if addr % PGSIZE == 0 && 0 < length && addr + length <= MMAP_MAX then 0 else -EINVAL
      ensures Space() == if res == 0 then Without(old(Space()), addr / PGSIZE, PageEnd(addr + length)) else old(Space())
    {
      hide PageAllocator.Pages.Valid, FileTable.Files.Valid, Radix, Represents, Owned, Records, Accounted, FilesCounted,
        WXBounded, Limits, SpaceOf, Shrunk, Without, PageEnd;
      ValidUserRangeExact(addr, length);
      if addr % PGSIZE != 0 || !ValidUserRange(addr, length) {
        return -EINVAL;
      }
      Munmap(addr, length);
      return 0;
    }

    // do_mmap. The file it maps gains a reference only from the new region.
    method DoMmap(addr: nat, length: nat, prot: bv32, flags: MapFlags, fd: int, offset: nat) returns (c: MmapCall)
      requires Valid() && pending == 0 && addr < WORD && length < WORD
      modifies this`mem, this`tables, this`slots, this`use, this`vmrs, this`freelist, this`promised, this`placing
      modifies this`pending, this`born, this`guess
      modifies this`brkMax, pa, pa.storage, ft`held, ft`mapped, ft`closed, ft.refcnt
      ensures c != Returned(Panic) ==> Valid() && pending == 0 && ft.held == old(ft.held)
      ensures c.Rejected? || c.r == Failed ==> Space() == old(Space()) && brkMax == old(brkMax) && born == old(born)
      ensures c == Rejected(-EINVAL) <==> !flags.private_ || length == 0 || offset % PGSIZE != 0
      ensures c == Rejected(-EBADF) <==>
                flags.private_ && length != 0 && offset % PGSIZE == 0 && !flags.anonymous &&
                OpenFile(flags, ft.fds[..], fd) == None
      ensures c.Rejected? ==> c.errno in {-EINVAL, -EBADF}
      ensures c.Returned? && c.r.Mapped? ==> c.r.addr % PGSIZE == 0
      ensures c.Returned? && c.r.Mapped? ==>
                var f := OpenFile(flags, ft.fds[..], fd);
                Space() == MapIn(old(Space()), Vmr(c.r.addr, length, f, offset, PageCount(length), prot), ft.contents)
      ensures c.Returned? && c.r.Mapped? ==>
                born == BornOver(old(born), c.r.addr / PGSIZE, PageEnd(c.r.addr + length), prot)
      ensures c.Returned? && c.r.Mapped? && !flags.fixed ==> Window(old(slots), c.r.addr / PGSIZE, PageCount(length))
      ensures c.Returned? && c.r.Mapped? && !flags.fixed ==>
                NextFit(old(slots), old(guess), brk, c.r.addr, PageCount(length))
      ensures c.Returned? && c.r.Mapped? && flags.fixed ==> c.r.addr == addr
      ensures c.Returned? && !old(Admitted(length)) ==> c.r == Failed
      ensures c.Returned? && old(Admitted(length)) && flags.fixed ==>
                (c.r == Failed <==> !(addr % PGSIZE == 0 && addr + length <= MMAP_MAX))
      ensures c.Returned? && old(Admitted(length)) && !flags.fixed && c.r == Failed &&
                !(brk == 0 && Window(old(slots), 0, PageCount(length))) ==>
                forall v :: brk / PGSIZE <= v && (v + PageCount(length)) * PGSIZE <= MMAP_MAX ==>
                  !Window(old(slots), v, PageCount(length))
      ensures c == Returned(Panic) ==> (flags.populate || !demandPaging) && OpenFile(flags, ft.fds[..], fd).Some?
      ensures c.Returned? && c.r != Failed && (flags.populate || !demandPaging) &&
                OpenFile(flags, ft.fds[..], fd).Some? ==>
                var f := OpenFile(flags, ft.fds[..], fd).value;
                f < |ft.contents| && (c.r == Panic <==> offset + (PageCount(length) - 1) * PGSIZE >= |ft.contents[f]|)
      ensures c.Returned? && c.r.Mapped? ==> brkMax == if c.r.addr < old(brkMax) then c.r.addr else old(brkMax)
    {
      hide Kernel.Valid, Kernel.Space, Shrunk, Window, MapIn, PageCount, BornOver, PageEnd, NextFit;
      if !flags.private_ || length == 0 || offset % PGSIZE != 0 {
        return Rejected(-EINVAL);
      }
      var f := None;
      if !flags.anonymous {
        f := FdGet(fd);
        if f == None {
          return Rejected(-EBADF);
        }
      }
      var r := Mmap(addr, length, prot, flags, f, offset);
      if r == Panic {
        return Returned(Panic);
      }
      if r.Mapped? && r.addr < brkMax {
        LowerBrkMax(r.addr);
      }
      if f.Some? {
        DropReference(f.value);
        PlusMinus(old(ft.held), f.value);
      }
      c := Returned(r);
    }

    lemma DescriptorCount()
      requires ft.Valid()
      ensures ft.fds.Length == FileTable.MAX_FDS && |ft.held| == FileTable.MAX_FILES && ft.Shape()
    {
    }

    method LowerBrkMax(addr: nat)
      requires Valid() && addr < brkMax
      modifies this`brkMax
      ensures Valid() && brkMax == addr && Space() == old(Space())
    {
      hide PageAllocator.Pages.Valid, FileTable.Files.Valid, Radix, Represents, Owned, Records, Accounted, FilesCounted,
        WXBounded, Limits, SpaceOf, Shrunk;
      assert Limits(pa.total, brk, addr, guess) by { LowerLimits(pa.total, brk, brkMax, guess, addr); }
      brkMax := addr;
    }

    // file_decref of a reference the call holds.
    method DropReference(f: nat)
      requires Valid() && f < FileTable.MAX_FILES && ft.held[f] > 0
      modifies ft`held, ft`mapped, ft`closed, ft.refcnt
      ensures Valid() && Space() == old(Space()) && ft.held == FileTable.Minus(old(ft.held), f)
    {
      hide PageAllocator.Pages.Valid, Radix, Represents, Owned, Records, Accounted, FilesCounted, WXBounded, Limits,
        SpaceOf;
      ft.DecRef(f, false);
    }

    // __do_brk
    method Brk(addr: nat) returns (r: nat)
      requires Valid() && pending == 0 && addr < WORD
      modifies this`mem, this`tables, this`slots, this`use, this`vmrs, this`freelist, this`promised, this`placing
      modifies this`pending, this`born, this`guess
      modifies this`brk, pa, pa.storage, ft`held, ft`mapped, ft`closed, ft.refcnt
      ensures Valid() && pending == 0 && ft.held == old(ft.held)
      ensures (r == addr && brk == RoundUp(addr)) || (r == brk == old(brk) && Space() == old(Space()))
      ensures !(brkMin <= addr <= brkMax) ==> r == brk == old(brk) && Space() == old(Space())
      ensures brkMin <= addr <= brkMax && RoundUp(addr) <= old(brk) ==>
                r == addr && Space() == Without(old(Space()), RoundUp(addr) / PGSIZE, old(brk) / PGSIZE)
      ensures brkMin <= addr <= brkMax && RoundUp(addr) > old(brk) ==>
                (brk == RoundUp(addr) <==> old(Admitted(RoundUp(addr) - brk)))
      ensures old(brk) < brk ==>
                var n := brk - old(brk);
                Space() == MapIn(old(Space()), Vmr(old(brk), n, None, 0, PageCount(n), 0xFFFF_FFFF), ft.contents)
      ensures born == if old(brk) < brk
                then BornOver(old(born), old(brk) / PGSIZE, PageEnd(brk), 0xFFFF_FFFF) else old(born)
    {
      hide Kernel.Valid, Kernel.Space, Shrunk, Without, MapIn, PageEnd, BornOver;
      if addr < brkMin || addr > brkMax {
        return brk;
      }
      var newPage := RoundUp(addr);
      RoundUpFits(addr);
      WithoutNone(Space(), brk / PGSIZE);
      if brk > newPage {
        Munmap(newPage, brk - newPage);
      } else if brk < newPage {
        var m := Mmap(brk, newPage - brk, 0xFFFF_FFFF, MapFlags(true, true, true, false), None, 0);
        if m != Mapped(brk) {
          return brk;
        }
      }
      SetBrk(newPage);
      return addr;
    }

    lemma RoundUpFits(addr: nat)
      requires Valid() && addr <= brkMax
      ensures RoundUp(addr) <= MMAP_MAX && brk % PGSIZE == 0 && brk <= MMAP_MAX
      ensures RoundUp(addr) <= brk ==> PageEnd(brk) == brk / PGSIZE && RoundUp(addr) + (brk - RoundUp(addr)) == brk
    {
      hide PageAllocator.Pages.Valid, FileTable.Files.Valid, Radix, Represents, Owned, Records, Accounted, FilesCounted,
        WXBounded, SpaceOf;
    }

    method SetBrk(newBrk: nat)
      requires Valid() && newBrk % PGSIZE == 0 && newBrk <= MMAP_MAX
      modifies this`brk
      ensures Valid() && brk == newBrk && Space() == old(Space())
    {
      hide PageAllocator.Pages.Valid, FileTable.Files.Valid, Radix, Represents, Owned, Records, Accounted, FilesCounted,
        WXBounded, Limits, SpaceOf, Shrunk;
      assert Limits(pa.total, newBrk, brkMax, guess) by { BrkLimits(pa.total, brk, brkMax, guess, newBrk); }
      brk := newBrk;
    }

    // ---- mprotect ----

    // One round of do_mprotect.
    method ProtectPage(vpn: nat, prot: bv32) returns (res: int)
      requires Valid() && vpn < USER_PAGES
      modifies this`mem, this`slots, this`vmrs
      ensures Valid() && Narrowed(old(Space()), Space(), prot)
      ensures res == 0 <==> Protectable(old(slots), old(vmrs), vpn, prot)
      ensures res == -ENOMEM <==> vpn !in old(slots)
      ensures res in {0, -ENOMEM, -EACCES} && slots.Keys == old(slots).Keys
      ensures res == 0 ==> vpn in Space() && Space()[vpn].flags == ProtToType(prot, true)
      ensures FlagsExcept(old(slots), old(Space()), Space(), vpn) && SameLazy(old(slots), slots)
      ensures forall w :: Protectable(slots, vmrs, w, prot) <==> Protectable(old(slots), old(vmrs), w, prot)
    {
      hide PageAllocator.Pages.Valid, FileTable.Files.Valid, Radix, Represents, Owned, Records, Accounted, FilesCounted,
        WXBounded, Limits, SpaceOf, Narrowed, Narrows, Allows, ProtToType, Touches;
      NarrowedRefl(Space(), prot);
      SlotFacts(vpn);
      SeenFlags(vpn);
      var t := Walk(vpn);
      var e := Lookup(vpn);
      if e == Empty {
        return -ENOMEM;
      }
      if e.Lazy? {
        var v := e.region;
        if !Narrows(vmrs[v].prot, prot) {
          return -EACCES;
        }
        NarrowLazy(vpn, v, prot);
      } else {
        if !Allows(e.flags, prot) {
          return -EACCES;
        }
        NarrowPopulated(vpn, t, prot);
      }
      return 0;
    }

    // v->prot = prot: every page of the region not yet populated is narrowed with it.
    method NarrowLazy(vpn: nat, v: RegionId, prot: bv32)
      requires Valid() && SlotAt(slots, vpn) == Lazy(v) && v in vmrs && Narrows(vmrs[v].prot, prot)
      modifies this`vmrs
      ensures Valid() && Narrowed(old(Space()), Space(), prot)
      ensures vpn in Space() && Space()[vpn].flags == ProtToType(prot, true)
      ensures FlagsExcept(slots, old(Space()), Space(), vpn)
      ensures forall w :: Protectable(slots, vmrs, w, prot) <==> Protectable(slots, old(vmrs), w, prot)
    {
      hide PageAllocator.Pages.Valid, FileTable.Files.Valid, Radix, Represents, Owned, Records, Accounted, FilesCounted,
        WXBounded, Limits, SpaceOf, Narrowed, Narrows, Allows, ProtToType, FlagsExcept;
      ProtectAgain(prot);
      Reprotect(slots, vmrs, promised, placing, pending, v, prot);
      SameBacked(vmrs, ft.mapped, v, vmrs[v].(prot := prot));
      CoveredOf(slots, vmrs, promised, placing, pending);
      NarrowRegion(slots, mem, vmrs, ft.contents, v, prot);
      RegionFlags(slots, mem, vmrs, ft.contents, v, prot, vpn);
      assert vmrs[v := vmrs[v].(prot := prot)].Keys == vmrs.Keys;
      vmrs := vmrs[v := vmrs[v].(prot := prot)];
      NarrowedBound(old(Space()), Space(), prot, born);
      SeenLazy(vpn, v);
    }

    lemma SeenLazy(vpn: nat, v: RegionId)
      requires SlotAt(slots, vpn) == Lazy(v) && v in vmrs && Accounted(slots, vmrs, promised, placing, pending)
      ensures vpn in Space() && Space()[vpn].flags == ProtToType(vmrs[v].prot, true)
    {
    }

    method NarrowPopulated(vpn: nat, t: int, prot: bv32)
      requires Valid() && vpn < USER_PAGES && SlotAt(slots, vpn).Leaf? && Allows(slots[vpn].flags, prot)
      requires Key(0, vpn / FANOUT) in tables && t == tables[Key(0, vpn / FANOUT)]
      modifies this`mem, this`slots
      ensures Valid() && Narrowed(old(Space()), Space(), prot)
      ensures vpn in Space() && Space()[vpn].flags == ProtToType(prot, true)
      ensures FlagsExcept(old(slots), old(Space()), Space(), vpn) && SameLazy(old(slots), slots)
      ensures slots.Keys == old(slots).Keys
      ensures forall w :: Protectable(slots, vmrs, w, prot) <==> Protectable(old(slots), vmrs, w, prot)
    {
      hide PageAllocator.Pages.Valid, FileTable.Files.Valid, Radix, Represents, Owned, Records, Accounted, FilesCounted,
        WXBounded, Limits, SpaceOf, Narrowed, Narrows, Allows, ProtToType, FlagsExcept, SameLazy;
      ProtectAgain(prot);
      SlotFacts(vpn);
      var e := Lookup(vpn);
      ghost var mem1 := mem;
      StoreSlot(t, vpn, Leaf(e.page, ProtToType(prot, true)));
      OwnedFlags(use, old(mem), old(slots), pa.Managed(), pa.free, vpn, t, mem, ProtToType(prot, true));
      DropLeaf(old(slots), slots, vmrs, promised, placing, pending, vpn);
      CoveredOf(old(slots), vmrs, promised, placing, pending);
      NarrowLeaf(use, old(mem), old(slots), pa.Managed(), pa.free, vmrs, mem, ft.contents, vpn, t, prot);
      NarrowedBound(old(Space()), Space(), prot, born);
      LeafFlags(old(slots), mem1, mem, vmrs, ft.contents, vpn, Leaf(e.page, ProtToType(prot, true)));
      SeenFlags(vpn);
    }

    // do_mprotect, when its loop does not leave the user half: the range ends there, or
    // some user page of it refuses, or its end wrapped around and nothing is done. It
    // succeeds exactly when every page accepts the protection, and then every page has
    // it. Failing or not, no page gains write or execute and no byte changes; pages that
    // share no region with one inside the range keep their flags.
    method DoMprotect(addr: nat, length: nat, prot: bv32) returns (res: int)
      requires Valid() && pending == 0 && addr < WORD && length < WORD
      requires var end := WrappedEnd(addr, length);
               addr % PGSIZE != 0 || end <= addr || end <= MMAP_MAX || Refused(slots, vmrs, addr / PGSIZE, prot)
      modifies this`mem, this`slots, this`vmrs
      ensures Valid() && Narrowed(old(Space()), Space(), prot)
      ensures res == -EINVAL <==> addr % PGSIZE != 0
      ensures addr % PGSIZE == 0 ==> (res == 0 <==>
                forall w :: addr / PGSIZE <= w < PageEnd(WrappedEnd(addr, length)) ==>
                  Protectable(old(slots), old(vmrs), w, prot))
      ensures res == 0 ==> forall w :: addr / PGSIZE <= w < PageEnd(WrappedEnd(addr, length)) ==>
                w in Space() && Space()[w].flags == ProtToType(prot, true)
      ensures FlagsElsewhere(old(slots), old(Space()), Space(), addr / PGSIZE, PageEnd(WrappedEnd(addr, length)))
      ensures res in {0, -EINVAL, -ENOMEM, -EACCES}
      ensures res in {-ENOMEM, -EACCES} ==>
                var hi := PageEnd(WrappedEnd(addr, length));
                FirstRefusal(old(slots), old(vmrs), addr / PGSIZE, hi, prot, res == -EACCES)
    {
      hide Kernel.Valid, Kernel.Space, Narrowed, Protectable, ProtToType, FlagsElsewhere, FlagsExcept, SameLazy,
        Refused, PageEnd, WrappedEnd;
      NarrowedRefl(Space(), prot);
      var end := WrappedEnd(addr, length);
      ghost var lo, n := addr / PGSIZE, if addr < end then (end - addr - 1) / PGSIZE + 1 else 0;
      FlagsRefl(slots, Space(), lo, lo);
      FlagsRefl(slots, Space(), lo, PageEnd(end));
      if addr % PGSIZE != 0 {
        return -EINVAL;
      }
      res := 0;
      var a := addr;
      ghost var k := 0;
      ProtectedPages(addr, end, n);
      while a < end
        invariant a == addr + k * PGSIZE && k <= n
        invariant Valid() && Narrowed(old(Space()), Space(), prot)
        invariant forall w :: Protectable(slots, vmrs, w, prot) <==> Protectable(old(slots), old(vmrs), w, prot)
        invariant forall w :: lo <= w < lo + k ==> Protectable(old(slots), old(vmrs), w, prot)
        invariant forall w :: lo <= w < lo + k ==> w in Space() && Space()[w].flags == ProtToType(prot, true)
        invariant FlagsElsewhere(old(slots), old(Space()), Space(), lo, lo + k) && SameLazy(old(slots), slots)
        invariant FlagsElsewhere(old(slots), old(Space()), Space(), lo, PageEnd(end)) && slots.Keys == old(slots).Keys
        decreases end - a
      {
        PageAt(addr, k, end - addr, n);
        if end > MMAP_MAX {
          RefusedLater(old(slots), old(vmrs), lo, lo + k, prot);
        }
        ghost var space1, slots1 := Space(), slots;
        res := ProtectPage(a / PGSIZE, prot);
        FlagsNext(old(slots), slots1, old(Space()), space1, Space(), lo, lo + k);
        LazyTrans(old(slots), slots1, slots);
        FlagsWider(old(slots), old(Space()), Space(), lo, lo + k + 1, PageEnd(end));
        NarrowedTrans(old(Space()), space1, Space(), prot);
        if res != 0 {
          return;
        }
        NarrowedFlags(space1, Space(), prot);
        a := a + PGSIZE;
        k := k + 1;
      }
    }

    // ---- Stores by the program ----

    // A one-byte user store: the fault its page may take, then the write. It succeeds
    // exactly when the page is seen writable, and changes that byte alone.
    method StoreByte(vaddr: nat, b: bv8) returns (r: Fault)
      requires Valid() && pending == 0
      modifies this`mem, this`slots, this`use, this`vmrs, this`freelist, this`promised
      modifies pa, pa.storage, ft`held, ft`mapped, ft`closed, ft.refcnt
      ensures r == Panicked <==> vaddr < MMAP_MAX && old(Panics(vaddr / PGSIZE))
      ensures r != Panicked ==> Valid() && ft.held == old(ft.held)
      ensures r != Panicked ==> (r == Granted <==>
                vaddr / PGSIZE in old(Space()) && Permits(old(Space())[vaddr / PGSIZE].flags, PROT_WRITE))
      ensures r != Panicked ==> KeepsOutside(old(slots), old(vmrs), slots, vmrs, 0, 0)
      ensures r != Panicked ==> |pa.free| - promised == old(|pa.free| - promised)
      ensures r == Granted ==> vaddr / PGSIZE in born && born[vaddr / PGSIZE] & PROT_WRITE != 0
      ensures r == Granted ==> SlotAt(slots, vaddr / PGSIZE).Leaf?
      ensures r == Granted ==> |old(Space())[vaddr / PGSIZE].bytes| == PGSIZE
      ensures r == Granted ==> Space() == WithByte(old(Space()), vaddr, b)
      ensures r == Denied ==> Space() == old(Space())
    {
      hide PageAllocator.Pages.Valid, FileTable.Files.Valid, Radix, Represents, Owned, Records, Accounted, FilesCounted,
        WXBounded, Limits, SpaceOf, Shrunk, Permits, PanicsIn, WithByte, KeepsOutside, Covered;
      SlotKinds();
      r := HandlePageFault(vaddr, PROT_WRITE);
      if r != Panicked {
        SlotKinds();
        KeepsFaulted(old(slots), old(mem), old(vmrs), slots, mem, vmrs, ft.contents, vaddr / PGSIZE);
      }
      if r == Granted {
        SeenFlags(vaddr / PGSIZE);
        SlotsInRange(vaddr / PGSIZE);
        WriteByte(vaddr, b);
      }
    }

    method WriteByte(vaddr: nat, b: bv8)
      requires Valid() && vaddr < MMAP_MAX && SlotAt(slots, vaddr / PGSIZE).Leaf?
      modifies this`mem
      ensures Valid()
      ensures vaddr / PGSIZE in old(Space()) && |old(Space())[vaddr / PGSIZE].bytes| == PGSIZE
      ensures Space() == WithByte(old(Space()), vaddr, b)
    {
      hide PageAllocator.Pages.Valid, FileTable.Files.Valid, Radix, Represents, Owned, Records, Accounted, FilesCounted,
        WXBounded, Limits, SpaceOf, WithByte;
      SlotFacts(vaddr / PGSIZE);
      var e := Lookup(vaddr / PGSIZE);
      var bytes := mem[e.page].bytes[vaddr % PGSIZE := b];
      OwnedStore(use, mem, slots, pa.Managed(), pa.free, e.page, bytes);
      WriteElsewhere(mem, root, tables, use, slots, e.page, Data(bytes));
      mem := mem[e.page := Data(bytes)];
      ByteStored(use, old(mem), slots, pa.Managed(), pa.free, vmrs, ft.contents, vaddr, b, born);
    }

    // ---- What every reachable state guarantees ----

    // The managed pages are divided between the free ones, the page tables, the data
    // pages of populated slots (no two slots share one), the pages of region records and
    // the kernel's own.
    lemma PagesDivided(p: int)
      requires Valid() && p in pa.Managed()
      ensures p in pa.free <==> p !in use
      ensures (exists k :: k in tables && tables[k] == p) <==> p in use && use[p].AsTable?
      ensures (exists vpn :: vpn in slots && slots[vpn].Leaf? && slots[vpn].page == p) <==> p in use && use[p].AsData?
      ensures (exists v :: (v in vmrs || v in freelist) && v.page == p) <==> p in use && use[p].AsRegions?
    {
      hide PageAllocator.Pages.Valid, FileTable.Files.Valid, Represents, Accounted, FilesCounted, WXBounded, Limits,
        SpaceOf;
      assert p in use && use[p].AsRegions? ==> RegionId(p, 0) in vmrs || RegionId(p, 0) in freelist;
    }

    lemma DataPagesDistinct(v: nat, w: nat)
      requires Valid() && v in slots && w in slots && v != w && slots[v].Leaf? && slots[w].Leaf?
      ensures slots[v].page != slots[w].page
    {
      hide PageAllocator.Pages.Valid, FileTable.Files.Valid, Radix, Represents, Records, Accounted, FilesCounted,
        WXBounded, Limits, SpaceOf;
    }

    // A live region is counted once for each slot that holds it; a record is on the
    // freelist exactly when no slot holds it; the promise is the number of lazy slots;
    // and the free pages cover it.
    lemma RegionsCounted(v: RegionId)
      requires Valid() && pending == 0
      ensures v in vmrs ==> vmrs[v].refcnt == |Holders(slots, v)| > 0
      ensures v in vmrs <==> Holders(slots, v) != {}
      ensures forall vpn :: vpn in Holders(slots, v) ==> v in vmrs && Covers(vmrs[v], vpn)
      ensures v.page in use && use[v.page].AsRegions? && v.index < RECORDS ==>
                (v in freelist <==> Holders(slots, v) == {})
      ensures promised == |LazyPages(slots)| <= |pa.free|
    {
      hide PageAllocator.Pages.Valid, FileTable.Files.Valid, Radix, Represents, Owned, FilesCounted, WXBounded, Limits,
        SpaceOf;
      if v in vmrs {
        assert Holders(slots, v) != {};
      }
    }

    // ---- File operations next to live mappings ----

    // A live region's file is referenced, so it is neither closed nor handed out again.
    lemma BackedReferenced(v: RegionId)
      requires ft.Valid() && FilesCounted(vmrs, ft.mapped) && v in vmrs && vmrs[v].file.Some?
      ensures vmrs[v].file.value < FileTable.MAX_FILES && ft.Refs(vmrs[v].file.value) > 0
    {
      assert v in Backed(vmrs, vmrs[v].file.value);
    }

    // Descriptor fd is the only reference to its file exactly when no other descriptor,
    // no running call and no lazy region refers to it.
    lemma OnlyReference(fd: nat)
      requires ft.Valid() && FilesCounted(vmrs, ft.mapped) && fd < FileTable.MAX_FDS && ft.fds[fd].Some?
      ensures var f := ft.fds[fd].value;
              f < FileTable.MAX_FILES &&
              (ft.Refs(f) == 1 <==> Some(f) !in ft.fds[..][fd := None] && ft.held[f] == 0 && Backed(vmrs, f) == {})
    {
      FileTable.WithoutDescriptor(ft.fds[..], fd);
    }

    // fd_close. No process sees a change, and the host descriptor is closed exactly when
    // nothing else refers to the file: while lazy pages of it remain it stays open.
    method FdClose(fd: int) returns (r: int)
      requires Valid()
      modifies ft`held, ft`mapped, ft`closed, ft.fds, ft.refcnt
      ensures Valid() && Space() == old(Space()) && ft.held == old(ft.held)
      ensures ft.fds.Length == FileTable.MAX_FDS && |ft.held| == ft.kfd.Length == FileTable.MAX_FILES
      ensures r == if 0 <= fd < FileTable.MAX_FDS && old(ft.fds[fd]).Some? then 0 else -1
      ensures ft.fds[..] == if r == 0 then old(ft.fds[..])[fd := None] else old(ft.fds[..])
      ensures r == -1 ==> ft.closed == old(ft.closed)
      ensures r == 0 ==>
                var f := old(ft.fds[fd]).value;
                && f < FileTable.MAX_FILES
                && ft.closed == old(ft.closed) +
                     (if Some(f) !in ft.fds[..] && ft.held[f] == 0 && Backed(vmrs, f) == {} then [ft.kfd[f]] else [])
    {
      hide PageAllocator.Pages.Valid, FileTable.Files.Valid, Radix, Represents, Owned, Records, Accounted, FilesCounted,
        WXBounded, Limits, SpaceOf;
      DescriptorCount();
      if 0 <= fd < FileTable.MAX_FDS && ft.fds[fd].Some? {
        OnlyReference(fd);
      }
      r := ft.Close(fd);
      assert pa.Valid();
      DescriptorCount();
    }

    // file_openat. The object it hands out backs no lazy page, so no process sees a change.
    method FileOpenAt(reply: FileTable.HostReply) returns (r: FileTable.OpenResult)
      requires Valid()
      modifies ft`held, ft`mapped, ft`contents, ft`closed, ft.refcnt, ft.kfd
      ensures Valid() && Space() == old(Space())
      ensures |ft.held| == ft.kfd.Length == |ft.contents| == FileTable.MAX_FILES
      ensures r.File? ==> reply.Opened? && r.f < FileTable.MAX_FILES && Backed(vmrs, r.f) == {}
      ensures r.File? ==>
                ft.held == FileTable.Plus(old(ft.held), r.f) && ft.kfd[r.f] == reply.kfd &&
                ft.contents[r.f] == reply.bytes
      ensures r.Error? ==> ft.held == old(ft.held) && ft.contents == old(ft.contents)
      ensures old(ft.Shape() && ft.AllReferenced()) ==> r == FileTable.Error(-FileTable.ENOMEM)
      ensures !old(ft.Shape() && ft.AllReferenced()) ==>
                (r.File? <==> reply.Opened?) && (reply.Refused? ==> r == FileTable.Error(reply.error))
      ensures forall v :: v in vmrs && vmrs[v].file.Some? ==>
                vmrs[v].file.value < FileTable.MAX_FILES &&
                ft.kfd[vmrs[v].file.value] == old(ft.kfd[vmrs[v].file.value])
    {
      hide PageAllocator.Pages.Valid, FileTable.Files.Valid, Radix, Represents, Owned, Records, Accounted, FilesCounted,
        WXBounded, Limits, SpaceOf;
      DescriptorCount();
      forall v | v in vmrs && vmrs[v].file.Some?
        ensures vmrs[v].file.value < FileTable.MAX_FILES && ft.Refs(vmrs[v].file.value) > 0
      {
        BackedReferenced(v);
      }
      r := ft.OpenAt(reply);
      assert pa.Valid();
      DescriptorCount();
      SameContents(slots, mem, vmrs, promised, placing, pending, old(ft.contents), ft.contents);
    }

    // file_get next to live mappings.
    method FdGet(fd: int) returns (f: Option<nat>)
      requires Valid()
      modifies ft`held, ft.refcnt
      ensures Valid() && Space() == old(Space())
      ensures ft.fds.Length == FileTable.MAX_FDS && |ft.contents| == FileTable.MAX_FILES
      ensures f == if 0 <= fd < FileTable.MAX_FDS then ft.fds[fd] else None
      ensures f.Some? ==> f.value < |old(ft.held)| == |ft.held| == FileTable.MAX_FILES && ft.held[f.value] > 0
      ensures ft.held == if f.Some? then FileTable.Plus(old(ft.held), f.value) else old(ft.held)
    {
      hide PageAllocator.Pages.Valid, FileTable.Files.Valid, Radix, Represents, Owned, Records, Accounted, FilesCounted,
        WXBounded, Limits, SpaceOf;
      DescriptorCount();
      f := ft.Get(fd);
      assert pa.Valid();
      DescriptorCount();
    }

    // file_dup and file_dup3 next to live mappings.
    method FileDup(f: nat) returns (fd: int)
      requires Valid() && f < FileTable.MAX_FILES && ft.Refs(f) > 0
      modifies ft.fds, ft.refcnt
      ensures Valid() && Space() == old(Space())
      ensures ft.fds.Length == FileTable.MAX_FDS
      ensures fd == -1 ==> ft.fds[..] == old(ft.fds[..])
      ensures fd == -1 ==> forall i :: 0 <= i < FileTable.MAX_FDS ==> old(ft.fds[i]).Some?
      ensures fd != -1 ==>
                0 <= fd < FileTable.MAX_FDS && old(ft.fds[fd]).None? && ft.fds[..] == old(ft.fds[..])[fd := Some(f)]
      ensures fd != -1 ==> forall i :: 0 <= i < fd ==> old(ft.fds[i]).Some?
    {
      hide PageAllocator.Pages.Valid, FileTable.Files.Valid, Radix, Represents, Owned, Records, Accounted, FilesCounted,
        WXBounded, Limits, SpaceOf;
      DescriptorCount();
      fd := ft.Dup(f);
      assert pa.Valid();
    }

    method FileDup3(f: nat, newfd: int) returns (fd: int)
      requires Valid() && f < FileTable.MAX_FILES && ft.Refs(f) > 0
      modifies ft.fds, ft.refcnt
      ensures Valid() && Space() == old(Space())
      ensures ft.fds.Length == FileTable.MAX_FDS
      ensures fd == if 0 <= newfd < FileTable.MAX_FDS && old(ft.fds[newfd]).None? then newfd else -1
      ensures ft.fds[..] == if fd == -1 then old(ft.fds[..]) else old(ft.fds[..])[fd := Some(f)]
    {
      hide PageAllocator.Pages.Valid, FileTable.Files.Valid, Radix, Represents, Owned, Records, Accounted, FilesCounted,
        WXBounded, Limits, SpaceOf;
      DescriptorCount();
      fd := ft.Dup3(f, newfd);
      assert pa.Valid();
    }

    // Over any run: `born` changes only where a page is mapped, to that mapping's
    // protection, and write and execute permission stay within it.
    lemma WXWithinBorn(vpn: nat)
      requires Valid() && vpn in Space()
      ensures vpn in born && NoMoreWX(Space()[vpn].flags, ProtToType(born[vpn], true))
      ensures Space()[vpn].flags & PTE_W != 0 ==> born[vpn] & PROT_WRITE != 0
      ensures Space()[vpn].flags & PTE_X != 0 ==> born[vpn] & PROT_EXEC != 0
    {
      hide PageAllocator.Pages.Valid, FileTable.Files.Valid, Radix, Represents, Owned, Records, Accounted, FilesCounted,
        Limits, SpaceOf, NoMoreWX, ProtToType;
      assert NoMoreWX(Space()[vpn].flags, ProtToType(born[vpn], true));
      NoMoreIs(Space()[vpn].flags, ProtToType(born[vpn], true));
      TypeBits(born[vpn], true);
    }

    // The promise is the live regions' reference counts summed.
    lemma PromiseIsSum()
      requires Valid() && pending == 0
      ensures promised == TotalRefs(vmrs.Keys, vmrs)
    {
      hide PageAllocator.Pages.Valid, FileTable.Files.Valid, Radix, Represents, Owned, Records, FilesCounted, WXBounded,
        Limits, SpaceOf;
      TotalIsLazy(vmrs.Keys, slots, vmrs);
      assert LazyIn(slots, vmrs.Keys) == LazyPages(slots);
    }

    // A file object's count is one more than its descriptors, the references of running
    // calls and the live lazy regions that name it, or zero if there are none.
    lemma FileReferences(f: nat)
      requires Valid() && f < FileTable.MAX_FILES
      ensures ft.Shape() &&
                ft.refcnt[f] == FileTable.Biased(multiset(ft.fds[..])[Some(f)] + ft.held[f] + |Backed(vmrs, f)|)
    {
      hide PageAllocator.Pages.Valid, Radix, Represents, Owned, Records, Accounted, WXBounded, Limits, SpaceOf;
    }
  }

  // The allocations of pk_vm_init, in order.
  method Boot(mem0: Memory, pages: PageAllocator.Pages, storagePages: nat, kernelTables: nat)
    returns (mem: Memory, root: int, ghost use: map<int, Use>)
    requires pages.Valid() && pages.free == pages.Managed() && pages.next == 0
    requires kernelTables <= 256 && storagePages + kernelTables + 2 <= pages.total
    modifies pages, pages.storage
    ensures pages.Valid() && Handed(use, pages.Managed(), pages.free)
    ensures |pages.free| == pages.total - storagePages - kernelTables - 2
    ensures root in use && use[root] == AsTable(Key(2, 0)) && HoldsWords(mem, root)
    ensures forall p :: p in use ==> p == root || use[p] == Reserved
    ensures forall i :: 0 <= i < 256 ==> WordsOf(mem, root)[i] == Empty
    ensures forall i :: 256 <= i < 256 + kernelTables ==> LinksReserved(use, root, WordsOf(mem, root)[i])
  {
    hide PageAllocator.Pages.Valid, Handed, LinksReserved, WordsOf, HoldsWords, PageAllocator.Pages.Managed;
    use := BootStorage(pages, storagePages);
    root := TakeFor(pages, use, AsTable(Key(2, 0)));
    EmptyTable(mem0, root);
    use := use[root := AsTable(Key(2, 0))];
    mem := mem0[root := Words(NoWords())];
    var i := 0;
    while i < kernelTables
      invariant 0 <= i <= kernelTables
      invariant pages.Valid() && Handed(use, pages.Managed(), pages.free)
      invariant |pages.free| == pages.total - storagePages - i - 1
      invariant root in use && use[root] == AsTable(Key(2, 0)) && HoldsWords(mem, root)
      invariant forall p :: p in use ==> p == root || use[p] == Reserved
      invariant forall j :: 0 <= j < 256 ==> WordsOf(mem, root)[j] == Empty
      invariant forall j :: 256 <= j < 256 + i ==> LinksReserved(use, root, WordsOf(mem, root)[j])
    {
      var table := TakeFor(pages, use, Reserved);
      SetWord(mem, root, 256 + i, Table(table));
      mem := WithWord(mem, root, 256 + i, Table(table));
      StillReserved(use, root, table);
      use := use[table := Reserved];
      i := i + 1;
    }
    var stack := TakeFor(pages, use, Reserved);
    StillReserved(use, root, stack);
    use := use[stack := Reserved];
  }

  // A word of the root that leads to a table of the kernel's own.
  ghost predicate LinksReserved(use: map<int, Use>, root: int, e: Entry) {
    e.Table? && e.page != root && e.page in use && use[e.page] == Reserved
  }

  lemma StillReserved(use: map<int, Use>, root: int, p: int)
    requires p !in use && root in use
    ensures forall e :: LinksReserved(use, root, e) ==> LinksReserved(use[p := Reserved], root, e)
    ensures LinksReserved(use[p := Reserved], root, Table(p))
  {
  }

  lemma EmptyTable(mem: Memory, p: int)
    ensures HoldsWords(mem[p := Words(NoWords())], p)
    ensures WordsOf(mem[p := Words(NoWords())], p) == NoWords()
  {
  }

  lemma SetWord(mem: Memory, p: int, i: nat, e: Entry)
    requires HoldsWords(mem, p) && i < FANOUT
    ensures HoldsWords(WithWord(mem, p, i, e), p)
    ensures forall j :: 0 <= j < FANOUT && j != i ==> WordsOf(WithWord(mem, p, i, e), p)[j] == WordsOf(mem, p)[j]
    ensures WordsOf(WithWord(mem, p, i, e), p)[i] == e
  {
  }

  function Reserve(pages: set<int>): map<int, Use> {
    map p | p in pages :: Reserved
  }

  lemma StorageUse(lo: int, mid: int, hi: int)
    requires lo <= mid <= hi
    ensures Handed(Reserve(Range(lo, mid)), Range(lo, hi), Range(lo, hi) - Range(lo, mid))
    ensures |Range(lo, hi) - Range(lo, mid)| == hi - mid
  {
    assert Range(lo, hi) - Range(lo, mid) == Range(mid, hi);
    RangeSize(mid, hi);
  }

  // page_freelist_storage's own pages.
  method BootStorage(pages: PageAllocator.Pages, n: nat) returns (ghost use: map<int, Use>)
    requires pages.Valid() && pages.free == pages.Managed() && pages.next == 0 && n <= pages.total
    modifies pages, pages.storage
    ensures pages.Valid() && Handed(use, pages.Managed(), pages.free) && |pages.free| == pages.total - n
    ensures forall p :: p in use ==> use[p] == Reserved
  {
    hide PageAllocator.Pages.Valid;
    ghost var lo, hi := pages.first, pages.first + pages.total;
    var storage := pages.EarlyAlloc(n);
    use := Reserve(Range(lo, lo + n));
    StorageUse(lo, lo + n, hi);
  }

  // __page_alloc_assert while booting; u is what the page is for.
  method TakeFor(pages: PageAllocator.Pages, ghost use: map<int, Use>, ghost u: Use) returns (p: int)
    requires pages.Valid() && Handed(use, pages.Managed(), pages.free) && |pages.free| > 0
    modifies pages, pages.storage
    ensures pages.Valid() && p !in use && Handed(use[p := u], pages.Managed(), pages.free)
    ensures |pages.free| == old(|pages.free|) - 1
  {
    hide PageAllocator.Pages.Valid, Handed;
    p := pages.Take();
    HandOut(use, pages.Managed(), old(pages.free), p, u);
  }

  // `space` with one byte stored.
  ghost function WithByte(space: Space, vaddr: nat, b: bv8): Space
    requires vaddr / PGSIZE in space && |space[vaddr / PGSIZE].bytes| == PGSIZE
  {
    var page := space[vaddr / PGSIZE];
    space[vaddr / PGSIZE := page.(bytes := page.bytes[vaddr % PGSIZE := b])]
  }

  lemma ByteStored(use: map<int, Use>, mem: Memory, slots: map<nat, Entry>, managed: set<int>, free: set<int>,
                   vmrs: map<RegionId, Vmr>, contents: seq<seq<bv8>>, vaddr: nat, b: bv8, born: map<nat, bv32>)
    requires Owned(use, mem, slots, managed, free) && SlotAt(slots, vaddr / PGSIZE).Leaf?
    requires WXBounded(SpaceOf(slots, mem, vmrs, contents), born)
    ensures var space, p := SpaceOf(slots, mem, vmrs, contents), slots[vaddr / PGSIZE].page;
            HoldsData(mem, p) && vaddr / PGSIZE in space && |space[vaddr / PGSIZE].bytes| == PGSIZE &&
            SpaceOf(slots, mem[p := Data(mem[p].bytes[vaddr % PGSIZE := b])], vmrs, contents) ==
              WithByte(space, vaddr, b) &&
            WXBounded(WithByte(space, vaddr, b), born)
  {
    var vpn := vaddr / PGSIZE;
    var space, p := SpaceOf(slots, mem, vmrs, contents), slots[vpn].page;
    var mem' := mem[p := Data(mem[p].bytes[vaddr % PGSIZE := b])];
    forall w | w in slots && w != vpn
      ensures SlotView(slots[w], w, mem', vmrs, contents) == SlotView(slots[w], w, mem, vmrs, contents) { }
  }

  lemma NarrowedFlags(a: Space, b: Space, prot: bv32)
    requires Narrowed(a, b, prot)
    ensures forall w :: w in a && a[w].flags == ProtToType(prot, true) ==>
              w in b && b[w].flags == ProtToType(prot, true)
  {
  }

  // The file do_mmap maps: none if anonymous, else the one behind the descriptor.
  function OpenFile(flags: MapFlags, fds: seq<Option<nat>>, fd: int): Option<nat> {
    if !flags.anonymous && 0 <= fd < |fds| then fds[fd] else None
  }

  lemma PlusMinus(held: seq<nat>, f: nat)
    requires f < |held|
    ensures FileTable.Minus(FileTable.Plus(held, f), f) == held
  {
  }

  lemma WithoutNone(space: Space, lo: nat)
    ensures Without(space, lo, lo) == space
  {
  }

  function RoundUp(a: nat): (r: nat)
    ensures r % PGSIZE == 0 && a <= r < a + PGSIZE
  {
    (a + PGSIZE - 1) / PGSIZE * PGSIZE
  }

  lemma LowerLimits(total: nat, brk: nat, brkMax: nat, guess: nat, addr: nat)
    requires Limits(total, brk, brkMax, guess) && addr < brkMax
    ensures Limits(total, brk, addr, guess)
  {
  }

  lemma BrkLimits(total: nat, brk: nat, brkMax: nat, guess: nat, newBrk: nat)
    requires Limits(total, brk, brkMax, guess) && newBrk % PGSIZE == 0 && newBrk <= MMAP_MAX
    ensures Limits(total, newBrk, brkMax, guess)
  {
  }

  // `space` with region r mapped over whatever was there.
  ghost predicate AllMappedWith(slots: map<nat, Entry>, vmrs: map<RegionId, Vmr>, lo: nat, hi: nat, prot: bv32) {
    forall w: nat :: lo <= w < hi ==> MappedWith(slots, vmrs, w, lo, hi, prot)
  }

  ghost predicate AllLeaf(slots: map<nat, Entry>, lo: nat, hi: nat) {
    forall w: nat :: lo <= w < hi ==> SlotAt(slots, w).Leaf?
  }

  lemma LeafNone(slots: map<nat, Entry>, lo: nat)
    ensures AllLeaf(slots, lo, lo)
  {
  }

  lemma LeafNext(slots0: map<nat, Entry>, slots: map<nat, Entry>, lo: nat, vpn: nat)
    requires AllLeaf(slots0, lo, vpn) && SameElsewhere(slots0, slots, vpn) && SlotAt(slots, vpn).Leaf?
    ensures AllLeaf(slots, lo, vpn + 1)
  {
    forall w: nat | lo <= w < vpn + 1
      ensures SlotAt(slots, w).Leaf?
    {
      assert w != vpn ==> SlotAt(slots0, w).Leaf? && w in slots0;
    }
  }

  lemma LeafFewer(slots: map<nat, Entry>, lo: nat, hi: nat, hi': nat)
    requires AllLeaf(slots, lo, hi) && hi' <= hi
    ensures AllLeaf(slots, lo, hi')
  {
  }

  // The pages an admitted mapping may take or promise.
  function Charge(length: nat): nat
    requires length < WORD
  {
    PageCount(length) * 17 / 16 + 16
  }

  // A region newly placed, and what the old regions look like after.
  lemma PlacedMapped(slots0: map<nat, Entry>, vmrs0: map<RegionId, Vmr>, vmrs1: map<RegionId, Vmr>,
                     slots: map<nat, Entry>, vmrs: map<RegionId, Vmr>, v: RegionId, r: Vmr, addr: nat, length: nat)
    requires KeepsOutside(slots0, vmrs0, slots0, vmrs1, 0, 0) && addr % PGSIZE == 0
    requires KeepsOutside(slots0, vmrs1, slots, vmrs, addr / PGSIZE, PageEnd(addr + length))
    requires v in vmrs && SameRegion(r, vmrs[v]) && r.addr == addr && r.length == length
    requires forall w :: addr / PGSIZE <= w < PageEnd(addr + length) ==> SlotAt(slots, w) == Lazy(v)
    ensures KeepsOutside(slots0, vmrs0, slots, vmrs, addr / PGSIZE, PageEnd(addr + length))
    ensures AllMappedWith(slots, vmrs, addr / PGSIZE, PageEnd(addr + length), r.prot)
  {
    hide KeepsOutside;
    var lo, hi := addr / PGSIZE, PageEnd(addr + length);
    KeepsWider(slots0, vmrs0, slots0, vmrs1, 0, 0, lo, hi);
    KeepsTrans(slots0, vmrs0, slots0, vmrs1, slots, vmrs, lo, hi);
    assert addr + length <= hi * PGSIZE;
  }

  // Faults keep what a mapping established.
  lemma PopulatedKeeps(slots0: map<nat, Entry>, vmrs0: map<RegionId, Vmr>, slots1: map<nat, Entry>,
                       vmrs1: map<RegionId, Vmr>, slots: map<nat, Entry>, vmrs: map<RegionId, Vmr>, lo: nat, hi: nat,
                       prot: bv32)
    requires KeepsOutside(slots0, vmrs0, slots1, vmrs1, lo, hi) && KeepsOutside(slots1, vmrs1, slots, vmrs, 0, 0)
    requires AllMappedWith(slots1, vmrs1, lo, hi, prot)
    ensures KeepsOutside(slots0, vmrs0, slots, vmrs, lo, hi)
    ensures AllMappedWith(slots, vmrs, lo, hi, prot)
  {
    hide MappedWith, KeepsPage;
    KeepsWider(slots1, vmrs1, slots, vmrs, 0, 0, lo, hi);
    KeepsTrans(slots0, vmrs0, slots1, vmrs1, slots, vmrs, lo, hi);
    forall w | lo <= w < hi
      ensures MappedWith(slots, vmrs, w, lo, hi, prot)
    {
      assert KeepsPage(slots1, vmrs1, slots, vmrs, w);
      KeepsMapped(slots1, vmrs1, slots, vmrs, w, lo, hi, prot);
    }
  }

  ghost function MapIn(space: Space, r: Vmr, contents: seq<seq<bv8>>): Space
    requires r.addr % PGSIZE == 0
  {
    Overlay(space, r.addr / PGSIZE, PageEnd(r.addr + r.length), r, contents)
  }

  // The lowest window of n pages from an address on, and that there is none.
  ghost predicate FirstFit(slots: map<nat, Entry>, start: nat, r: nat, n: nat) {
    && start <= r && r % PGSIZE == 0 && Window(slots, r / PGSIZE, n)
    && forall v :: start / PGSIZE <= v < r / PGSIZE ==> !Window(slots, v, n)
  }

  ghost predicate NoFit(slots: map<nat, Entry>, start: nat, n: nat) {
    forall v :: start / PGSIZE <= v && (v + n) * PGSIZE <= MMAP_MAX ==> !Window(slots, v, n)
  }

  // The window found: from the hint, or if there is no hint or no window from there, from
  // the break.
  ghost predicate NextFit(slots: map<nat, Entry>, guess: nat, brk: nat, r: nat, n: nat) {
    || (guess != 0 && FirstFit(slots, guess, r, n))
    || ((guess == 0 || NoFit(slots, guess, n)) && FirstFit(slots, brk, r, n))
  }

  // Pages v .. v + n - 1 are unmapped.
  ghost predicate Window(slots: map<nat, Entry>, v: nat, n: nat) {
    forall w :: v <= w < v + n ==> w !in slots
  }

  lemma SameRegionRefl(r: Vmr)
    ensures SameRegion(r, r)
  {
  }

  lemma RangeEnd(addr: nat, length: nat, n: nat)
    requires addr % PGSIZE == 0 && length > 0 && n == (length - 1) / PGSIZE + 1
    ensures PageEnd(addr + length) == addr / PGSIZE + n
    ensures addr + (n - 1) * PGSIZE < addr + length <= addr + n * PGSIZE
  {
  }

  // addr + length on 64-bit words.
  function WrappedEnd(addr: nat, length: nat): nat { (addr + length) % WORD }

  // The pages do_mprotect's loop passes.
  lemma ProtectedPages(addr: nat, end: nat, n: nat)
    requires addr % PGSIZE == 0 && n == if addr < end then (end - addr - 1) / PGSIZE + 1 else 0
    ensures addr < end ==> PageEnd(end) == addr / PGSIZE + n && addr + (n - 1) * PGSIZE < end
    ensures end <= addr ==> PageEnd(end) <= addr / PGSIZE
    ensures end <= addr + n * PGSIZE
  {
    if addr < end {
      RangeEnd(addr, end - addr, n);
    }
  }

  // Page k of a range.
  lemma PageAt(addr: nat, k: nat, length: nat, n: nat)
    requires addr % PGSIZE == 0 && length > 0 && n == (length - 1) / PGSIZE + 1 && addr + k * PGSIZE < addr + length
    ensures (addr + k * PGSIZE) / PGSIZE == addr / PGSIZE + k && k < n
    ensures (addr / PGSIZE + k) * PGSIZE == addr + k * PGSIZE
  {
  }

  lemma GuessFits(total: nat, brk: nat, brkMax: nat, guess: nat, addr: nat, length: nat)
    requires Limits(total, brk, brkMax, guess)
    requires addr % PGSIZE == 0 && 0 < length < WORD && addr + length <= MMAP_MAX
    ensures Limits(total, brk, brkMax, addr + PageCount(length) * PGSIZE)
    ensures addr / PGSIZE + PageCount(length) == PageEnd(addr + length)
  {
  }

  ghost predicate PanicsIn(slots: map<nat, Entry>, vmrs: map<RegionId, Vmr>, contents: seq<seq<bv8>>, vpn: nat) {
    SlotAt(slots, vpn).Lazy? && slots[vpn].region in vmrs && PastEof(vmrs[slots[vpn].region], contents, vpn)
  }

  lemma PanicsKept(slots0: map<nat, Entry>, vmrs0: map<RegionId, Vmr>, promised0: nat, slots: map<nat, Entry>,
                   vmrs: map<RegionId, Vmr>, promised: nat, placing: RegionId, pending: nat, contents: seq<seq<bv8>>,
                   vpn: nat)
    requires Accounted(slots0, vmrs0, promised0, placing, pending) && Accounted(slots, vmrs, promised, placing, pending)
    requires SameElsewhere(slots0, slots, vpn) && Shrunk(vmrs0, vmrs)
    ensures forall w :: w != vpn ==> (PanicsIn(slots, vmrs, contents, w) <==> PanicsIn(slots0, vmrs0, contents, w))
  {
  }

  lemma SameFrames(mem0: Memory, mem1: Memory, mem2: Memory, t: int, page: int)
    requires forall q :: q != t && q != page ==> SameFrame(mem0, mem1, q)
    requires (forall q :: q != t ==> SameFrame(mem1, mem2, q)) && page != t
    ensures forall q :: q != t && q != page ==> SameFrame(mem0, mem2, q)
    ensures SameFrame(mem1, mem2, page)
  {
    forall q | q != t && q != page ensures SameFrame(mem0, mem2, q) {
      assert SameFrame(mem0, mem1, q) && SameFrame(mem1, mem2, q);
    }
  }

  lemma ShrunkOne(vmrs0: map<RegionId, Vmr>, vmrs: map<RegionId, Vmr>, v: RegionId)
    requires Shrunk(vmrs0, vmrs) && v in vmrs
    ensures v in vmrs0 && SameRegion(vmrs0[v], vmrs[v])
  {
  }

  lemma BornPage(space: Space, born: map<nat, bv32>, vpn: nat, r: Vmr, contents: seq<seq<bv8>>)
    requires WXBounded(space, born) && r.addr <= vpn * PGSIZE
    ensures WXBounded(space[vpn := RegionPage(r, contents, vpn)], born[vpn := r.prot])
  {
    BornWith(space, born, vpn, RegionPage(r, contents, vpn), r.prot);
  }

  lemma NewRecordsSize(page: int)
    ensures |NewRecords(page)| == RECORDS
  {
  }

  // Only the contents of files that live regions name are seen.
  lemma SameContents(slots: map<nat, Entry>, mem: Memory, vmrs: map<RegionId, Vmr>, promised: nat, placing: RegionId,
                     pending: nat, contents: seq<seq<bv8>>, contents': seq<seq<bv8>>)
    requires Accounted(slots, vmrs, promised, placing, pending) && |contents| == |contents'|
    requires forall v :: v in vmrs && vmrs[v].file.Some? ==>
               vmrs[v].file.value < |contents| && contents'[vmrs[v].file.value] == contents[vmrs[v].file.value]
    ensures SpaceOf(slots, mem, vmrs, contents') == SpaceOf(slots, mem, vmrs, contents)
  {
    forall vpn | vpn in slots
      ensures SlotView(slots[vpn], vpn, mem, vmrs, contents') == SlotView(slots[vpn], vpn, mem, vmrs, contents)
    {
      if slots[vpn].Lazy? {
        SameFileBytes(vmrs[slots[vpn].region], contents, contents', vpn);
      }
    }
  }

  lemma SameFileBytes(r: Vmr, contents: seq<seq<bv8>>, contents': seq<seq<bv8>>, vpn: nat)
    requires r.addr <= vpn * PGSIZE
    requires r.file.Some? ==>
              r.file.value < |contents| == |contents'| && contents'[r.file.value] == contents[r.file.value]
    ensures RegionPage(r, contents', vpn) == RegionPage(r, contents, vpn)
  {
    var page, page' := RegionPage(r, contents, vpn), RegionPage(r, contents', vpn);
    forall i | 0 <= i < PGSIZE
      ensures page'.bytes[i] == page.bytes[i]
    {
      assert RegionByte(r, contents', vpn * PGSIZE - r.addr + i) == RegionByte(r, contents, vpn * PGSIZE - r.addr + i);
    }
    assert page'.bytes == page.bytes;
  }

  lemma CoveredOf(slots: map<nat, Entry>, vmrs: map<RegionId, Vmr>, promised: nat, placing: RegionId, pending: nat)
    requires Accounted(slots, vmrs, promised, placing, pending)
    ensures Covered(slots, vmrs)
  {
  }

  // The page number at which a range ending before `end` stops.
  function PageEnd(end: nat): nat {
    (end + PGSIZE - 1) / PGSIZE
  }

  lemma NextPage(addr: nat, a: nat)
    requires addr <= a && addr % PGSIZE == 0 && a % PGSIZE == 0
    ensures (a + PGSIZE) / PGSIZE == a / PGSIZE + 1
    ensures NatRange(addr / PGSIZE, (a + PGSIZE) / PGSIZE) == NatRange(addr / PGSIZE, a / PGSIZE) + {a / PGSIZE}
  {
  }
}
