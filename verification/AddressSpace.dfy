// What the tables of pk/mmap.c mean: pages and their uses, lazy regions and their
// counts, and the address space a user program sees.

module AddressSpace {
  import opened Options
  import opened Sets
  import opened PageTable

  const PROT_READ: bv32 := 1
  const PROT_WRITE: bv32 := 2
  const PROT_EXEC: bv32 := 4

  const PTE_R: bv8 := 0x02
  const PTE_W: bv8 := 0x04
  const PTE_X: bv8 := 0x08
  const PTE_U: bv8 := 0x10
  const PTE_A: bv8 := 0x40
  const PTE_D: bv8 := 0x80

  const MAX_FILES := 128
  const RECORDS := 85   // sizeof(vmr_t) is 48: PGSIZE / 48 records to a page

  // prot_to_type
  function ProtToType(prot: bv32, user: bool): bv8 {
    var r: bv8 := if prot & PROT_READ != 0 then PTE_R | PTE_A else 0;
    var w: bv8 := if prot & PROT_WRITE != 0 then PTE_W | PTE_A | PTE_D else 0;
    var x: bv8 := if prot & PROT_EXEC != 0 then PTE_X | PTE_A else 0;
    var pte := r | w | x;
    (if pte == 0 then PTE_R else pte) | (if user then PTE_U else 0)
  }

  // The check that ends __handle_page_fault.
  predicate Permits(flags: bv8, prot: bv32) {
    var have := flags | (if flags & PTE_W != 0 then PTE_R else 0);
    have & ProtToType(prot, true) == ProtToType(prot, true)
  }

  // flags grants no write and no execute that `bound` does not.
  predicate NoMoreWX(flags: bv8, bound: bv8) {
    flags & (PTE_W | PTE_X) & !bound == 0
  }

  // vmr_t. On a live record refcnt counts the slots that hold it.
  datatype Vmr = Vmr(addr: nat, length: nat, file: Option<nat>, offset: nat, refcnt: nat, prot: bv32)

  predicate Covers(r: Vmr, vpn: nat) {
    r.addr <= vpn * PGSIZE < r.addr + r.length
  }

  // ---- The pages ----

  ghost predicate HoldsData(mem: Memory, p: int) {
    p in mem && mem[p].Data? && |mem[p].bytes| == PGSIZE
  }

  // Every managed page is free or has exactly one use, and the pages used for data are
  // exactly those the slots name, each by one slot.
  ghost predicate Owned(use: map<int, Use>, mem: Memory, slots: map<nat, Entry>, managed: set<int>, free: set<int>) {
    && Handed(use, managed, free)
    && (forall p :: p in use && use[p].AsData? ==>
          HoldsData(mem, p) && use[p].vpn in slots && slots[use[p].vpn].Leaf? && slots[use[p].vpn].page == p)
    && (forall vpn :: vpn in slots && slots[vpn].Leaf? ==>
          slots[vpn].page in use && use[slots[vpn].page] == AsData(vpn))
  }

  // Region records live in pages used for them; each is live or on the freelist.
  ghost predicate Records(live: set<RegionId>, freelist: seq<RegionId>, use: map<int, Use>) {
    && Distinct(freelist)
    && (forall v :: v in freelist ==> v !in live)
    && (forall v :: v in live || v in freelist <==> v.index < RECORDS && v.page in use && use[v.page].AsRegions?)
  }

  // ---- Lazy regions ----

  ghost function Holders(slots: map<nat, Entry>, v: RegionId): set<nat> {
    set vpn | vpn in slots && slots[vpn] == Lazy(v)
  }

  ghost function LazyPages(slots: map<nat, Entry>): set<nat> {
    set vpn | vpn in slots && slots[vpn].Lazy?
  }

  // Region accounting. While __do_mmap places a region, `pending` of its count have no
  // slot yet.
  ghost predicate Accounted(slots: map<nat, Entry>, vmrs: map<RegionId, Vmr>, promised: nat, placing: RegionId,
                            pending: nat) {
    && Covered(slots, vmrs)
    && (forall v :: v in vmrs ==>
          vmrs[v].refcnt == |Holders(slots, v)| + (if v == placing then pending else 0) && vmrs[v].refcnt > 0)
    && promised == |LazyPages(slots)| + pending
    && (pending > 0 ==> placing in vmrs)
  }

  // Every lazy slot holds a live region whose addresses include the page.
  ghost predicate Covered(slots: map<nat, Entry>, vmrs: map<RegionId, Vmr>) {
    forall vpn :: vpn in slots && slots[vpn].Lazy? ==>
      slots[vpn].region in vmrs && Covers(vmrs[slots[vpn].region], vpn)
  }

  function Decref(vmrs: map<RegionId, Vmr>, v: RegionId, dec: nat): map<RegionId, Vmr>
    requires v in vmrs && dec <= vmrs[v].refcnt
  {
    if vmrs[v].refcnt == dec then vmrs - {v} else vmrs[v := vmrs[v].(refcnt := vmrs[v].refcnt - dec)]
  }

  lemma HeldIsLive(slots: map<nat, Entry>, vmrs: map<RegionId, Vmr>, promised: nat, placing: RegionId, pending: nat,
                   vpn: nat)
    requires Accounted(slots, vmrs, promised, placing, pending)
    requires vpn in slots && slots[vpn].Lazy?
    ensures slots[vpn].region in vmrs && vmrs[slots[vpn].region].refcnt > 0 && promised > 0
  {
    HolderCounts(slots, vpn, slots[vpn].region);
  }

  // The reference counts of some regions, summed.
  ghost function TotalRefs(ids: set<RegionId>, vmrs: map<RegionId, Vmr>): nat
    requires ids <= vmrs.Keys
  {
    if ids == {} then 0
    else
      var v := Pick(ids);
      vmrs[v].refcnt + TotalRefs(ids - {v}, vmrs)
  }

  ghost function Pick(ids: set<RegionId>): (v: RegionId)
    requires ids != {}
    ensures v in ids
  {
    var v :| v in ids; v
  }

  ghost function LazyIn(slots: map<nat, Entry>, ids: set<RegionId>): set<nat> {
    set vpn | vpn in slots && slots[vpn].Lazy? && slots[vpn].region in ids
  }

  // Each lazy page is counted by its own region and by no other.
  lemma {:induction false} TotalIsLazy(ids: set<RegionId>, slots: map<nat, Entry>, vmrs: map<RegionId, Vmr>)
    requires ids <= vmrs.Keys && forall v :: v in ids ==> vmrs[v].refcnt == |Holders(slots, v)|
    ensures TotalRefs(ids, vmrs) == |LazyIn(slots, ids)|
  {
    if ids == {} {
      assert LazyIn(slots, ids) == {};
    } else {
      var v := Pick(ids);
      TotalIsLazy(ids - {v}, slots, vmrs);
      assert LazyIn(slots, ids) == LazyIn(slots, ids - {v}) + Holders(slots, v);
      DisjointSize(LazyIn(slots, ids - {v}), Holders(slots, v));
    }
  }

  ghost predicate SameElsewhere(slots: map<nat, Entry>, slots': map<nat, Entry>, vpn: nat) {
    forall w :: w != vpn ==> (w in slots <==> w in slots') && (w in slots ==> slots'[w] == slots[w])
  }

  function One(b: bool): nat { if b then 1 else 0 }

  // How the counts change when slot vpn stops or starts being lazy.
  lemma CountLazy(slots: map<nat, Entry>, slots': map<nat, Entry>, vpn: nat, v: RegionId)
    requires vpn in slots && slots[vpn] == Lazy(v)
    requires SameElsewhere(slots, slots', vpn) && !SlotAt(slots', vpn).Lazy?
    ensures |LazyPages(slots)| == |LazyPages(slots')| + 1
    ensures forall u :: |Holders(slots, u)| == |Holders(slots', u)| + One(u == v)
  {
    assert LazyPages(slots) == LazyPages(slots') + {vpn};
    forall u ensures |Holders(slots, u)| == |Holders(slots', u)| + One(u == v) {
      CountHolders(slots, slots', vpn, v, u);
    }
  }

  lemma CountHolders(slots: map<nat, Entry>, slots': map<nat, Entry>, vpn: nat, v: RegionId, u: RegionId)
    requires vpn in slots && slots[vpn] == Lazy(v)
    requires SameElsewhere(slots, slots', vpn) && !SlotAt(slots', vpn).Lazy?
    ensures |Holders(slots, u)| == |Holders(slots', u)| + One(u == v)
  {
    if u == v {
      assert Holders(slots, u) == Holders(slots', u) + {vpn};
    } else {
      assert Holders(slots, u) == Holders(slots', u);
    }
  }

  lemma HolderCounts(slots: map<nat, Entry>, vpn: nat, v: RegionId)
    requires vpn in slots && slots[vpn] == Lazy(v)
    ensures |Holders(slots, v)| > 0 && |LazyPages(slots)| > 0
  {
    assert vpn in Holders(slots, v) && vpn in LazyPages(slots);
  }

  // A lazy slot goes away: the page is populated or unmapped.
  lemma DropLazy(slots: map<nat, Entry>, slots': map<nat, Entry>, vmrs: map<RegionId, Vmr>, promised: nat,
                 placing: RegionId, pending: nat, vpn: nat)
    requires Accounted(slots, vmrs, promised, placing, pending)
    requires vpn in slots && slots[vpn].Lazy?
    requires SameElsewhere(slots, slots', vpn) && !SlotAt(slots', vpn).Lazy?
    ensures promised > 0 && slots[vpn].region in vmrs
    ensures Accounted(slots', Decref(vmrs, slots[vpn].region, 1), promised - 1, placing, pending)
  {
    hide Holders, LazyPages, Covered;
    var v := slots[vpn].region;
    CountLazy(slots, slots', vpn, v);
    HeldIsLive(slots, vmrs, promised, placing, pending, vpn);
    DropCovered(slots, slots', vmrs, vpn, if v == placing then pending else 0);
  }

  lemma DropCovered(slots: map<nat, Entry>, slots': map<nat, Entry>, vmrs: map<RegionId, Vmr>, vpn: nat, extra: nat)
    requires Covered(slots, vmrs) && vpn in slots && slots[vpn].Lazy? && slots[vpn].region in vmrs
    requires SameElsewhere(slots, slots', vpn) && !SlotAt(slots', vpn).Lazy?
    requires vmrs[slots[vpn].region].refcnt == |Holders(slots', slots[vpn].region)| + 1 + extra
    ensures Covered(slots', Decref(vmrs, slots[vpn].region, 1))
  {
    hide Holders;
    var v := slots[vpn].region;
    forall w | w in slots' && slots'[w] == Lazy(v) ensures |Holders(slots', v)| > 0 {
      HolderCounts(slots', w, v);
    }
  }

  // A leaf slot goes away or changes its flags: no count changes.
  lemma DropLeaf(slots: map<nat, Entry>, slots': map<nat, Entry>, vmrs: map<RegionId, Vmr>, promised: nat,
                 placing: RegionId, pending: nat, vpn: nat)
    requires Accounted(slots, vmrs, promised, placing, pending)
    requires vpn in slots && slots[vpn].Leaf?
    requires SameElsewhere(slots, slots', vpn) && !SlotAt(slots', vpn).Lazy?
    ensures Accounted(slots', vmrs, promised, placing, pending)
  {
    assert LazyPages(slots) == LazyPages(slots');
    forall u ensures Holders(slots', u) == Holders(slots, u) { }
  }

  // One slot of the region being placed.
  lemma PlaceLazy(slots: map<nat, Entry>, vmrs: map<RegionId, Vmr>, promised: nat, v: RegionId, pending: nat, vpn: nat)
    requires Accounted(slots, vmrs, promised, v, pending) && pending > 0
    requires vpn !in slots && Covers(vmrs[v], vpn)
    ensures Accounted(slots[vpn := Lazy(v)], vmrs, promised, v, pending - 1)
  {
    CountLazy(slots[vpn := Lazy(v)], slots, vpn, v);
    hide Holders, LazyPages;
  }

  // __vmr_alloc's record, with all of its count still pending.
  lemma NewRegion(slots: map<nat, Entry>, vmrs: map<RegionId, Vmr>, promised: nat, placing: RegionId, v: RegionId,
                  r: Vmr)
    requires Accounted(slots, vmrs, promised, placing, 0)
    requires v !in vmrs && r.refcnt > 0
    ensures Accounted(slots, vmrs[v := r], promised + r.refcnt, v, r.refcnt)
  {
    assert Holders(slots, v) == {};
  }

  // A record's protection is no part of its count.
  lemma Reprotect(slots: map<nat, Entry>, vmrs: map<RegionId, Vmr>, promised: nat, placing: RegionId, pending: nat,
                  v: RegionId, prot: bv32)
    requires Accounted(slots, vmrs, promised, placing, pending) && v in vmrs
    ensures Accounted(slots, vmrs[v := vmrs[v].(prot := prot)], promised, placing, pending)
  {
  }

  // ---- Files behind the regions ----

  ghost function Backed(vmrs: map<RegionId, Vmr>, f: nat): set<RegionId> {
    set v | v in vmrs && vmrs[v].file == Some(f)
  }

  // mapped[f] is the number of live regions that name file object f.
  ghost predicate FilesCounted(vmrs: map<RegionId, Vmr>, mapped: seq<nat>) {
    && |mapped| == MAX_FILES
    && (forall v :: v in vmrs && vmrs[v].file.Some? ==> vmrs[v].file.value < MAX_FILES)
    && (forall f :: 0 <= f < MAX_FILES ==> mapped[f] == |Backed(vmrs, f)|)
  }

  // One region more on a file.
  function WithRegion(mapped: seq<nat>, file: Option<nat>): seq<nat>
    requires file.Some? ==> file.value < |mapped|
  {
    if file.None? then mapped else mapped[file.value := mapped[file.value] + 1]
  }

  lemma AddBacked(vmrs: map<RegionId, Vmr>, mapped: seq<nat>, v: RegionId, r: Vmr)
    requires FilesCounted(vmrs, mapped) && v !in vmrs
    requires r.file.Some? ==> r.file.value < MAX_FILES
    ensures FilesCounted(vmrs[v := r], WithRegion(mapped, r.file))
  {
    hide Backed;
    var vmrs' := vmrs[v := r];
    forall f: nat ensures |Backed(vmrs', f)| == |Backed(vmrs, f)| + One(r.file == Some(f)) {
      BackedOne(vmrs, v, r, f);
    }
  }

  lemma BackedOne(vmrs: map<RegionId, Vmr>, v: RegionId, r: Vmr, f: nat)
    requires v !in vmrs
    ensures |Backed(vmrs[v := r], f)| == |Backed(vmrs, f)| + One(r.file == Some(f))
  {
    assert Backed(vmrs[v := r], f) == Backed(vmrs, f) + (if r.file == Some(f) then {v} else {});
  }

  lemma DropBacked(vmrs: map<RegionId, Vmr>, mapped: seq<nat>, v: RegionId)
    requires FilesCounted(vmrs, mapped) && v in vmrs
    ensures vmrs[v].file.Some? ==> mapped[vmrs[v].file.value] > 0
    ensures FilesCounted(vmrs - {v},
              if vmrs[v].file.None? then mapped else mapped[vmrs[v].file.value := mapped[vmrs[v].file.value] - 1])
  {
    hide Backed;
    var r := vmrs[v];
    var vmrs' := vmrs - {v};
    assert vmrs == vmrs'[v := r];
    forall f: nat ensures |Backed(vmrs, f)| == |Backed(vmrs', f)| + One(r.file == Some(f)) {
      BackedOne(vmrs', v, r, f);
    }
  }

  lemma SameBacked(vmrs: map<RegionId, Vmr>, mapped: seq<nat>, v: RegionId, r: Vmr)
    requires FilesCounted(vmrs, mapped) && v in vmrs && r.file == vmrs[v].file
    ensures FilesCounted(vmrs[v := r], mapped)
  {
    forall f: nat ensures Backed(vmrs[v := r], f) == Backed(vmrs, f) { }
  }

  // ---- The address space a program sees ----

  datatype PageView = PageView(bytes: seq<bv8>, flags: bv8)

  type Space = map<nat, PageView>

  // Byte `i` of a region: the file's, up to the region's length and the file's end.
  function RegionByte(r: Vmr, contents: seq<seq<bv8>>, i: nat): bv8 {
    if r.file.Some? && r.file.value < |contents| && i < r.length && r.offset + i < |contents[r.file.value]|
    then contents[r.file.value][r.offset + i]
    else 0
  }

  // The page a region puts at vpn.
  function RegionPage(r: Vmr, contents: seq<seq<bv8>>, vpn: nat): PageView
    requires r.addr <= vpn * PGSIZE
  {
    PageView(seq(PGSIZE, i requires 0 <= i < PGSIZE => RegionByte(r, contents, vpn * PGSIZE - r.addr + i)),
             ProtToType(r.prot, true))
  }

  function SlotView(e: Entry, vpn: nat, mem: Memory, vmrs: map<RegionId, Vmr>, contents: seq<seq<bv8>>): PageView {
    match e
    case Leaf(p, flags) => PageView(if p in mem && mem[p].Data? then mem[p].bytes else [], flags)
    case Lazy(v) =>
      if v in vmrs && vmrs[v].addr <= vpn * PGSIZE then RegionPage(vmrs[v], contents, vpn) else PageView([], 0)
    case _ => PageView([], 0)
  }

  // A page not yet populated is seen as it will be populated.
  ghost function SpaceOf(slots: map<nat, Entry>, mem: Memory, vmrs: map<RegionId, Vmr>,
                         contents: seq<seq<bv8>>): Space {
    map vpn | vpn in slots :: SlotView(slots[vpn], vpn, mem, vmrs, contents)
  }

  // Pages lo .. hi - 1 of `space` replaced by the region's.
  function Overlay(space: Space, lo: nat, hi: nat, r: Vmr, contents: seq<seq<bv8>>): Space
    requires r.addr == lo * PGSIZE
  {
    map vpn | vpn in space.Keys + NatRange(lo, hi) ::
      if lo <= vpn < hi then RegionPage(r, contents, vpn) else space[vpn]
  }

  function Without(space: Space, lo: nat, hi: nat): Space {
    space - NatRange(lo, hi)
  }

  function NatRange(lo: nat, hi: nat): (r: set<nat>)
    ensures forall x :: x in r <==> lo <= x < hi
  {
    set x: nat | lo <= x < hi && Integer(x)
  }

  // Pages lo .. hi - 1 newly mapped with prot.
  function BornOver(born: map<nat, bv32>, lo: nat, hi: nat, prot: bv32): map<nat, bv32> {
    map vpn | vpn in born.Keys + NatRange(lo, hi) :: if lo <= vpn < hi then prot else born[vpn]
  }

  // Write and execute permission never exceed what the page was mapped with.
  ghost predicate WXBounded(space: Space, born: map<nat, bv32>) {
    forall vpn :: vpn in space ==> vpn in born && NoMoreWX(space[vpn].flags, ProtToType(born[vpn], true))
  }

  // ---- How single steps keep the page uses ----

  lemma OwnedGrow(use: map<int, Use>, mem: Memory, slots: map<nat, Entry>, managed: set<int>, free: set<int>,
                  use': map<int, Use>, mem': Memory, free': set<int>)
    requires Owned(use, mem, slots, managed, free) && Handed(use', managed, free')
    requires OnlyTablesAdded(use, mem, use', mem')
    ensures Owned(use', mem', slots, managed, free')
  {
  }

  lemma RecordsGrow(live: set<RegionId>, freelist: seq<RegionId>, use: map<int, Use>, mem: Memory, use': map<int, Use>,
                    mem': Memory)
    requires Records(live, freelist, use) && OnlyTablesAdded(use, mem, use', mem')
    ensures Records(live, freelist, use')
  {
  }

  // A fresh page of region records.
  lemma OwnedRegions(use: map<int, Use>, mem: Memory, slots: map<nat, Entry>, managed: set<int>, free: set<int>, p: int,
                     frame: Frame)
    requires Owned(use, mem, slots, managed, free) && p in free
    ensures p !in use && Owned(use[p := AsRegions], mem[p := frame], slots, managed, free - {p})
  {
    HandOut(use, managed, free, p, AsRegions);
  }

  // Writing the slot of vpn, in a table page, when it is not and does not become a leaf.
  lemma OwnedWrite(use: map<int, Use>, mem: Memory, slots: map<nat, Entry>, managed: set<int>, free: set<int>, vpn: nat,
                   t: int, mem': Memory, slots': map<nat, Entry>)
    requires Owned(use, mem, slots, managed, free)
    requires t in use && use[t].AsTable? && (forall p :: p != t ==> SameFrame(mem, mem', p))
    requires SameElsewhere(slots, slots', vpn) && !SlotAt(slots, vpn).Leaf? && !SlotAt(slots', vpn).Leaf?
    ensures Owned(use, mem', slots', managed, free)
  {
    forall q | q in use && use[q].AsData? ensures q != t && SameFrame(mem, mem', q) { }
  }

  // Changing the flags of a leaf.
  lemma OwnedFlags(use: map<int, Use>, mem: Memory, slots: map<nat, Entry>, managed: set<int>, free: set<int>, vpn: nat,
                   t: int, mem': Memory, flags: bv8)
    requires Owned(use, mem, slots, managed, free) && SlotAt(slots, vpn).Leaf?
    requires t in use && use[t].AsTable? && (forall p :: p != t ==> SameFrame(mem, mem', p))
    ensures Owned(use, mem', slots[vpn := Leaf(slots[vpn].page, flags)], managed, free)
  {
    forall q | q in use && use[q].AsData? ensures q != t && SameFrame(mem, mem', q) { }
  }

  // A lazy or empty slot becomes a leaf on a fresh page.
  lemma OwnedLeaf(use: map<int, Use>, mem: Memory, slots: map<nat, Entry>, managed: set<int>, free: set<int>, vpn: nat,
                  t: int, p: int, flags: bv8, mem': Memory)
    requires Owned(use, mem, slots, managed, free) && !SlotAt(slots, vpn).Leaf? && p in free
    requires t in use && use[t].AsTable? && (forall q :: q != t && q != p ==> SameFrame(mem, mem', q))
    requires p != t ==> HoldsData(mem', p)
    ensures Owned(use[p := AsData(vpn)], mem', slots[vpn := Leaf(p, flags)], managed, free - {p})
  {
    forall q | q in use && use[q].AsData? ensures q != t && SameFrame(mem, mem', q) { }
    HandOut(use, managed, free, p, AsData(vpn));
  }

  // A leaf is unmapped and its page freed.
  lemma OwnedDrop(use: map<int, Use>, mem: Memory, slots: map<nat, Entry>, managed: set<int>, free: set<int>, vpn: nat,
                  t: int, mem': Memory)
    requires Owned(use, mem, slots, managed, free) && SlotAt(slots, vpn).Leaf?
    requires t in use && use[t].AsTable? && (forall q :: q != t ==> SameFrame(mem, mem', q))
    ensures var p := slots[vpn].page;
            p in managed && p !in free && p != t && use[p] == AsData(vpn) &&
            Owned(use - {p}, mem', slots - {vpn}, managed, free + {p})
  {
    forall q | q in use && use[q].AsData? ensures q != t && SameFrame(mem, mem', q) { }
    HandBack(use, managed, free, slots[vpn].page);
  }

  // The contents of a data page change.
  lemma OwnedStore(use: map<int, Use>, mem: Memory, slots: map<nat, Entry>, managed: set<int>, free: set<int>, p: int,
                   bytes: seq<bv8>)
    requires Owned(use, mem, slots, managed, free) && p in use && use[p].AsData? && |bytes| == PGSIZE
    ensures Owned(use, mem[p := Data(bytes)], slots, managed, free)
  {
  }

  // ---- Region records ----

  function NewRecords(page: int): seq<RegionId> {
    seq(RECORDS, i requires 0 <= i < RECORDS => RegionId(page, i))
  }

  lemma RecordsRefill(live: set<RegionId>, use: map<int, Use>, page: int)
    requires Records(live, [], use) && page !in use
    ensures Records(live, NewRecords(page), use[page := AsRegions])
  {
    var s := NewRecords(page);
    forall v ensures v in s <==> v.page == page && v.index < RECORDS {
      if v.page == page && v.index < RECORDS {
        assert s[v.index] == v;
      }
    }
  }

  lemma RecordsTake(live: set<RegionId>, freelist: seq<RegionId>, use: map<int, Use>)
    requires Records(live, freelist, use) && freelist != []
    ensures freelist[0] !in live && Records(live + {freelist[0]}, freelist[1..], use)
  {
    assert freelist == [freelist[0]] + freelist[1..];
  }

  lemma RecordsReturn(live: set<RegionId>, freelist: seq<RegionId>, use: map<int, Use>, v: RegionId)
    requires Records(live, freelist, use) && v in live
    ensures Records(live - {v}, [v] + freelist, use)
  {
  }

  // Uses other than for region records do not matter to the records.
  lemma RecordsReuse(live: set<RegionId>, freelist: seq<RegionId>, use: map<int, Use>, use': map<int, Use>)
    requires Records(live, freelist, use)
    requires forall p :: (p in use && use[p].AsRegions?) <==> (p in use' && use'[p].AsRegions?)
    ensures Records(live, freelist, use')
  {
  }

  // ---- What a step leaves of the view ----

  ghost predicate SameRegion(r: Vmr, r': Vmr) {
    r' == r.(refcnt := r'.refcnt)
  }

  // Every live region of vmrs' is one of vmrs, up to its count.
  ghost predicate Shrunk(vmrs: map<RegionId, Vmr>, vmrs': map<RegionId, Vmr>) {
    forall v :: v in vmrs' ==> v in vmrs && SameRegion(vmrs[v], vmrs'[v])
  }

  lemma ShrunkRefl(vmrs: map<RegionId, Vmr>)
    ensures Shrunk(vmrs, vmrs)
  {
  }

  lemma ShrunkTrans(vmrs0: map<RegionId, Vmr>, vmrs1: map<RegionId, Vmr>, vmrs2: map<RegionId, Vmr>)
    requires Shrunk(vmrs0, vmrs1) && Shrunk(vmrs1, vmrs2)
    ensures Shrunk(vmrs0, vmrs2)
  {
  }

  lemma DecrefShrinks(vmrs: map<RegionId, Vmr>, v: RegionId, dec: nat)
    requires v in vmrs && dec <= vmrs[v].refcnt
    ensures Shrunk(vmrs, Decref(vmrs, v, dec))
  {
  }

  lemma SameRegionPage(r: Vmr, r': Vmr, contents: seq<seq<bv8>>, vpn: nat)
    requires SameRegion(r, r') && r.addr <= vpn * PGSIZE
    ensures RegionPage(r, contents, vpn) == RegionPage(r', contents, vpn)
  {
    var a, b := RegionPage(r, contents, vpn).bytes, RegionPage(r', contents, vpn).bytes;
    forall i | 0 <= i < PGSIZE ensures a[i] == b[i] {
      var k := vpn * PGSIZE - r.addr + i;
      assert a[i] == RegionByte(r, contents, k) && b[i] == RegionByte(r', contents, k);
    }
    assert a == b;
  }

  // The slots other than vpn's show the same pages.
  lemma SameViews(use: map<int, Use>, mem: Memory, slots: map<nat, Entry>, managed: set<int>, free: set<int>,
                  vmrs: map<RegionId, Vmr>, mem': Memory, slots': map<nat, Entry>, vmrs': map<RegionId, Vmr>,
                  contents: seq<seq<bv8>>, vpn: nat)
    requires Owned(use, mem, slots, managed, free) && SameElsewhere(slots, slots', vpn)
    requires forall p :: p in use && use[p].AsData? && use[p].vpn != vpn ==> SameFrame(mem, mem', p)
    requires Covered(slots', vmrs') && Shrunk(vmrs, vmrs')
    ensures SpaceOf(slots', mem', vmrs', contents) - {vpn} == SpaceOf(slots, mem, vmrs, contents) - {vpn}
  {
    forall w | w in slots && w != vpn
      ensures SlotView(slots'[w], w, mem', vmrs', contents) == SlotView(slots[w], w, mem, vmrs, contents)
    {
      if slots[w].Lazy? {
        SameRegionPage(vmrs[slots[w].region], vmrs'[slots[w].region], contents, w);
      } else if slots[w].Leaf? {
        assert SameFrame(mem, mem', slots[w].page);
      }
    }
  }

  // ---- How a page stays mapped ----

  // Slot w holds what it held, or a populated page in place of the lazy one.
  ghost predicate KeepsPage(slots0: map<nat, Entry>, vmrs0: map<RegionId, Vmr>, slots: map<nat, Entry>,
                            vmrs: map<RegionId, Vmr>, w: nat) {
    match SlotAt(slots0, w)
    case Empty => SlotAt(slots, w).Empty?
    case Table(_) => SlotAt(slots, w).Table?
    case Leaf(_, flags) => SlotAt(slots, w).Leaf? && SlotAt(slots, w).flags == flags
    case Lazy(v) =>
      v in vmrs0 &&
      match SlotAt(slots, w)
      case Leaf(_, flags) => flags == ProtToType(vmrs0[v].prot, true)
      case Lazy(u) => u == v && v in vmrs && SameRegion(vmrs0[v], vmrs[v])
      case _ => false
  }

  // The slots outside lo .. hi - 1 do.
  ghost predicate KeepsOutside(slots0: map<nat, Entry>, vmrs0: map<RegionId, Vmr>, slots: map<nat, Entry>,
                               vmrs: map<RegionId, Vmr>, lo: nat, hi: nat)
  {
    forall w: nat :: !(lo <= w < hi) ==> KeepsPage(slots0, vmrs0, slots, vmrs, w)
  }

  // Page w is mapped with prot; if lazily, by a region within pages lo .. hi - 1.
  ghost predicate MappedWith(slots: map<nat, Entry>, vmrs: map<RegionId, Vmr>, w: nat, lo: nat, hi: nat, prot: bv32) {
    match SlotAt(slots, w)
    case Leaf(_, flags) => flags == ProtToType(prot, true)
    case Lazy(v) =>
      && v in vmrs && vmrs[v].prot == prot
      && lo * PGSIZE <= vmrs[v].addr && vmrs[v].addr + vmrs[v].length <= hi * PGSIZE
    case _ => false
  }

  lemma KeepsMapped(slots0: map<nat, Entry>, vmrs0: map<RegionId, Vmr>, slots: map<nat, Entry>,
                    vmrs: map<RegionId, Vmr>, w: nat, lo: nat, hi: nat, prot: bv32)
    requires KeepsPage(slots0, vmrs0, slots, vmrs, w) && MappedWith(slots0, vmrs0, w, lo, hi, prot)
    ensures MappedWith(slots, vmrs, w, lo, hi, prot)
  {
  }

  lemma KeepsTrans(slots0: map<nat, Entry>, vmrs0: map<RegionId, Vmr>, slots1: map<nat, Entry>,
                   vmrs1: map<RegionId, Vmr>, slots: map<nat, Entry>, vmrs: map<RegionId, Vmr>, lo: nat, hi: nat)
    requires KeepsOutside(slots0, vmrs0, slots1, vmrs1, lo, hi) && KeepsOutside(slots1, vmrs1, slots, vmrs, lo, hi)
    ensures KeepsOutside(slots0, vmrs0, slots, vmrs, lo, hi)
  {
    forall w: nat | !(lo <= w < hi)
      ensures KeepsPage(slots0, vmrs0, slots, vmrs, w)
    {
      assert KeepsPage(slots0, vmrs0, slots1, vmrs1, w) && KeepsPage(slots1, vmrs1, slots, vmrs, w);
    }
  }

  lemma KeepsWider(slots0: map<nat, Entry>, vmrs0: map<RegionId, Vmr>, slots: map<nat, Entry>, vmrs: map<RegionId, Vmr>,
                   lo: nat, hi: nat, lo': nat, hi': nat)
    requires KeepsOutside(slots0, vmrs0, slots, vmrs, lo, hi) && (lo < hi ==> lo' <= lo && hi <= hi')
    ensures KeepsOutside(slots0, vmrs0, slots, vmrs, lo', hi')
  {
  }

  lemma KeepsSelf(slots: map<nat, Entry>, vmrs: map<RegionId, Vmr>)
    requires Covered(slots, vmrs)
    ensures KeepsOutside(slots, vmrs, slots, vmrs, 0, 0)
  {
  }

  // Filling slot vpn, when regions may only go and lose count.
  lemma KeepsPlaced(slots0: map<nat, Entry>, vmrs0: map<RegionId, Vmr>, slots: map<nat, Entry>,
                    vmrs: map<RegionId, Vmr>, vpn: nat, lo: nat, hi: nat)
    requires SameElsewhere(slots0, slots, vpn) && Covered(slots, vmrs) && Shrunk(vmrs0, vmrs) && lo <= vpn < hi
    ensures KeepsOutside(slots0, vmrs0, slots, vmrs, lo, hi)
  {
  }

  // A new region changes no slot.
  lemma KeepsNewRegion(slots: map<nat, Entry>, vmrs: map<RegionId, Vmr>, v: RegionId, r: Vmr)
    requires Covered(slots, vmrs) && v !in vmrs
    ensures KeepsOutside(slots, vmrs, slots, vmrs[v := r], 0, 0)
  {
  }

  // A fault at vpn that leaves the view as it was.
  lemma KeepsFaulted(slots0: map<nat, Entry>, mem0: Memory, vmrs0: map<RegionId, Vmr>, slots: map<nat, Entry>,
                     mem: Memory, vmrs: map<RegionId, Vmr>, contents: seq<seq<bv8>>, vpn: nat)
    requires SpaceOf(slots, mem, vmrs, contents) == SpaceOf(slots0, mem0, vmrs0, contents)
    requires SameElsewhere(slots0, slots, vpn) && Shrunk(vmrs0, vmrs) && Covered(slots0, vmrs0) && Covered(slots, vmrs)
    requires vpn in slots ==> slots[vpn].Leaf?
    requires forall w :: w in slots0 ==> slots0[w].Leaf? || slots0[w].Lazy?
    ensures KeepsOutside(slots0, vmrs0, slots, vmrs, 0, 0)
  {
    var space0, space := SpaceOf(slots0, mem0, vmrs0, contents), SpaceOf(slots, mem, vmrs, contents);
    assert vpn in space0 <==> vpn in space;
    if vpn in slots {
      assert space[vpn].flags == space0[vpn].flags;
    }
  }

  // A page mapped with a protection accepts a narrower one.
  lemma MappedProtectable(slots: map<nat, Entry>, vmrs: map<RegionId, Vmr>, w: nat, lo: nat, hi: nat, was: bv32,
                          prot: bv32)
    requires MappedWith(slots, vmrs, w, lo, hi, was) && prot & !was == 0
    ensures Protectable(slots, vmrs, w, prot)
  {
    NarrowerAccepted(was, prot);
  }

  lemma NarrowerAccepted(was: bv32, prot: bv32)
    requires prot & !was == 0
    ensures Narrows(was, prot) && Allows(ProtToType(was, true), prot)
  {
  }

  // ---- Reading a file into a page ----

  // file_pread: short only at the end of the file, empty past it.
  function Pread(bytes: seq<bv8>, len: nat, off: nat): (r: seq<bv8>)
    ensures |r| <= len
    ensures r == [] <==> len == 0 || off >= |bytes|
  {
    if off >= |bytes| then [] else if off + len <= |bytes| then bytes[off..off + len] else bytes[off..]
  }

  // A page of a file region that starts at or past the end of its file.
  ghost predicate PastEof(r: Vmr, contents: seq<seq<bv8>>, vpn: nat) {
    r.file.Some? && r.file.value < |contents| && r.offset + vpn * PGSIZE - r.addr >= |contents[r.file.value]|
  }

  lemma NotPastEof(r: Vmr, contents: seq<seq<bv8>>, vpn: nat)
    requires r.file.None?
    ensures !PastEof(r, contents, vpn)
  {
  }

  // What __handle_page_fault reads, with zeros after it, is the region's page.
  lemma FilledPage(r: Vmr, contents: seq<seq<bv8>>, vpn: nat, got: seq<bv8>)
    requires Covers(r, vpn) && r.file.Some? && r.file.value < |contents|
    requires var pos := vpn * PGSIZE - r.addr;
             var n := if r.length - pos < PGSIZE then r.length - pos else PGSIZE;
             got == Pread(contents[r.file.value], n, pos + r.offset)
    ensures |got| <= PGSIZE && got + ZeroBytes()[|got|..] == RegionPage(r, contents, vpn).bytes
  {
    var page := got + ZeroBytes()[|got|..];
    forall i | 0 <= i < PGSIZE ensures page[i] == RegionByte(r, contents, vpn * PGSIZE - r.addr + i) { }
    assert page == RegionPage(r, contents, vpn).bytes;
  }

  lemma AnonymousPage(r: Vmr, contents: seq<seq<bv8>>, vpn: nat)
    requires Covers(r, vpn) && r.file.None?
    ensures RegionPage(r, contents, vpn).bytes == ZeroBytes()
  {
    var page := RegionPage(r, contents, vpn).bytes;
    forall i | 0 <= i < PGSIZE ensures page[i] == 0 {
      assert page[i] == RegionByte(r, contents, vpn * PGSIZE - r.addr + i);
    }
    assert page == ZeroBytes();
  }

  // Populating a page leaves the whole view as it was.
  lemma PopulatedView(use: map<int, Use>, mem: Memory, slots: map<nat, Entry>, managed: set<int>, free: set<int>,
                      vmrs: map<RegionId, Vmr>, mem': Memory, vmrs': map<RegionId, Vmr>, contents: seq<seq<bv8>>,
                      vpn: nat, t: int, page: int, v: RegionId)
    requires Owned(use, mem, slots, managed, free) && page in free
    requires t in use && use[t].AsTable? && (forall q :: q != t && q != page ==> SameFrame(mem, mem', q))
    requires SlotAt(slots, vpn) == Lazy(v) && v in vmrs && vmrs[v].addr <= vpn * PGSIZE
    requires page in mem' && mem'[page] == Data(RegionPage(vmrs[v], contents, vpn).bytes)
    requires Covered(slots[vpn := Leaf(page, ProtToType(vmrs[v].prot, true))], vmrs') && Shrunk(vmrs, vmrs')
    ensures SpaceOf(slots[vpn := Leaf(page, ProtToType(vmrs[v].prot, true))], mem', vmrs', contents) ==
              SpaceOf(slots, mem, vmrs, contents)
  {
    var slots' := slots[vpn := Leaf(page, ProtToType(vmrs[v].prot, true))];
    forall p | p in use && use[p].AsData? && use[p].vpn != vpn ensures SameFrame(mem, mem', p) { }
    SameViews(use, mem, slots, managed, free, vmrs, mem', slots', vmrs', contents, vpn);
    var a, b := SpaceOf(slots, mem, vmrs, contents), SpaceOf(slots', mem', vmrs', contents);
    assert a[vpn] == b[vpn];
    forall w | w in a ensures w in b && a[w] == b[w] {
      if w != vpn {
        assert w in a - {vpn} && w in b - {vpn};
      }
    }
  }

  // ---- Placing a region ----

  lemma GrowKeepsView(use: map<int, Use>, mem: Memory, slots: map<nat, Entry>, managed: set<int>, free: set<int>,
                      vmrs: map<RegionId, Vmr>, use': map<int, Use>, mem': Memory, contents: seq<seq<bv8>>)
    requires Owned(use, mem, slots, managed, free) && OnlyTablesAdded(use, mem, use', mem')
    ensures SpaceOf(slots, mem', vmrs, contents) == SpaceOf(slots, mem, vmrs, contents)
  {
    forall w | w in slots
      ensures SlotView(slots[w], w, mem', vmrs, contents) == SlotView(slots[w], w, mem, vmrs, contents) {
      if slots[w].Leaf? {
        assert SameFrame(mem, mem', slots[w].page);
      }
    }
  }

  // A region that no slot holds is not seen.
  lemma UnseenRegion(slots: map<nat, Entry>, mem: Memory, vmrs: map<RegionId, Vmr>, contents: seq<seq<bv8>>,
                     v: RegionId, r: Vmr)
    requires Covered(slots, vmrs) && v !in vmrs
    ensures SpaceOf(slots, mem, vmrs[v := r], contents) == SpaceOf(slots, mem, vmrs, contents)
  {
    forall w | w in slots
      ensures SlotView(slots[w], w, mem, vmrs[v := r], contents) == SlotView(slots[w], w, mem, vmrs, contents) { }
  }

  // An empty slot becomes the region's.
  lemma PlacedView(use: map<int, Use>, mem: Memory, slots: map<nat, Entry>, managed: set<int>, free: set<int>,
                   vmrs: map<RegionId, Vmr>, mem': Memory, contents: seq<seq<bv8>>, vpn: nat, t: int, v: RegionId)
    requires Owned(use, mem, slots, managed, free) && vpn !in slots && v in vmrs && vmrs[v].addr <= vpn * PGSIZE
    requires t in use && use[t].AsTable? && (forall p :: p != t ==> SameFrame(mem, mem', p))
    requires Covered(slots[vpn := Lazy(v)], vmrs)
    ensures SpaceOf(slots[vpn := Lazy(v)], mem', vmrs, contents) ==
              SpaceOf(slots, mem, vmrs, contents)[vpn := RegionPage(vmrs[v], contents, vpn)]
  {
    forall p | p in use && use[p].AsData? ensures SameFrame(mem, mem', p) { }
    SameViews(use, mem, slots, managed, free, vmrs, mem', slots[vpn := Lazy(v)], vmrs, contents, vpn);
    var a, b := SpaceOf(slots, mem, vmrs, contents), SpaceOf(slots[vpn := Lazy(v)], mem', vmrs, contents);
    forall w | w in b ensures b[w] == a[vpn := RegionPage(vmrs[v], contents, vpn)][w] {
      if w != vpn {
        assert w in a - {vpn} && w in b - {vpn};
      }
    }
    forall w | w in a ensures w in b { }
  }

  lemma OwnBound(flags: bv8)
    ensures NoMoreWX(flags, flags)
  {
  }

  // A page is mapped with prot and seen with no more.
  lemma BornWith(space: Space, born: map<nat, bv32>, vpn: nat, page: PageView, prot: bv32)
    requires WXBounded(space - {vpn}, born) && page.flags == ProtToType(prot, true)
    ensures WXBounded(space[vpn := page], born[vpn := prot])
  {
    OwnBound(page.flags);
    forall w | w in space[vpn := page] && w != vpn ensures w in space - {vpn} { }
  }

  lemma OverlayNone(space: Space, lo: nat, r: Vmr, contents: seq<seq<bv8>>)
    requires r.addr == lo * PGSIZE
    ensures Overlay(space, lo, lo, r, contents) == space
  {
  }

  lemma OverlayNext(space: Space, lo: nat, hi: nat, r: Vmr, r': Vmr, contents: seq<seq<bv8>>)
    requires r.addr == lo * PGSIZE && lo <= hi && SameRegion(r, r')
    ensures Overlay(space, lo, hi + 1, r, contents) ==
              Overlay(space, lo, hi, r, contents)[hi := RegionPage(r', contents, hi)]
  {
    SameRegionPage(r, r', contents, hi);
  }

  lemma BornNone(born: map<nat, bv32>, lo: nat, prot: bv32)
    ensures BornOver(born, lo, lo, prot) == born
  {
  }

  lemma BornNext(born: map<nat, bv32>, lo: nat, hi: nat, prot: bv32)
    requires lo <= hi
    ensures BornOver(born, lo, hi + 1, prot) == BornOver(born, lo, hi, prot)[hi := prot]
  {
  }

  // A mapping's own protection always passes the fault's permission check.
  lemma PermitsOwn(prot: bv32)
    ensures Permits(ProtToType(prot, true), prot)
  {
  }

  // The entry of a page mapped with `prot`, in the bits of section 4.4.1 of the RISC-V
  // Privileged Architecture (R 1, W 2, X 3, U 4, A 6, D 7): W and X as asked, R as asked or
  // when nothing was, A exactly when something was, D with W.
  lemma TypeBits(prot: bv32, user: bool)
    ensures var flags := ProtToType(prot, user);
            && (flags & 0x04 != 0 <==> prot & PROT_WRITE != 0)
            && (flags & 0x08 != 0 <==> prot & PROT_EXEC != 0)
            && (flags & 0x02 != 0 <==> prot & PROT_READ != 0 || prot & (PROT_WRITE | PROT_EXEC) == 0)
            && (flags & 0x40 == 0 <==> prot & (PROT_READ | PROT_WRITE | PROT_EXEC) == 0)
            && (flags & 0x80 != 0 <==> prot & PROT_WRITE != 0) && (flags & 0x10 != 0 <==> user)
            && flags & 0x21 == 0
  {
  }

  // Which faults are granted on a page mapped with `had`: writes need write permission,
  // fetches execute permission, and reads either read or write permission. A fault that
  // asks for nothing is one for a page with R but no more.
  lemma PermitsExactly(had: bv32, prot: bv32)
    ensures Permits(ProtToType(had, true), prot) <==>
              && (prot & PROT_WRITE != 0 ==> had & PROT_WRITE != 0)
              && (prot & PROT_EXEC != 0 ==> had & PROT_EXEC != 0)
              && (prot & PROT_READ != 0 ==> had & (PROT_READ | PROT_WRITE) != 0)
              && (prot & (PROT_READ | PROT_WRITE | PROT_EXEC) == 0 ==>
                    had & (PROT_READ | PROT_WRITE) != 0 || had & PROT_EXEC == 0)
  {
  }

  // A page whose W and X are bounded by what it was mapped with grants no write and no
  // fetch that the mapping did not.
  lemma PermitsBounded(flags: bv8, born: bv32, prot: bv32)
    requires NoMoreWX(flags, ProtToType(born, true)) && Permits(flags, prot)
    ensures prot & PROT_WRITE != 0 ==> born & PROT_WRITE != 0
    ensures prot & PROT_EXEC != 0 ==> born & PROT_EXEC != 0
  {
  }

  lemma NoMoreIs(flags: bv8, bound: bv8)
    ensures NoMoreWX(flags, bound) <==>
              (flags & PTE_W != 0 ==> bound & PTE_W != 0) && (flags & PTE_X != 0 ==> bound & PTE_X != 0)
  {
  }

  // ---- Narrowing protection ----

  // do_mprotect's test of a page not yet populated.
  predicate Narrows(was: bv32, prot: bv32) {
    (was ^ prot) & !was == 0
  }

  // do_mprotect's test of a populated page.
  predicate Allows(flags: bv8, prot: bv32) {
    && flags & PTE_U != 0
    && (prot & PROT_READ != 0 ==> flags & PTE_R != 0)
    && (prot & PROT_WRITE != 0 ==> flags & PTE_W != 0)
    && (prot & PROT_EXEC != 0 ==> flags & PTE_X != 0)
  }

  // A region accepts exactly the protections within its own.
  lemma NarrowsExactly(was: bv32, prot: bv32)
    ensures Narrows(was, prot) <==> prot & !was == 0
  {
  }

  // A populated page accepts the same, except that one mapped with no permission also
  // accepts reading: its entry has R.
  lemma AllowsExactly(was: bv32, prot: bv32)
    ensures Allows(ProtToType(was, true), prot) <==>
              && (prot & PROT_WRITE != 0 ==> was & PROT_WRITE != 0)
              && (prot & PROT_EXEC != 0 ==> was & PROT_EXEC != 0)
              && (prot & PROT_READ != 0 ==> was & PROT_READ != 0 || was & (PROT_WRITE | PROT_EXEC) == 0)
  {
  }

  // Reads were refused and are granted now.
  predicate GainsRead(was: bv8, now: bv8) {
    !Permits(was, PROT_READ) && Permits(now, PROT_READ)
  }

  lemma NarrowsRead(was: bv32, prot: bv32)
    requires Narrows(was, prot)
    ensures !GainsRead(ProtToType(was, true), ProtToType(prot, true))
  {
  }

  lemma AllowsRead(flags: bv8, prot: bv32)
    requires Allows(flags, prot)
    ensures GainsRead(flags, ProtToType(prot, true)) <==> flags & PTE_A == 0 && prot & (PROT_READ | PROT_WRITE) != 0
  {
  }

  lemma KeepsRead(flags: bv8)
    ensures !GainsRead(flags, flags)
  {
  }

  // Reading gained in two steps that each keep the flags or take the new ones.
  lemma GainsReadTrans(a: bv8, b: bv8, c: bv8, taken: bv8)
    requires b in {a, taken} && c in {b, taken}
    requires (GainsRead(a, b) ==> a & PTE_A == 0) && (GainsRead(b, c) ==> b & PTE_A == 0)
    ensures GainsRead(a, c) ==> a & PTE_A == 0
  {
    hide Permits;
  }

  lemma NarrowsWX(was: bv32, prot: bv32)
    requires Narrows(was, prot)
    ensures NoMoreWX(ProtToType(prot, true), ProtToType(was, true))
  {
  }

  lemma AllowsWX(flags: bv8, prot: bv32)
    requires Allows(flags, prot)
    ensures NoMoreWX(ProtToType(prot, true), flags)
  {
  }

  lemma NoMoreWXTrans(a: bv8, b: bv8, c: bv8)
    requires NoMoreWX(a, b) && NoMoreWX(b, c)
    ensures NoMoreWX(a, c)
  {
  }

  // The same pages with the same bytes, none with write or execute it did not have, none
  // readable that was not unless it was mapped with no permission (its A is clear), and
  // each with its old flags or those of `prot`.
  ghost predicate Narrowed(space: Space, space': Space, prot: bv32) {
    && space'.Keys == space.Keys
    && (forall w :: w in space ==> space'[w].bytes == space[w].bytes && NoMoreWX(space'[w].flags, space[w].flags))
    && (forall w :: w in space ==> space'[w].flags in {space[w].flags, ProtToType(prot, true)})
    && (forall w :: w in space && GainsRead(space[w].flags, space'[w].flags) ==> space[w].flags & PTE_A == 0)
  }

  lemma NarrowedRefl(space: Space, prot: bv32)
    ensures Narrowed(space, space, prot)
  {
    hide NoMoreWX, GainsRead, ProtToType;
    forall w | w in space
      ensures NoMoreWX(space[w].flags, space[w].flags) && !GainsRead(space[w].flags, space[w].flags)
    {
      OwnBound(space[w].flags);
      KeepsRead(space[w].flags);
    }
  }

  lemma NarrowedTrans(a: Space, b: Space, c: Space, prot: bv32)
    requires Narrowed(a, b, prot) && Narrowed(b, c, prot)
    ensures Narrowed(a, c, prot)
  {
    hide NoMoreWX, GainsRead, ProtToType;
    forall w | w in a
      ensures NoMoreWX(c[w].flags, a[w].flags) && (GainsRead(a[w].flags, c[w].flags) ==> a[w].flags & PTE_A == 0)
    {
      NoMoreWXTrans(c[w].flags, b[w].flags, a[w].flags);
      GainsReadTrans(a[w].flags, b[w].flags, c[w].flags, ProtToType(prot, true));
    }
  }

  lemma NarrowedBound(a: Space, b: Space, prot: bv32, born: map<nat, bv32>)
    requires Narrowed(a, b, prot) && WXBounded(a, born)
    ensures WXBounded(b, born)
  {
    hide NoMoreWX, GainsRead, ProtToType;
    forall w | w in b ensures w in born && NoMoreWX(b[w].flags, ProtToType(born[w], true)) {
      NoMoreWXTrans(b[w].flags, a[w].flags, ProtToType(born[w], true));
    }
  }

  // Narrowing a region's protection.
  lemma NarrowRegion(slots: map<nat, Entry>, mem: Memory, vmrs: map<RegionId, Vmr>, contents: seq<seq<bv8>>,
                     v: RegionId, prot: bv32)
    requires v in vmrs && Narrows(vmrs[v].prot, prot) && Covered(slots, vmrs)
    ensures Narrowed(SpaceOf(slots, mem, vmrs, contents),
              SpaceOf(slots, mem, vmrs[v := vmrs[v].(prot := prot)], contents), prot)
  {
    hide NoMoreWX, GainsRead, ProtToType, Narrows;
    var vmrs' := vmrs[v := vmrs[v].(prot := prot)];
    var a, b := SpaceOf(slots, mem, vmrs, contents), SpaceOf(slots, mem, vmrs', contents);
    NarrowedRefl(a, prot);
    NarrowsWX(vmrs[v].prot, prot);
    NarrowsRead(vmrs[v].prot, prot);
    forall w | w in slots && slots[w] == Lazy(v)
      ensures b[w].bytes == a[w].bytes && a[w].flags == ProtToType(vmrs[v].prot, true) {
      SameRegionBytes(vmrs[v], vmrs'[v], contents, w);
    }
    forall w | w in slots && slots[w] != Lazy(v) ensures b[w] == a[w] { }
  }

  lemma SameRegionBytes(r: Vmr, r': Vmr, contents: seq<seq<bv8>>, vpn: nat)
    requires r' == r.(prot := r'.prot) && r.addr <= vpn * PGSIZE
    ensures RegionPage(r, contents, vpn).bytes == RegionPage(r', contents, vpn).bytes
  {
    SameRegionPage(r, r.(refcnt := r'.refcnt), contents, vpn);
    var a, b := RegionPage(r, contents, vpn).bytes, RegionPage(r', contents, vpn).bytes;
    forall i | 0 <= i < PGSIZE ensures a[i] == b[i] {
      var k := vpn * PGSIZE - r.addr + i;
      assert a[i] == RegionByte(r, contents, k) && b[i] == RegionByte(r', contents, k);
    }
    assert a == b;
  }

  lemma PageNarrowed(a: Space, b: Space, vpn: nat, prot: bv32)
    requires vpn in a && vpn in b && Allows(a[vpn].flags, prot)
    requires a - {vpn} == b - {vpn} && b[vpn] == a[vpn].(flags := ProtToType(prot, true))
    ensures Narrowed(a, b, prot)
  {
    hide NoMoreWX, GainsRead, ProtToType, Allows;
    forall w | w in a && w != vpn ensures w in b && b[w] == a[w] {
      assert w in a - {vpn} && w in b - {vpn};
    }
    forall w | w in b && w != vpn ensures w in a {
      assert w in b - {vpn};
    }
    assert b.Keys == a.Keys;
    NarrowedRefl(a, prot);
    AllowsWX(a[vpn].flags, prot);
    AllowsRead(a[vpn].flags, prot);
  }

  // Narrowing one populated page.
  lemma NarrowLeaf(use: map<int, Use>, mem: Memory, slots: map<nat, Entry>, managed: set<int>, free: set<int>,
                   vmrs: map<RegionId, Vmr>, mem': Memory, contents: seq<seq<bv8>>, vpn: nat, t: int, prot: bv32)
    requires Owned(use, mem, slots, managed, free) && SlotAt(slots, vpn).Leaf? && Allows(slots[vpn].flags, prot)
    requires t in use && use[t].AsTable? && (forall p :: p != t ==> SameFrame(mem, mem', p))
    requires Covered(slots, vmrs)
    ensures var slots' := slots[vpn := Leaf(slots[vpn].page, ProtToType(prot, true))];
            Narrowed(SpaceOf(slots, mem, vmrs, contents), SpaceOf(slots', mem', vmrs, contents), prot)
  {
    hide Narrowed, ProtToType, Allows;
    var slots' := slots[vpn := Leaf(slots[vpn].page, ProtToType(prot, true))];
    var a, b := SpaceOf(slots, mem, vmrs, contents), SpaceOf(slots', mem', vmrs, contents);
    forall p | p in use && use[p].AsData? ensures SameFrame(mem, mem', p) { }
    ShrunkRefl(vmrs);
    assert Covered(slots', vmrs);
    SameViews(use, mem, slots, managed, free, vmrs, mem', slots', vmrs, contents, vpn);
    PageNarrowed(a, b, vpn, prot);
  }

  // do_mprotect accepts this page.
  ghost predicate Protectable(slots: map<nat, Entry>, vmrs: map<RegionId, Vmr>, vpn: nat, prot: bv32) {
    match SlotAt(slots, vpn)
    case Leaf(_, flags) => Allows(flags, prot)
    case Lazy(v) => v in vmrs && Narrows(vmrs[v].prot, prot)
    case _ => false
  }

  // The flags a slot is seen with.
  function SeenAs(slots: map<nat, Entry>, vmrs: map<RegionId, Vmr>, vpn: nat): bv8 {
    match SlotAt(slots, vpn)
    case Leaf(_, flags) => flags
    case Lazy(v) => if v in vmrs then ProtToType(vmrs[v].prot, true) else 0
    case _ => 0
  }

  // When mprotect makes a page readable that was not: exactly when it is populated, was
  // mapped or protected with no permission at all, and reading is now asked for.
  lemma ReadGained(slots: map<nat, Entry>, vmrs: map<RegionId, Vmr>, vpn: nat, prot: bv32)
    requires Protectable(slots, vmrs, vpn, prot)
    ensures GainsRead(SeenAs(slots, vmrs, vpn), ProtToType(prot, true)) <==>
              SlotAt(slots, vpn).Leaf? && slots[vpn].flags & PTE_A == 0 && prot & (PROT_READ | PROT_WRITE) != 0
  {
    hide GainsRead, ProtToType, Allows, Narrows;
    match SlotAt(slots, vpn)
    case Leaf(_, flags) => AllowsRead(flags, prot);
    case Lazy(v) => NarrowsRead(vmrs[v].prot, prot);
  }

  // The first page of lo .. hi - 1 that does not, and whether it is mapped.
  ghost predicate FirstRefusal(slots: map<nat, Entry>, vmrs: map<RegionId, Vmr>, lo: nat, hi: nat, prot: bv32,
                               mapped: bool) {
    exists w :: lo <= w < hi && !Protectable(slots, vmrs, w, prot) && (mapped <==> w in slots) &&
                forall u :: lo <= u < w ==> Protectable(slots, vmrs, u, prot)
  }

  // Some user page from page lo on does not.
  ghost predicate Refused(slots: map<nat, Entry>, vmrs: map<RegionId, Vmr>, lo: nat, prot: bv32) {
    exists w :: lo <= w < USER_PAGES && !Protectable(slots, vmrs, w, prot)
  }

  lemma RefusedLater(slots: map<nat, Entry>, vmrs: map<RegionId, Vmr>, lo: nat, hi: nat, prot: bv32)
    requires Refused(slots, vmrs, lo, prot) && forall w :: lo <= w < hi ==> Protectable(slots, vmrs, w, prot)
    ensures lo <= hi ==> hi < USER_PAGES
  {
  }

  // Page w is page vpn, or held lazily by the same region.
  ghost predicate Touches(slots: map<nat, Entry>, w: nat, vpn: nat) {
    w == vpn || (SlotAt(slots, vpn).Lazy? && SlotAt(slots, w) == SlotAt(slots, vpn))
  }

  ghost predicate SameFlags(space: Space, space': Space, w: nat) {
    (w in space <==> w in space') && (w in space ==> space'[w].flags == space[w].flags)
  }

  // Pages that share nothing with page vpn keep their flags.
  ghost predicate FlagsExcept(slots: map<nat, Entry>, space: Space, space': Space, vpn: nat) {
    forall w: nat :: !Touches(slots, w, vpn) ==> SameFlags(space, space', w)
  }

  // Pages that share nothing with pages lo .. hi - 1 do.
  ghost predicate FlagsElsewhere(slots: map<nat, Entry>, space: Space, space': Space, lo: nat, hi: nat) {
    forall w: nat :: (forall u: nat :: lo <= u < hi ==> !Touches(slots, w, u)) ==> SameFlags(space, space', w)
  }

  ghost predicate SameLazy(slots: map<nat, Entry>, slots': map<nat, Entry>) {
    forall w: nat :: SlotAt(slots, w).Lazy? || SlotAt(slots', w).Lazy? ==> SlotAt(slots', w) == SlotAt(slots, w)
  }

  lemma FlagsNext(slots0: map<nat, Entry>, slots: map<nat, Entry>, space0: Space, space: Space, space': Space, lo: nat,
                  hi: nat)
    requires FlagsElsewhere(slots0, space0, space, lo, hi) && SameLazy(slots0, slots) &&
              FlagsExcept(slots, space, space', hi) && lo <= hi
    ensures FlagsElsewhere(slots0, space0, space', lo, hi + 1)
  {
    forall w: nat | forall u: nat :: lo <= u < hi + 1 ==> !Touches(slots0, w, u)
      ensures SameFlags(space0, space', w)
    {
      assert !Touches(slots0, w, hi);
      assert SlotAt(slots, w).Lazy? ==> SlotAt(slots, w) == SlotAt(slots0, w);
      assert !Touches(slots, w, hi);
      assert forall u: nat :: lo <= u < hi ==> !Touches(slots0, w, u);
      assert SameFlags(space0, space, w) && SameFlags(space, space', w);
    }
  }

  lemma FlagsRefl(slots: map<nat, Entry>, space: Space, lo: nat, hi: nat)
    ensures FlagsElsewhere(slots, space, space, lo, hi) && SameLazy(slots, slots)
  {
  }

  lemma LazyTrans(slots0: map<nat, Entry>, slots1: map<nat, Entry>, slots: map<nat, Entry>)
    requires SameLazy(slots0, slots1) && SameLazy(slots1, slots)
    ensures SameLazy(slots0, slots)
  {
  }

  lemma FlagsWider(slots: map<nat, Entry>, space: Space, space': Space, lo: nat, hi: nat, hi': nat)
    requires FlagsElsewhere(slots, space, space', lo, hi) && hi <= hi'
    ensures FlagsElsewhere(slots, space, space', lo, hi')
  {
    forall w: nat | forall u: nat :: lo <= u < hi' ==> !Touches(slots, w, u)
      ensures SameFlags(space, space', w)
    {
      assert forall u: nat :: lo <= u < hi ==> !Touches(slots, w, u);
    }
  }

  // Changing a region's protection changes the flags of the pages it holds.
  lemma RegionFlags(slots: map<nat, Entry>, mem: Memory, vmrs: map<RegionId, Vmr>, contents: seq<seq<bv8>>, v: RegionId,
                    prot: bv32, vpn: nat)
    requires SlotAt(slots, vpn) == Lazy(v) && v in vmrs
    ensures FlagsExcept(slots, SpaceOf(slots, mem, vmrs, contents),
              SpaceOf(slots, mem, vmrs[v := vmrs[v].(prot := prot)], contents), vpn)
  {
  }

  lemma LeafFlags(slots: map<nat, Entry>, mem: Memory, mem': Memory, vmrs: map<RegionId, Vmr>, contents: seq<seq<bv8>>,
                  vpn: nat, e: Entry)
    requires SlotAt(slots, vpn).Leaf? && e.Leaf?
    ensures FlagsExcept(slots, SpaceOf(slots, mem, vmrs, contents), SpaceOf(slots[vpn := e], mem', vmrs, contents), vpn)
    ensures SameLazy(slots, slots[vpn := e])
  {
  }

  // Once a page has taken `prot` it still would.
  lemma ProtectAgain(prot: bv32)
    ensures Narrows(prot, prot) && Allows(ProtToType(prot, true), prot)
  {
  }
}
