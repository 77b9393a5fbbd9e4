// The three-level Sv39 page table of pk/mmap.c as words in physical pages, and the
// flat map from user page number to slot that it represents.

module PageTable {
  const PGSIZE := 4096
  const FANOUT := 512
  const USER_PAGES := 0x400_0000   // pages below KVA_START's mirror: 2^38 / PGSIZE

  // A vmr_t record: its page and its index in the page's array of records.
  datatype RegionId = RegionId(page: int, index: nat)

  // A page-table word. Empty is 0, Lazy a pointer to a region record (bit PTE_V
  // clear), the other two have PTE_V set.
  datatype Entry = Empty | Table(page: int) | Leaf(page: int, flags: bv8) | Lazy(region: RegionId)

  // What a physical page holds.
  datatype Frame = Data(bytes: seq<bv8>) | Words(words: seq<Entry>) | Regions

  type Memory = map<int, Frame>

  // Page-table page of a level (2 is the root) for one aligned block of user pages.
  datatype Key = Key(level: nat, prefix: nat)

  // The one use of a page that is not free.
  datatype Use = AsTable(key: Key) | AsData(vpn: nat) | AsRegions | Reserved

  function ZeroBytes(): seq<bv8> { seq(PGSIZE, i => 0) }

  function NoWords(): seq<Entry> { seq(FANOUT, i => Empty) }

  // The words of a page; an arbitrary empty table for a page that holds none.
  function WordsOf(mem: Memory, p: int): (r: seq<Entry>)
    ensures |r| == FANOUT
  {
    if p in mem && mem[p].Words? && |mem[p].words| == FANOUT then mem[p].words else NoWords()
  }

  ghost predicate HoldsWords(mem: Memory, p: int) {
    p in mem && mem[p].Words? && |mem[p].words| == FANOUT
  }

  // User pages below one word of a table page at `level`.
  function Span(level: nat): (r: nat)
    requires level <= 2
    ensures r > 0
  {
    if level == 0 then 1 else if level == 1 then 512 else 512 * 512
  }

  // pt_idx
  function PtIdx(vpn: nat, level: nat): (r: nat)
    requires level <= 2
    ensures r < FANOUT
  {
    (vpn / Span(level)) % FANOUT
  }

  function KeyOf(vpn: nat, level: nat): Key
    requires level <= 2
  {
    Key(level, vpn / Span(level) / FANOUT)
  }

  // Keys of page-table pages that serve user addresses.
  predicate UserKey(k: Key) {
    k.level <= 2 && k.prefix < (if k.level == 0 then 0x2_0000 else if k.level == 1 then 0x100 else 1)
  }

  function Child(k: Key, i: nat): Key
    requires k.level > 0
  {
    Key(k.level - 1, k.prefix * FANOUT + i)
  }

  function Parent(k: Key): Key {
    Key(k.level + 1, k.prefix / FANOUT)
  }

  lemma KeyChain(vpn: nat, level: nat)
    requires vpn < USER_PAGES && level <= 2
    ensures UserKey(KeyOf(vpn, level))
    ensures level > 0 ==> Child(KeyOf(vpn, level), PtIdx(vpn, level)) == KeyOf(vpn, level - 1)
    ensures level < 2 ==> Parent(KeyOf(vpn, level)) == KeyOf(vpn, level + 1)
    ensures level == 2 ==> KeyOf(vpn, level) == Key(2, 0)
    ensures level == 0 ==> KeyOf(vpn, level) == Key(0, vpn / FANOUT) && PtIdx(vpn, level) == vpn % FANOUT
  {
  }

  // The table pages form a tree rooted at `root`: the page of every key but the root's
  // is named by exactly the right word of its parent, every other user word of an inner
  // table is empty, and no page serves two keys.
  ghost predicate Radix(mem: Memory, root: int, tables: map<Key, int>, use: map<int, Use>) {
    && Key(2, 0) in tables && tables[Key(2, 0)] == root
    && (forall k :: k in tables ==> UserKey(k) && HoldsWords(mem, tables[k]))
    && (forall k :: k in tables ==> tables[k] in use && use[tables[k]] == AsTable(k))
    && (forall p :: p in use && use[p].AsTable? ==> use[p].key in tables && tables[use[p].key] == p)
    && (forall k :: k in tables && k.level < 2 ==> Parent(k) in tables)
    && Linked(mem, tables)
  }

  ghost predicate Linked(mem: Memory, tables: map<Key, int>) {
    forall k, i :: k in tables && k.level > 0 && 0 <= i < FANOUT && UserKey(Child(k, i)) ==>
      WordsOf(mem, tables[k])[i] == Link(tables, Child(k, i))
  }

  // The word that leads to the table for a key.
  function Link(tables: map<Key, int>, k: Key): Entry {
    if k in tables then Table(tables[k]) else Empty
  }

  // What one step of a walk finds.
  lemma WalkStep(mem: Memory, root: int, tables: map<Key, int>, use: map<int, Use>, vpn: nat, level: nat)
    requires Radix(mem, root, tables, use) && vpn < USER_PAGES && level <= 2
    ensures KeyOf(vpn, 2) == Key(2, 0) && KeyOf(vpn, 2) in tables && root == tables[KeyOf(vpn, 2)]
    ensures KeyOf(vpn, 0) == Key(0, vpn / FANOUT)
    ensures KeyOf(vpn, 0) in tables ==> KeyOf(vpn, 1) in tables
    ensures KeyOf(vpn, level) in tables ==> tables[KeyOf(vpn, level)] in use
    ensures KeyOf(vpn, level) in tables && level > 0 ==>
              WordsOf(mem, tables[KeyOf(vpn, level)])[PtIdx(vpn, level)] == Link(tables, KeyOf(vpn, level - 1))
  {
    KeyChain(vpn, level);
    KeyChain(vpn, 2);
    KeyChain(vpn, 1);
    KeyChain(vpn, 0);
    if level > 0 {
      KeyChain(vpn, level - 1);
    }
  }

  // The word the walk for `vpn` ends at.
  function SlotWord(mem: Memory, tables: map<Key, int>, vpn: nat): Entry {
    if Key(0, vpn / FANOUT) in tables then WordsOf(mem, tables[Key(0, vpn / FANOUT)])[vpn % FANOUT] else Empty
  }

  function SlotAt(slots: map<nat, Entry>, vpn: nat): Entry {
    if vpn in slots then slots[vpn] else Empty
  }

  // The table represents the flat map `slots` of its non-empty words.
  ghost predicate Represents(mem: Memory, tables: map<Key, int>, slots: map<nat, Entry>) {
    && (forall vpn :: vpn in slots ==> vpn < USER_PAGES && (slots[vpn].Leaf? || slots[vpn].Lazy?))
    && (forall vpn: nat {:trigger SlotAt(slots, vpn)} :: vpn < USER_PAGES ==>
         SlotWord(mem, tables, vpn) == SlotAt(slots, vpn))
  }

  function WithWord(mem: Memory, p: int, i: nat, e: Entry): Memory
    requires i < FANOUT
  {
    mem[p := Words(WordsOf(mem, p)[i := e])]
  }

  // Writing a page that is no table page leaves the tree and its flat map alone.
  lemma WriteElsewhere(mem: Memory, root: int, tables: map<Key, int>, use: map<int, Use>, slots: map<nat, Entry>,
                       p: int, frame: Frame)
    requires Radix(mem, root, tables, use) && Represents(mem, tables, slots)
    requires p in use ==> !use[p].AsTable?
    ensures Radix(mem[p := frame], root, tables, use) && Represents(mem[p := frame], tables, slots)
  {
    var mem' := mem[p := frame];
    forall k | k in tables ensures WordsOf(mem', tables[k]) == WordsOf(mem, tables[k]) { }
    forall vpn: nat | vpn < USER_PAGES ensures SlotWord(mem', tables, vpn) == SlotAt(slots, vpn) {
      assert SlotWord(mem, tables, vpn) == SlotAt(slots, vpn);
    }
  }

  // Giving a page a use other than as a table, or taking such a use away.
  lemma Reuse(mem: Memory, root: int, tables: map<Key, int>, use: map<int, Use>, use': map<int, Use>)
    requires Radix(mem, root, tables, use)
    requires forall p :: p in use && use[p].AsTable? ==> p in use' && use'[p] == use[p]
    requires forall p :: p in use' && use'[p].AsTable? ==> p in use && use'[p] == use[p]
    ensures Radix(mem, root, tables, use')
  {
  }

  // __walk_create's step: a fresh zeroed page becomes the table for child i of key k.
  function WithTable(mem: Memory, t: int, i: nat, p: int): Memory
    requires i < FANOUT
  {
    WithWord(mem[p := Words(NoWords())], t, i, Table(p))
  }

  // It makes no difference that the page was zeroed as data first.
  lemma SameTable(mem: Memory, t: int, i: nat, p: int)
    requires i < FANOUT && t != p
    ensures WithTable(mem[p := Data(ZeroBytes())], t, i, p) == WithTable(mem, t, i, p)
  {
    assert mem[p := Data(ZeroBytes())][p := Words(NoWords())] == mem[p := Words(NoWords())];
  }

  lemma AddTableLinks(mem: Memory, tables: map<Key, int>, k: Key, i: nat, p: int)
    requires Linked(mem, tables) && k in tables && 0 < k.level <= 2 && i < FANOUT && Child(k, i) !in tables
    requires forall l :: l in tables ==> tables[l] != p && (l != k ==> tables[l] != tables[k])
    requires forall l :: l in tables && l.level < 2 ==> Parent(l) in tables
    ensures Linked(WithTable(mem, tables[k], i, p), tables[Child(k, i) := p])
  {
    var c := Child(k, i);
    var mem' := WithTable(mem, tables[k], i, p);
    var tables' := tables[c := p];
    forall l, j | l in tables' && l.level > 0 && 0 <= j < FANOUT && UserKey(Child(l, j))
      ensures WordsOf(mem', tables'[l])[j] == Link(tables', Child(l, j))
    {
      assert Parent(Child(l, j)) == l && Parent(c) == k;
      if l == c {
        assert WordsOf(mem', p) == NoWords();
      } else {
        assert WordsOf(mem, tables[l])[j] == Link(tables, Child(l, j));
        assert WordsOf(mem', tables[l])
            == if l == k then WordsOf(mem, tables[k])[i := Table(p)] else WordsOf(mem, tables[l]);
      }
    }
  }

  lemma AddTableSlots(mem: Memory, tables: map<Key, int>, slots: map<nat, Entry>, k: Key, i: nat, p: int)
    requires Represents(mem, tables, slots)
    requires k in tables && k.level > 0 && i < FANOUT && Child(k, i) !in tables
    requires forall l :: l in tables ==> tables[l] != p && (l != k ==> tables[l] != tables[k])
    ensures Represents(WithTable(mem, tables[k], i, p), tables[Child(k, i) := p], slots)
  {
    var mem' := WithTable(mem, tables[k], i, p);
    var tables' := tables[Child(k, i) := p];
    forall vpn: nat | vpn < USER_PAGES ensures SlotWord(mem', tables', vpn) == SlotAt(slots, vpn) {
      assert SlotWord(mem, tables, vpn) == SlotAt(slots, vpn);
    }
  }

  lemma AddTable(mem: Memory, root: int, tables: map<Key, int>, use: map<int, Use>, slots: map<nat, Entry>, k: Key,
                 i: nat, p: int)
    requires Radix(mem, root, tables, use) && Represents(mem, tables, slots)
    requires k in tables && k.level > 0 && i < FANOUT && UserKey(Child(k, i)) && Child(k, i) !in tables
    requires p !in use
    ensures var mem' := WithTable(mem, tables[k], i, p);
            var tables' := tables[Child(k, i) := p];
            Radix(mem', root, tables', use[p := AsTable(Child(k, i))]) && Represents(mem', tables', slots)
  {
    AddTableLinks(mem, tables, k, i, p);
    AddTableSlots(mem, tables, slots, k, i, p);
    hide Linked, Represents;
    assert Parent(Child(k, i)) == k;
  }

  // Writing one slot changes that user page's slot and no other.
  lemma SetSlot(mem: Memory, root: int, tables: map<Key, int>, use: map<int, Use>, slots: map<nat, Entry>, vpn: nat,
                e: Entry)
    requires Radix(mem, root, tables, use) && Represents(mem, tables, slots)
    requires vpn < USER_PAGES && Key(0, vpn / FANOUT) in tables
    requires !e.Table?
    ensures var mem' := WithWord(mem, tables[Key(0, vpn / FANOUT)], vpn % FANOUT, e);
            var slots' := if e == Empty then slots - {vpn} else slots[vpn := e];
            Radix(mem', root, tables, use) && Represents(mem', tables, slots')
  {
    var k := Key(0, vpn / FANOUT);
    var mem' := WithWord(mem, tables[k], vpn % FANOUT, e);
    var slots' := if e == Empty then slots - {vpn} else slots[vpn := e];
    forall l | l in tables && l != k ensures WordsOf(mem', tables[l]) == WordsOf(mem, tables[l]) { }
    forall v: nat | v < USER_PAGES ensures SlotWord(mem', tables, v) == SlotAt(slots', v) {
      assert SlotWord(mem, tables, v) == SlotAt(slots, v);
      if v != vpn && v / FANOUT == vpn / FANOUT {
        assert v % FANOUT != vpn % FANOUT;
      }
    }
  }

  // The tables the walk for vpn passes through below the root.
  function Chain(vpn: nat): set<Key> {
    {KeyOf(vpn, 1), KeyOf(vpn, 0)}
  }

  lemma InChain(vpn: nat, level: nat)
    requires level < 2
    ensures KeyOf(vpn, level) in Chain(vpn)
  {
  }

  lemma KeyLevel(vpn: nat, level: nat)
    requires level <= 2
    ensures KeyOf(vpn, level).level == level
  {
  }

  // Distinct user pages never share a slot.
  lemma SlotsDistinct(mem: Memory, root: int, tables: map<Key, int>, use: map<int, Use>, v: nat, w: nat)
    requires Radix(mem, root, tables, use)
    requires Key(0, v / FANOUT) in tables && Key(0, w / FANOUT) in tables && v != w
    ensures (tables[Key(0, v / FANOUT)], v % FANOUT) != (tables[Key(0, w / FANOUT)], w % FANOUT)
  {
    if v / FANOUT == w / FANOUT {
      assert v % FANOUT != w % FANOUT;
    }
  }

  // Tables of one level for blocks lo .. hi - 1.
  ghost function Level(level: nat, lo: nat, hi: nat): (r: set<Key>)
    ensures forall k :: k in r <==> k.level == level && lo <= k.prefix < hi
    decreases hi - lo
  {
    if lo >= hi then {} else Level(level, lo, hi - 1) + {Key(level, hi - 1)}
  }

  lemma {:induction false} LevelSize(level: nat, lo: nat, hi: nat)
    requires lo <= hi
    ensures |Level(level, lo, hi)| == hi - lo
    decreases hi - lo
  {
    if lo < hi {
      LevelSize(level, lo, hi - 1);
    }
  }

  // Every table below the root that n pages from vpn on can need.
  ghost function Needed(vpn: nat, n: nat): set<Key>
    requires n > 0
  {
    Level(1, vpn / FANOUT / FANOUT, (vpn + n - 1) / FANOUT / FANOUT + 1) +
    Level(0, vpn / FANOUT, (vpn + n - 1) / FANOUT + 1)
  }

  lemma ChainNeeded(vpn: nat, n: nat, w: nat)
    requires vpn <= w < vpn + n
    ensures Chain(w) <= Needed(vpn, n)
  {
  }

  lemma BlocksSpanned(v: nat, m: nat)
    ensures (v + m) / 512 + 1 - v / 512 <= m / 512 + 2
    ensures (v + m) / 512 / 512 + 1 - v / 512 / 512 <= m / 0x4_0000 + 2
  {
  }

  lemma NeededSize(vpn: nat, n: nat)
    requires n > 0
    ensures |Needed(vpn, n)| <= (n - 1) / 512 + 2 + (n - 1) / 0x4_0000 + 2
  {
    var last := vpn + n - 1;
    var lo1, hi1, lo0, hi0 := vpn / FANOUT / FANOUT, last / FANOUT / FANOUT + 1, vpn / FANOUT, last / FANOUT + 1;
    assert Needed(vpn, n) == Level(1, lo1, hi1) + Level(0, lo0, hi0);
    assert lo1 <= hi1 && lo0 <= hi0;
    assert hi0 - lo0 <= (n - 1) / 512 + 2 && hi1 - lo1 <= (n - 1) / 0x4_0000 + 2 by { BlocksSpanned(vpn, n - 1); }
    hide Needed, Level;
    TwoLevels(lo1, hi1, lo0, hi0);
  }

  lemma TwoLevels(lo1: nat, hi1: nat, lo0: nat, hi0: nat)
    requires lo1 <= hi1 && lo0 <= hi0
    ensures |Level(1, lo1, hi1) + Level(0, lo0, hi0)| == hi1 - lo1 + hi0 - lo0
  {
    LevelSize(1, lo1, hi1);
    LevelSize(0, lo0, hi0);
    DisjointUnion(Level(1, lo1, hi1), Level(0, lo0, hi0));
  }

  lemma DisjointUnion(a: set<Key>, b: set<Key>)
    requires a !! b
    ensures |a + b| == |a| + |b|
  {
  }

  // The slack in __do_mmap's admission check covers one page of region records and
  // every table page.
  lemma NeededFits(vpn: nat, n: nat)
    requires n > 0
    ensures n + 1 + |Needed(vpn, n)| <= n * 17 / 16 + 16
  {
    NeededSize(vpn, n);
  }

  // From (use, mem) to (use', mem'), pages were only taken, and only as tables; what
  // the other used pages hold is as it was.
  ghost predicate OnlyTablesAdded(use: map<int, Use>, mem: Memory, use': map<int, Use>, mem': Memory) {
    && (forall p :: p in use ==> p in use' && use'[p] == use[p])
    && (forall p :: p in use' && p !in use ==> use'[p].AsTable?)
    && (forall p :: p in use && !use[p].AsTable? ==> SameFrame(mem, mem', p))
  }

  ghost predicate SameFrame(mem: Memory, mem': Memory, p: int) {
    (p in mem <==> p in mem') && (p in mem ==> mem'[p] == mem[p])
  }

  lemma OnlyTablesAddedRefl(use: map<int, Use>, mem: Memory)
    ensures OnlyTablesAdded(use, mem, use, mem)
  {
  }

  lemma AddTableFrames(mem: Memory, root: int, tables: map<Key, int>, use: map<int, Use>, k: Key, i: nat, p: int)
    requires Radix(mem, root, tables, use)
    requires k in tables && k.level > 0 && i < FANOUT && p !in use
    ensures OnlyTablesAdded(use, mem, use[p := AsTable(Child(k, i))], WithTable(mem, tables[k], i, p))
  {
  }

  lemma OnlyTablesAddedTrans(use0: map<int, Use>, mem0: Memory, use1: map<int, Use>, mem1: Memory, use2: map<int, Use>,
                             mem2: Memory)
    requires OnlyTablesAdded(use0, mem0, use1, mem1) && OnlyTablesAdded(use1, mem1, use2, mem2)
    ensures OnlyTablesAdded(use0, mem0, use2, mem2)
  {
  }

  // The pages with a use are those handed out.
  ghost predicate Handed(use: map<int, Use>, managed: set<int>, free: set<int>) {
    use.Keys == managed - free && free <= managed
  }

  lemma HandOut(use: map<int, Use>, managed: set<int>, free: set<int>, p: int, u: Use)
    requires Handed(use, managed, free) && p in free
    ensures p !in use && Handed(use[p := u], managed, free - {p})
  {
  }

  lemma HandBack(use: map<int, Use>, managed: set<int>, free: set<int>, p: int)
    requires Handed(use, managed, free) && p in use
    ensures p in managed && p !in free && Handed(use - {p}, managed, free + {p})
  {
  }

  // How many tables of `need` do not exist yet.
  ghost function Missing(need: set<Key>, tables: map<Key, int>): nat {
    |need - tables.Keys|
  }

  lemma MissingAtMost(need: set<Key>, tables: map<Key, int>)
    ensures Missing(need, tables) <= |need|
  {
    assert |need| == |need - tables.Keys| + |need * tables.Keys|;
  }

  lemma MissingStep(need: set<Key>, tables: map<Key, int>, k: Key, p: int)
    requires k in need && k !in tables
    ensures Missing(need, tables[k := p]) + 1 == Missing(need, tables)
  {
    assert need - tables.Keys == (need - tables[k := p].Keys) + {k};
  }

  lemma MissingSome(need: set<Key>, tables: map<Key, int>, k: Key)
    requires k in need && k !in tables
    ensures Missing(need, tables) > 0
  {
    assert k in need - tables.Keys;
  }
}
