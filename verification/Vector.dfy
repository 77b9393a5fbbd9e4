// The emulation of misaligned vector loads and stores, machine/misaligned_vec_ldst.c:
// element by element and restartable (sections 3.7 and 7 of the RISC-V "V" extension).

module VectorSpec {
  import opened Powers
  import opened Words

  const XLEN_SIZE: nat := 0x1_0000_0000_0000_0000

  // A decoded instruction with the operands it reads from the integer registers. `isize`
  // is the width in bytes of an index.
  datatype Op = Op(load: bool, masked: bool, indexed: bool, fof: bool, vd: nat, vs2: nat, len: nat, isize: nat,
                   nf: nat, emul: nat, evl: nat, vlenb: nat, base: nat, stride: nat)

  // The first register of segment seg's group.
  function Reg(op: Op, seg: nat): nat { op.vd + seg * op.emul }

  // Byte k of the group.
  function RegPos(op: Op, seg: nat, k: nat): nat { Reg(op, seg) * op.vlenb + k }

  // Element e's first byte in segment seg's group, and segment seg's among an element's.
  function Dest(op: Op, seg: nat, e: nat): nat { RegPos(op, seg, e * op.len) }
  function SegAt(op: Op, seg: nat): nat { seg * op.len }

  // The bytes of a group, and element e's index in its register and in the file.
  function GroupBytes(op: Op): nat { op.emul * op.vlenb }
  function IndexOff(op: Op, e: nat): nat { e * op.isize }
  function IndexAt(op: Op, e: nat): nat { op.vs2 * op.vlenb + e * op.isize }

  // The operands fit their register groups of at most eight registers, the segments'
  // groups do not overlap, and a load's destination overlaps neither the mask nor the
  // index.
  ghost predicate Legal(op: Op) {
    && op.vlenb > 0 && op.len > 0 && 1 <= op.nf <= 8 && SegAt(op, op.nf) <= 64 && 0 < op.isize <= 8
    && (forall seg :: 0 <= seg < op.nf ==> InBlock(Reg(op, seg), op.vlenb, SegAt(op, op.evl)))
    && (op.nf > 1 ==> SegAt(op, op.evl) <= GroupBytes(op))
    && (op.indexed ==> InBlock(op.vs2, op.vlenb, IndexOff(op, op.evl)))
    && (op.masked ==> op.evl <= 8 * op.vlenb)
    && (op.load && op.masked ==> op.vd > 0)
    && (op.load && op.indexed ==>
         IndexAt(op, op.evl) <= Dest(op, 0, 0) || Dest(op, op.nf - 1, op.evl) <= IndexAt(op, 0))
  }

  // `size` bytes from register `which` on lie in its aligned block of eight registers.
  predicate InBlock(which: nat, vlenb: nat, size: nat) {
    which < 32 && which % 8 * vlenb + size <= 8 * vlenb
  }

  lemma BlockInFile(which: nat, vlenb: nat, size: nat)
    requires InBlock(which, vlenb, size)
    ensures which * vlenb + size <= 32 * vlenb
  {
    var b := which / 8;
    assert which * vlenb == 8 * b * vlenb + which % 8 * vlenb by { assert which == 8 * b + which % 8; }
    assert 8 * b * vlenb <= 24 * vlenb by { Grow(8 * b, 24, vlenb); }
  }

  lemma Grow(a: nat, b: nat, c: nat)
    requires a <= b
    ensures a * c <= b * c
  {
    assert (b - a) * c >= 0;
    assert (b - a) * c == b * c - a * c;
  }

  // The instruction as the emulation loop runs it from element e on: at least that one.
  function Entered(op: Op, e: nat): Op {
    if e < op.evl then op else op.(evl := e + 1)
  }

  // What the instruction set itself demands. `group` is the number of registers a segment
  // occupies, `indexGroup` that of the index: powers of two to which the register numbers
  // are aligned. At most eight registers are written, all operands lie in the file, the
  // elements fit their groups, and a load's destination overlaps neither mask nor index.
  ghost predicate IsaLegal(op: Op, group: nat, indexGroup: nat) {
    && group in {1, 2, 4, 8} && indexGroup in {1, 2, 4, 8}
    && (op.nf > 1 ==> group == op.emul)
    && op.nf * group <= 8 && op.vd % group == 0 && op.vd + op.nf * group <= 32
    && op.evl * op.len <= group * op.vlenb
    && (op.indexed ==>
         op.vs2 % indexGroup == 0 && op.vs2 + indexGroup <= 32 && op.evl * op.isize <= indexGroup * op.vlenb)
    && (op.load && op.masked ==> op.vd > 0)
    && (op.load && op.indexed ==> op.vs2 + indexGroup <= op.vd || op.vd + op.nf * group <= op.vs2)
  }

  // An aligned group lies in one block of eight registers.
  lemma AlignedInBlock(which: nat, group: nat, vlenb: nat, size: nat)
    requires group in {1, 2, 4, 8} && which % group == 0 && which + group <= 32 && size <= group * vlenb
    ensures InBlock(which, vlenb, size)
  {
    assert which % 8 + group <= 8;
    Grow(which % 8 + group, 8, vlenb);
    assert (which % 8 + group) * vlenb == which % 8 * vlenb + group * vlenb;
  }

  lemma AlignedGroups(op: Op, group: nat, indexGroup: nat, seg: nat)
    requires IsaLegal(op, group, indexGroup) && seg < op.nf
    ensures Reg(op, seg) % group == 0 && Reg(op, seg) + group <= op.vd + op.nf * group
  {
    if op.nf > 1 {
      Grow(seg + 1, op.nf, group);
      assert (seg + 1) * group == seg * group + group;
      AlignedSum(op.vd, seg, group);
    }
  }

  lemma AlignedSum(vd: nat, seg: nat, group: nat)
    requires group in {1, 2, 4, 8} && vd % group == 0
    ensures (vd + seg * group) % group == 0
  {
    if group == 2 {
    } else if group == 4 {
    } else if group == 8 {
    }
  }

  // An operand that the instruction set allows is one the emulation is right for.
  lemma IsaIsLegal(op: Op, group: nat, indexGroup: nat)
    requires IsaLegal(op, group, indexGroup)
    requires op.vlenb > 0 && op.len > 0 && 1 <= op.nf <= 8 && SegAt(op, op.nf) <= 64 && 0 < op.isize <= 8
    ensures Legal(op)
  {
    hide InBlock;
    forall seg | 0 <= seg < op.nf
      ensures InBlock(Reg(op, seg), op.vlenb, SegAt(op, op.evl))
    {
      AlignedGroups(op, group, indexGroup, seg);
      AlignedInBlock(Reg(op, seg), group, op.vlenb, SegAt(op, op.evl));
    }
    FewElements(op.evl, op.len, group, op.vlenb);
    if op.indexed {
      AlignedInBlock(op.vs2, indexGroup, op.vlenb, IndexOff(op, op.evl));
      if op.load {
        AlignedGroups(op, group, indexGroup, op.nf - 1);
        RangesApart(op, group, indexGroup);
      }
    }
  }

  lemma FewElements(evl: nat, len: nat, group: nat, vlenb: nat)
    requires len > 0 && group <= 8 && evl * len <= group * vlenb
    ensures evl <= 8 * vlenb
  {
    Grow(1, len, evl);
    Grow(group, 8, vlenb);
    assert len * evl == evl * len;
  }

  lemma RangesApart(op: Op, group: nat, indexGroup: nat)
    requires SegAt(op, op.evl) <= group * op.vlenb && IndexOff(op, op.evl) <= indexGroup * op.vlenb && op.nf >= 1
    requires Reg(op, op.nf - 1) + group <= op.vd + op.nf * group
    requires op.vs2 + indexGroup <= op.vd || op.vd + op.nf * group <= op.vs2
    ensures IndexAt(op, op.evl) <= Dest(op, 0, 0) || Dest(op, op.nf - 1, op.evl) <= IndexAt(op, 0)
  {
    if op.vs2 + indexGroup <= op.vd {
      Grow(op.vs2 + indexGroup, op.vd, op.vlenb);
      assert (op.vs2 + indexGroup) * op.vlenb == op.vs2 * op.vlenb + indexGroup * op.vlenb;
    } else {
      Grow(Reg(op, op.nf - 1) + group, op.vs2, op.vlenb);
      assert (Reg(op, op.nf - 1) + group) * op.vlenb == Reg(op, op.nf - 1) * op.vlenb + group * op.vlenb;
    }
  }

  // The bytes of element e in a group.
  lemma ElementIn(op: Op, e: nat, i: nat)
    requires e < op.evl && i <= op.len
    ensures SegAt(op, e) + i <= SegAt(op, op.evl) && (i < op.len ==> SegAt(op, e) + i < SegAt(op, op.evl))
  {
    Grow(e + 1, op.evl, op.len);
    assert (e + 1) * op.len == e * op.len + op.len;
  }

  lemma DestInBlock(op: Op, seg: nat, e: nat)
    requires Legal(op) && seg < op.nf && e < op.evl
    ensures InBlock(Reg(op, seg), op.vlenb, SegAt(op, e) + op.len)
  {
    ElementIn(op, e, op.len);
    assert InBlock(Reg(op, seg), op.vlenb, SegAt(op, op.evl));
  }

  lemma DestInFile(op: Op, seg: nat, e: nat)
    requires Legal(op) && seg < op.nf && e < op.evl
    ensures Dest(op, seg, e) + op.len <= 32 * op.vlenb
  {
    DestInBlock(op, seg, e);
    BlockInFile(Reg(op, seg), op.vlenb, SegAt(op, e) + op.len);
  }

  // ---- Addresses ----

  function LittleEndian(bytes: seq<u8>): nat {
    if bytes == [] then 0 else bytes[0] + 0x100 * LittleEndian(bytes[1..])
  }

  lemma IndexInBlock(op: Op, e: nat)
    requires Legal(op) && op.indexed && e < op.evl
    ensures InBlock(op.vs2, op.vlenb, IndexOff(op, e) + op.isize)
    ensures IndexOff(op, e) + op.isize <= IndexOff(op, op.evl)
  {
    Grow(e + 1, op.evl, op.isize);
    assert (e + 1) * op.isize == e * op.isize + op.isize;
  }

  lemma IndexInFile(op: Op, e: nat)
    requires Legal(op) && op.indexed && e < op.evl
    ensures IndexAt(op, e) + op.isize <= 32 * op.vlenb
    ensures IndexAt(op, 0) <= IndexAt(op, e) && IndexAt(op, e) + op.isize <= IndexAt(op, op.evl)
  {
    hide Legal;
    IndexInBlock(op, e);
    BlockInFile(op.vs2, op.vlenb, IndexOff(op, e) + op.isize);
  }

  ghost predicate File(op: Op, regs: seq<u8>) { Legal(op) && |regs| == 32 * op.vlenb }

  function Strided(op: Op, e: nat): nat { op.base + e * op.stride }

  // The address of element e's first byte, before wrap-around.
  ghost function ElemAddr(op: Op, regs: seq<u8>, e: nat): nat
    requires File(op, regs) && e < op.evl
  {
    if op.indexed then
      IndexInFile(op, e);
      op.base + LittleEndian(regs[IndexAt(op, e)..IndexAt(op, e) + op.isize])
    else Strided(op, e)
  }

  function Addr(a0: nat, j: nat): nat { (a0 + j) % XLEN_SIZE }

  // Bit e of the mask.
  predicate Active(op: Op, mask: seq<u8>, e: nat)
    requires op.masked ==> |mask| == op.vlenb && e < 8 * op.vlenb
  {
    op.masked ==> mask[e / 8] / Pow2(e % 8) % 2 == 1
  }

  // ---- One element ----

  // The first n bytes from a0 can be accessed.
  predicate Accessible(mem: map<nat, u8>, a0: nat, n: nat) { forall j :: 0 <= j < n ==> Addr(a0, j) in mem }

  function Fetch(mem: map<nat, u8>, a0: nat, n: nat): (bytes: seq<u8>)
    requires Accessible(mem, a0, n)
    ensures |bytes| == n && forall j :: 0 <= j < n ==> bytes[j] == mem[Addr(a0, j)]
  {
    if n == 0 then [] else Fetch(mem, a0, n - 1) + [mem[Addr(a0, n - 1)]]
  }

  function Store(mem: map<nat, u8>, a0: nat, bytes: seq<u8>, n: nat): map<nat, u8>
    requires n <= |bytes|
  {
    if n == 0 then mem else Store(mem, a0, bytes, n - 1)[Addr(a0, n - 1) := bytes[n - 1]]
  }

  // Where storing n bytes stops: at n, or at the first byte that traps.
  function Reach(mem: map<nat, u8>, a0: nat, n: nat): (r: nat)
    ensures r <= n && Accessible(mem, a0, r) && (r < n ==> Addr(a0, r) !in mem)
  {
    if n == 0 then 0
    else
      var r := Reach(mem, a0, n - 1);
      if r == n - 1 && Addr(a0, n - 1) in mem then n else r
  }

  // The bytes of the first `segs` segments of element e.
  ghost function Gather(op: Op, regs: seq<u8>, e: nat, segs: nat): (bytes: seq<u8>)
    requires File(op, regs) && e < op.evl && segs <= op.nf
    ensures |bytes| == SegAt(op, segs)
  {
    if segs == 0 then []
    else
      SegmentIn(op, segs - 1);
      DestInFile(op, segs - 1, e);
      var p := Dest(op, segs - 1, e);
      Gather(op, regs, e, segs - 1) + regs[p..p + op.len]
  }

  // One segment's bytes of an element.
  function Segment(op: Op, bytes: seq<u8>, seg: nat): (r: seq<u8>)
    requires seg < op.nf && |bytes| == SegAt(op, op.nf)
    ensures |r| == op.len
  {
    SegmentIn(op, seg);
    bytes[SegAt(op, seg)..SegAt(op, seg) + op.len]
  }

  // `regs` with the first `segs` segments of element e taken from bytes.
  ghost function Scatter(op: Op, regs: seq<u8>, e: nat, bytes: seq<u8>, segs: nat): (r: seq<u8>)
    requires File(op, regs) && e < op.evl && segs <= op.nf && |bytes| == SegAt(op, op.nf)
    ensures |r| == |regs|
  {
    if segs == 0 then regs
    else
      DestInFile(op, segs - 1, e);
      PutAt(Scatter(op, regs, e, bytes, segs - 1), Dest(op, segs - 1, e), Segment(op, bytes, segs - 1))
  }

  function PutAt(regs: seq<u8>, p: nat, bytes: seq<u8>): (r: seq<u8>)
    requires p + |bytes| <= |regs|
    ensures |r| == |regs|
    ensures forall q :: 0 <= q < |regs| ==> r[q] == if p <= q < p + |bytes| then bytes[q - p] else regs[q]
  {
    regs[..p] + bytes + regs[p + |bytes|..]
  }

  lemma SegmentIn(op: Op, seg: nat)
    requires seg < op.nf
    ensures SegAt(op, seg + 1) == SegAt(op, seg) + op.len <= SegAt(op, op.nf)
  {
    Grow(seg + 1, op.nf, op.len);
    assert SegAt(op, seg + 1) == SegAt(op, seg) + op.len;
  }

  // ---- The whole instruction ----

  // Finished, or trapped at an element.
  datatype Outcome = Finished(regs: seq<u8>, mem: map<nat, u8>) | Trapped(at: nat, regs: seq<u8>, mem: map<nat, u8>)

  ghost predicate Ready(op: Op, mask: seq<u8>, regs: seq<u8>, e: nat) {
    File(op, regs) && e < op.evl && (op.masked ==> |mask| == op.vlenb && e < 8 * op.vlenb)
  }

  lemma NextReady(op: Op, mask: seq<u8>, regs: seq<u8>, e: nat, x: nat)
    requires Ready(op, mask, regs, e) && x < op.evl
    ensures Ready(op, mask, regs, x)
  {
  }

  // Element e alone.
  ghost function Element(op: Op, mask: seq<u8>, regs: seq<u8>, mem: map<nat, u8>, e: nat): (o: Outcome)
    requires Ready(op, mask, regs, e)
    ensures |o.regs| == |regs|
  {
    if !Active(op, mask, e) then Finished(regs, mem)
    else
      var (a0, n) := (ElemAddr(op, regs, e), SegAt(op, op.nf));
      if op.load then
        if Accessible(mem, a0, n) then Finished(Scatter(op, regs, e, Fetch(mem, a0, n), op.nf), mem)
        else Trapped(e, regs, mem)
      else
        var (bytes, r) := (Gather(op, regs, e, op.nf), Reach(mem, a0, n));
        if r == n then Finished(regs, Store(mem, a0, bytes, n)) else Trapped(e, regs, Store(mem, a0, bytes, r))
  }

  // From element e on.
  ghost function Exec(op: Op, mask: seq<u8>, regs: seq<u8>, mem: map<nat, u8>, e: nat): (o: Outcome)
    requires Ready(op, mask, regs, e)
    ensures |o.regs| == |regs|
    decreases op.evl - e
  {
    var o := Element(op, mask, regs, mem, e);
    if o.Trapped? || e + 1 >= op.evl || op.fof then o else Exec(op, mask, o.regs, o.mem, e + 1)
  }

  // ---- Restarting ----

  lemma {:induction false} StoreKeys(mem: map<nat, u8>, a0: nat, bytes: seq<u8>, n: nat, extra: map<nat, u8>)
    requires n <= |bytes| && Accessible(mem, a0, n) && mem.Keys !! extra.Keys
    ensures Store(mem, a0, bytes, n).Keys == mem.Keys
    ensures Store(mem, a0, bytes, n) + extra == Store(mem + extra, a0, bytes, n)
  {
    if n > 0 {
      StoreKeys(mem, a0, bytes, n - 1, extra);
    }
  }

  predicate Hits(a0: nat, n: nat, addr: nat) { exists j :: 0 <= j < n && Addr(a0, j) == addr }

  lemma AddrOne(a0: nat, j: nat, k: nat)
    requires j < XLEN_SIZE && k < XLEN_SIZE && Addr(a0, j) == Addr(a0, k)
    ensures j == k
  {
  }

  lemma {:induction false} StoreHit(mem: map<nat, u8>, a0: nat, bytes: seq<u8>, n: nat, j: nat)
    requires j < n <= |bytes| && n <= XLEN_SIZE
    ensures Addr(a0, j) in Store(mem, a0, bytes, n) && Store(mem, a0, bytes, n)[Addr(a0, j)] == bytes[j]
  {
    hide Addr;
    if j < n - 1 {
      StoreHit(mem, a0, bytes, n - 1, j);
      if Addr(a0, j) == Addr(a0, n - 1) {
        AddrOne(a0, j, n - 1);
      }
    }
  }

  lemma {:induction false} StoreMiss(mem: map<nat, u8>, a0: nat, bytes: seq<u8>, n: nat, addr: nat)
    requires n <= |bytes| && !Hits(a0, n, addr)
    ensures addr in Store(mem, a0, bytes, n) <==> addr in mem
    ensures addr in mem ==> Store(mem, a0, bytes, n)[addr] == mem[addr]
  {
    hide Addr;
    if n > 0 {
      assert Addr(a0, n - 1) != addr;
      StoreMiss(mem, a0, bytes, n - 1, addr);
    }
  }

  // Storing again over a store that was cut short leaves no trace of it.
  lemma StoreAgain(mem: map<nat, u8>, a0: nat, bytes: seq<u8>, r: nat, n: nat)
    requires r <= n <= |bytes| && n <= XLEN_SIZE
    ensures Store(Store(mem, a0, bytes, r), a0, bytes, n) == Store(mem, a0, bytes, n)
  {
    hide Addr, Store;
    var cut := Store(mem, a0, bytes, r);
    var (x, y) := (Store(cut, a0, bytes, n), Store(mem, a0, bytes, n));
    forall addr: nat
      ensures (addr in x <==> addr in y) && (addr in x ==> x[addr] == y[addr])
    {
      if Hits(a0, n, addr) {
        var j :| 0 <= j < n && Addr(a0, j) == addr;
        StoreHit(cut, a0, bytes, n, j);
        StoreHit(mem, a0, bytes, n, j);
      } else {
        StoreMiss(cut, a0, bytes, n, addr);
        StoreMiss(mem, a0, bytes, n, addr);
        StoreMiss(mem, a0, bytes, r, addr);
      }
    }
  }

  lemma {:induction false} ReachSame(mem: map<nat, u8>, m: map<nat, u8>, a0: nat, n: nat)
    requires mem.Keys == m.Keys
    ensures Reach(mem, a0, n) == Reach(m, a0, n)
  {
    if n > 0 {
      ReachSame(mem, m, a0, n - 1);
    }
  }

  lemma {:induction false} ReachAll(mem: map<nat, u8>, a0: nat, n: nat)
    ensures Reach(mem, a0, n) == n <==> Accessible(mem, a0, n)
  {
    if n > 0 {
      ReachAll(mem, a0, n - 1);
    }
  }

  lemma {:induction false} ReachMore(mem: map<nat, u8>, extra: map<nat, u8>, a0: nat, n: nat)
    ensures Reach(mem, a0, n) <= Reach(mem + extra, a0, n)
  {
    if n > 0 {
      ReachMore(mem, extra, a0, n - 1);
    }
  }

  lemma {:induction false} FetchMore(mem: map<nat, u8>, extra: map<nat, u8>, a0: nat, n: nat)
    requires Accessible(mem, a0, n) && mem.Keys !! extra.Keys
    ensures Accessible(mem + extra, a0, n) && Fetch(mem + extra, a0, n) == Fetch(mem, a0, n)
  {
    if n > 0 {
      FetchMore(mem, extra, a0, n - 1);
    }
  }

  // An element that does not trap does the same when more memory is accessible.
  lemma ElementMore(op: Op, mask: seq<u8>, regs: seq<u8>, mem: map<nat, u8>, e: nat, extra: map<nat, u8>)
    requires Ready(op, mask, regs, e) && mem.Keys !! extra.Keys
    ensures var o := Element(op, mask, regs, mem, e);
            && o.mem.Keys == mem.Keys
            && (o.Finished? ==> Element(op, mask, regs, mem + extra, e) == Finished(o.regs, o.mem + extra))
  {
    hide Active, ElemAddr, Gather, Scatter, Fetch, Store, Addr;
    if Active(op, mask, e) {
      var (a0, n) := (ElemAddr(op, regs, e), SegAt(op, op.nf));
      if op.load {
        if Accessible(mem, a0, n) {
          FetchMore(mem, extra, a0, n);
        }
      } else {
        var (bytes, r) := (Gather(op, regs, e, op.nf), Reach(mem, a0, n));
        StoreKeys(mem, a0, bytes, r, extra);
        ReachMore(mem, extra, a0, n);
      }
    }
  }

  // A trapped element, done again with more memory accessible.
  lemma ElementAgain(op: Op, mask: seq<u8>, regs: seq<u8>, mem: map<nat, u8>, e: nat, extra: map<nat, u8>)
    requires Ready(op, mask, regs, e) && mem.Keys !! extra.Keys && Element(op, mask, regs, mem, e).Trapped?
    ensures var o := Element(op, mask, regs, mem, e);
            && o.at == e && o.regs == regs
            && Element(op, mask, regs, o.mem + extra, e) == Element(op, mask, regs, mem + extra, e)
  {
    hide Active, ElemAddr, Gather, Scatter, Fetch, Store, Addr;
    var (a0, n) := (ElemAddr(op, regs, e), SegAt(op, op.nf));
    if !op.load {
      var (bytes, r) := (Gather(op, regs, e, op.nf), Reach(mem, a0, n));
      StoreKeys(mem, a0, bytes, r, extra);
      var r' := Reach(mem + extra, a0, n);
      ReachMore(mem, extra, a0, n);
      ReachSame(mem + extra, Store(mem, a0, bytes, r) + extra, a0, n);
      StoreAgain(mem + extra, a0, bytes, r, r');
    }
  }

  // Trapping anywhere and executing again from the saved element, with whatever memory
  // has been made accessible meanwhile, gives what one execution with it would have.
  lemma {:induction false} Restart(op: Op, mask: seq<u8>, regs: seq<u8>, mem: map<nat, u8>, e: nat, extra: map<nat, u8>)
    requires Ready(op, mask, regs, e) && mem.Keys !! extra.Keys && !op.fof
    requires Exec(op, mask, regs, mem, e).Trapped?
    ensures var o := Exec(op, mask, regs, mem, e);
            && e <= o.at < op.evl && o.mem.Keys == mem.Keys && Ready(op, mask, o.regs, o.at)
            && Exec(op, mask, o.regs, o.mem + extra, o.at) == Exec(op, mask, regs, mem + extra, e)
    decreases op.evl - e
  {
    hide Element;
    ElementMore(op, mask, regs, mem, e, extra);
    var o := Element(op, mask, regs, mem, e);
    if o.Trapped? {
      ElementAgain(op, mask, regs, mem, e, extra);
    } else {
      Restart(op, mask, o.regs, o.mem, e + 1, extra);
    }
  }

  lemma {:induction false} ExecMore(op: Op, mask: seq<u8>, regs: seq<u8>, mem: map<nat, u8>, e: nat,
                                    extra: map<nat, u8>)
    requires Ready(op, mask, regs, e) && mem.Keys !! extra.Keys && Exec(op, mask, regs, mem, e).Finished?
    ensures var o := Exec(op, mask, regs, mem, e);
            o.mem.Keys == mem.Keys && Exec(op, mask, regs, mem + extra, e) == Finished(o.regs, o.mem + extra)
    decreases op.evl - e
  {
    hide Element;
    ElementMore(op, mask, regs, mem, e, extra);
    var o := Element(op, mask, regs, mem, e);
    if e + 1 < op.evl && !op.fof {
      ExecMore(op, mask, o.regs, o.mem, e + 1, extra);
    }
  }

  // ---- Which bytes change ----

  // Where element e's bytes lie, group by group.
  lemma DestAt(op: Op, seg: nat, e: nat)
    ensures Dest(op, seg, e) == Dest(op, 0, 0) + seg * GroupBytes(op) + SegAt(op, e)
    ensures Dest(op, seg, e) == Dest(op, seg, 0) + SegAt(op, e)
  {
    assert Reg(op, seg) * op.vlenb == op.vd * op.vlenb + seg * op.emul * op.vlenb;
    assert seg * op.emul * op.vlenb == seg * GroupBytes(op);
  }

  // Element e's bytes in two groups are apart, and so are two elements' bytes.
  lemma Apart(op: Op, seg: nat, seg': nat, e: nat, e': nat, i: nat, i': nat)
    requires Legal(op) && seg < op.nf && seg' < op.nf && e < op.evl && e' < op.evl && i < op.len && i' < op.len
    requires seg != seg' || e != e'
    ensures Dest(op, seg, e) + i != Dest(op, seg', e') + i'
  {
    hide Dest, GroupBytes, InBlock;
    ElementIn(op, e, i);
    ElementIn(op, e', i');
    DestAt(op, seg, e);
    DestAt(op, seg', e');
    if seg == seg' {
      DigitsApart(e, e', op.len, i, i');
    } else {
      DigitsApart(seg, seg', GroupBytes(op), SegAt(op, e) + i, SegAt(op, e') + i');
    }
  }

  lemma DigitsApart(x: nat, y: nat, w: nat, i: nat, j: nat)
    requires i < w && j < w && x != y
    ensures x * w + i != y * w + j
  {
    if x < y {
      Grow(x + 1, y, w);
      assert (x + 1) * w == x * w + w;
    } else {
      Grow(y + 1, x, w);
      assert (y + 1) * w == y * w + w;
    }
  }

  // A byte of one element against another element's bytes in a group.
  lemma ApartFrom(op: Op, seg: nat, seg': nat, e: nat, e': nat, i: nat)
    requires Legal(op) && seg < op.nf && seg' < op.nf && e < op.evl && e' < op.evl && i < op.len
    requires seg != seg' || e != e'
    ensures var (q, p) := (Dest(op, seg, e) + i, Dest(op, seg', e')); q < p || p + op.len <= q
  {
    hide Legal, Dest, SegAt;
    var (q, p) := (Dest(op, seg, e) + i, Dest(op, seg', e'));
    if p <= q < p + op.len {
      Apart(op, seg, seg', e, e', i, q - p);
    }
  }

  lemma ScatterStep(op: Op, regs: seq<u8>, e: nat, bytes: seq<u8>, segs: nat)
    requires File(op, regs) && e < op.evl && 0 < segs <= op.nf && |bytes| == SegAt(op, op.nf)
    ensures Dest(op, segs - 1, e) + op.len <= |regs|
    ensures Scatter(op, regs, e, bytes, segs)
         == PutAt(Scatter(op, regs, e, bytes, segs - 1), Dest(op, segs - 1, e), Segment(op, bytes, segs - 1))
  {
    hide Legal, PutAt, Dest, SegAt;
    DestInFile(op, segs - 1, e);
  }

  lemma {:induction false} ScatterHit(op: Op, regs: seq<u8>, e: nat, bytes: seq<u8>, segs: nat, seg: nat, i: nat)
    requires File(op, regs) && e < op.evl && seg < segs <= op.nf && |bytes| == SegAt(op, op.nf) && i < op.len
    ensures Dest(op, seg, e) + i < |regs| && SegAt(op, seg) + i < |bytes|
    ensures Scatter(op, regs, e, bytes, segs)[Dest(op, seg, e) + i] == bytes[SegAt(op, seg) + i]
    decreases segs
  {
    hide Legal, Dest, SegAt, Scatter, PutAt;
    DestInFile(op, seg, e);
    SegmentIn(op, seg);
    ScatterStep(op, regs, e, bytes, segs);
    if seg < segs - 1 {
      ScatterHit(op, regs, e, bytes, segs - 1, seg, i);
      ApartFrom(op, seg, segs - 1, e, e, i);
    }
  }

  // Byte q is not one of element e's.
  ghost predicate Elsewhere(op: Op, e: nat, q: nat) {
    forall seg :: 0 <= seg < op.nf ==> q < Dest(op, seg, e) || Dest(op, seg, e) + op.len <= q
  }

  lemma {:induction false} ScatterMiss(op: Op, regs: seq<u8>, e: nat, bytes: seq<u8>, segs: nat, q: nat)
    requires File(op, regs) && e < op.evl && segs <= op.nf && |bytes| == SegAt(op, op.nf) && q < |regs| &&
              Elsewhere(op, e, q)
    ensures Scatter(op, regs, e, bytes, segs)[q] == regs[q]
    decreases segs
  {
    hide Legal, Dest, SegAt, PutAt;
    if segs > 0 {
      ScatterStep(op, regs, e, bytes, segs);
      ScatterMiss(op, regs, e, bytes, segs - 1, q);
    }
  }

  lemma OtherElement(op: Op, e: nat, seg: nat, x: nat, i: nat)
    requires Legal(op) && e < op.evl && x < op.evl && e != x && seg < op.nf && i < op.len
    ensures Elsewhere(op, e, Dest(op, seg, x) + i)
  {
    hide Legal, Dest, SegAt;
    forall seg' | 0 <= seg' < op.nf
      ensures var (q, p) := (Dest(op, seg, x) + i, Dest(op, seg', e)); q < p || p + op.len <= q
    {
      ApartFrom(op, seg, seg', x, e, i);
    }
  }

  // Byte q lies in none of the destination groups.
  ghost predicate Outside(op: Op, q: nat) {
    forall seg :: 0 <= seg < op.nf ==> q < Dest(op, seg, 0) || Dest(op, seg, op.evl) <= q
  }

  lemma OutsideElsewhere(op: Op, e: nat, q: nat)
    requires Outside(op, q) && e < op.evl
    ensures Elsewhere(op, e, q)
  {
    hide Dest, SegAt;
    ElementIn(op, e, op.len);
    forall seg | 0 <= seg < op.nf
      ensures q < Dest(op, seg, e) || Dest(op, seg, e) + op.len <= q
    {
      DestAt(op, seg, e);
      DestAt(op, seg, op.evl);
    }
  }

  // The mask and the index lie outside a load's destination.
  lemma MaskOutside(op: Op, q: nat)
    requires Legal(op) && op.load && op.masked && q < op.vlenb
    ensures Outside(op, q)
  {
    forall seg | 0 <= seg < op.nf
      ensures q < Dest(op, seg, 0)
    {
      Grow(1, op.vd + seg * op.emul, op.vlenb);
    }
  }

  lemma DestGrows(op: Op, seg: nat, seg': nat, e: nat)
    requires seg <= seg'
    ensures Dest(op, seg, e) <= Dest(op, seg', e)
  {
    Grow(seg, seg', op.emul);
    Grow(op.vd + seg * op.emul, op.vd + seg' * op.emul, op.vlenb);
  }

  lemma IndexOutside(op: Op, q: nat)
    requires Legal(op) && op.load && op.indexed && IndexAt(op, 0) <= q < IndexAt(op, op.evl)
    ensures Outside(op, q)
  {
    hide Dest, IndexAt;
    forall seg | 0 <= seg < op.nf
      ensures q < Dest(op, seg, 0) || Dest(op, seg, op.evl) <= q
    {
      DestGrows(op, 0, seg, 0);
      DestGrows(op, seg, op.nf - 1, op.evl);
    }
  }

  // A load's element writes its own bytes and no others, and a store's no register.
  lemma ElementRegs(op: Op, mask: seq<u8>, regs: seq<u8>, mem: map<nat, u8>, e: nat, q: nat)
    requires Ready(op, mask, regs, e) && q < |regs| && Elsewhere(op, e, q)
    ensures Element(op, mask, regs, mem, e).regs[q] == regs[q]
  {
    hide Scatter, Gather, Fetch, Store, ElemAddr, Active, Addr;
    if op.load && Active(op, mask, e) {
      var (a0, n) := (ElemAddr(op, regs, e), SegAt(op, op.nf));
      if Accessible(mem, a0, n) {
        ScatterMiss(op, regs, e, Fetch(mem, a0, n), op.nf, q);
      }
    }
  }

  lemma {:induction false} ExecOutside(op: Op, mask: seq<u8>, regs: seq<u8>, mem: map<nat, u8>, e: nat, q: nat)
    requires Ready(op, mask, regs, e) && q < |regs| && Outside(op, q)
    ensures Exec(op, mask, regs, mem, e).regs[q] == regs[q]
    decreases op.evl - e
  {
    hide Element;
    OutsideElsewhere(op, e, q);
    ElementRegs(op, mask, regs, mem, e, q);
    var o := Element(op, mask, regs, mem, e);
    if !o.Trapped? && e + 1 < op.evl && !op.fof {
      ExecOutside(op, mask, o.regs, o.mem, e + 1, q);
    }
  }

  // Bytes of elements already done are left alone.
  lemma {:induction false} ExecBefore(op: Op, mask: seq<u8>, regs: seq<u8>, mem: map<nat, u8>, e: nat, seg: nat, x: nat,
                                      i: nat)
    requires Ready(op, mask, regs, e) && x < e && seg < op.nf && i < op.len
    ensures Dest(op, seg, x) + i < |regs|
    ensures Exec(op, mask, regs, mem, e).regs[Dest(op, seg, x) + i] == regs[Dest(op, seg, x) + i]
    decreases op.evl - e
  {
    hide Element;
    DestInFile(op, seg, x);
    OtherElement(op, e, seg, x, i);
    ElementRegs(op, mask, regs, mem, e, Dest(op, seg, x) + i);
    var o := Element(op, mask, regs, mem, e);
    if !o.Trapped? && e + 1 < op.evl && !op.fof {
      ExecBefore(op, mask, o.regs, o.mem, e + 1, seg, x, i);
    }
  }

  // The addresses do not change under a load's own writes.
  lemma SameAddr(op: Op, mask: seq<u8>, regs: seq<u8>, mem: map<nat, u8>, e: nat, x: nat)
    requires Ready(op, mask, regs, e) && x < op.evl
    ensures File(op, Element(op, mask, regs, mem, e).regs)
    ensures ElemAddr(op, Element(op, mask, regs, mem, e).regs, x) == ElemAddr(op, regs, x)
  {
    hide Element, Elsewhere, Legal, LittleEndian;
    var o := Element(op, mask, regs, mem, e);
    if op.indexed {
      IndexInFile(op, x);
      var lo := IndexAt(op, x);
      if op.load {
        forall q | lo <= q < lo + op.isize
          ensures o.regs[q] == regs[q]
        {
          IndexOutside(op, q);
          OutsideElsewhere(op, e, q);
          ElementRegs(op, mask, regs, mem, e, q);
        }
      } else {
        StoreRegs(op, mask, regs, mem, e);
      }
      SameSlice(o.regs, regs, lo, lo + op.isize);
    }
  }

  lemma SameSlice(a: seq<u8>, b: seq<u8>, lo: nat, hi: nat)
    requires lo <= hi <= |a| == |b| && forall q :: lo <= q < hi ==> a[q] == b[q]
    ensures a[lo..hi] == b[lo..hi]
  {
  }

  lemma StoreRegs(op: Op, mask: seq<u8>, regs: seq<u8>, mem: map<nat, u8>, e: nat)
    requires Ready(op, mask, regs, e) && !op.load
    ensures Element(op, mask, regs, mem, e).regs == regs
  {
    hide Scatter, Gather, Fetch, Store, ElemAddr, Active, Addr;
  }

  // ---- The element-wise meaning ----

  lemma ElementHit(op: Op, mask: seq<u8>, regs: seq<u8>, mem: map<nat, u8>, e: nat, seg: nat, i: nat)
    requires Ready(op, mask, regs, e) && op.load && seg < op.nf && i < op.len &&
              Element(op, mask, regs, mem, e).Finished?
    ensures Dest(op, seg, e) + i < |regs|
    ensures Active(op, mask, e) ==> Addr(ElemAddr(op, regs, e), SegAt(op, seg) + i) in mem
    ensures Element(op, mask, regs, mem, e).regs[Dest(op, seg, e) + i]
         == if Active(op, mask, e) then mem[Addr(ElemAddr(op, regs, e), SegAt(op, seg) + i)]
         else regs[Dest(op, seg, e) + i]
  {
    hide Legal, Dest, SegAt, Scatter, Fetch, Active, ElemAddr, Addr, Element, Accessible;
    DestInFile(op, seg, e);
    LoadIs(op, mask, regs, mem, e);
    if Active(op, mask, e) {
      SegmentIn(op, seg);
      LoadsAt(mem, ElemAddr(op, regs, e), SegAt(op, op.nf), SegAt(op, seg) + i);
      ScatterHit(op, regs, e, Fetch(mem, ElemAddr(op, regs, e), SegAt(op, op.nf)), op.nf, seg, i);
    }
  }

  lemma LoadIs(op: Op, mask: seq<u8>, regs: seq<u8>, mem: map<nat, u8>, e: nat)
    requires Ready(op, mask, regs, e) && op.load && Element(op, mask, regs, mem, e).Finished?
    ensures !Active(op, mask, e) ==> Element(op, mask, regs, mem, e).regs == regs
    ensures Active(op, mask, e) ==>
              var (a0, n) := (ElemAddr(op, regs, e), SegAt(op, op.nf));
              Accessible(mem, a0, n) &&
              Element(op, mask, regs, mem, e).regs == Scatter(op, regs, e, Fetch(mem, a0, n), op.nf)
  {
    hide Legal, Dest, SegAt, Scatter, Fetch, Active, ElemAddr, Addr;
  }

  lemma LoadsAt(mem: map<nat, u8>, a0: nat, n: nat, j: nat)
    requires Accessible(mem, a0, n) && j < n
    ensures Addr(a0, j) in mem && Fetch(mem, a0, n)[j] == mem[Addr(a0, j)]
  {
  }

  // Byte i of segment seg of element x: from memory if the element is active and not
  // before the first, else as it was.
  lemma {:induction false} LoadByte(op: Op, mask: seq<u8>, regs: seq<u8>, mem: map<nat, u8>, e: nat, seg: nat, x: nat,
                                    i: nat)
    requires Ready(op, mask, regs, e) && op.load && !op.fof && Exec(op, mask, regs, mem, e).Finished?
    requires seg < op.nf && x < op.evl && i < op.len
    ensures Dest(op, seg, x) + i < |regs| && Exec(op, mask, regs, mem, e).mem == mem
    ensures e <= x && Active(op, mask, x) ==> Addr(ElemAddr(op, regs, x), SegAt(op, seg) + i) in mem
    ensures Exec(op, mask, regs, mem, e).regs[Dest(op, seg, x) + i]
         == if e <= x && Active(op, mask, x) then mem[Addr(ElemAddr(op, regs, x), SegAt(op, seg) + i)]
         else regs[Dest(op, seg, x) + i]
    decreases op.evl - e
  {
    hide Element, Legal, Dest, SegAt, Active, ElemAddr, Addr;
    DestInFile(op, seg, x);
    LoadMem(op, mask, regs, mem, e);
    SameAddr(op, mask, regs, mem, e, x);
    var o := Element(op, mask, regs, mem, e);
    if x == e {
      ElementHit(op, mask, regs, mem, e, seg, i);
    } else {
      OtherElement(op, e, seg, x, i);
      ElementRegs(op, mask, regs, mem, e, Dest(op, seg, x) + i);
    }
    if e + 1 < op.evl {
      NextReady(op, mask, regs, e, e + 1);
      if x == e {
        ExecBefore(op, mask, o.regs, mem, e + 1, seg, x, i);
      }
      LoadByte(op, mask, o.regs, mem, e + 1, seg, x, i);
    }
  }

  lemma LoadMem(op: Op, mask: seq<u8>, regs: seq<u8>, mem: map<nat, u8>, e: nat)
    requires Ready(op, mask, regs, e) && op.load
    ensures Element(op, mask, regs, mem, e).mem == mem
  {
    hide Scatter, Gather, Fetch, Store, ElemAddr, Active, Addr;
  }

  // Element x stores its byte j at addr.
  ghost predicate Writes(op: Op, mask: seq<u8>, regs: seq<u8>, x: nat, j: nat, addr: nat)
    requires Ready(op, mask, regs, x)
  {
    j < SegAt(op, op.nf) && Active(op, mask, x) && Addr(ElemAddr(op, regs, x), j) == addr
  }

  // A byte that no element from e on writes stays.
  lemma {:induction false} StoreOther(op: Op, mask: seq<u8>, regs: seq<u8>, mem: map<nat, u8>, e: nat, addr: nat)
    requires Ready(op, mask, regs, e) && !op.load && !op.fof && addr in mem
    requires forall x, j :: e <= x < op.evl && 0 <= j ==> !Writes(op, mask, regs, x, j, addr)
    ensures addr in Exec(op, mask, regs, mem, e).mem && Exec(op, mask, regs, mem, e).mem[addr] == mem[addr]
    decreases op.evl - e
  {
    hide Element, Active, ElemAddr, Addr;
    StoreRegs(op, mask, regs, mem, e);
    ElementOther(op, mask, regs, mem, e, addr);
    var o := Element(op, mask, regs, mem, e);
    if !o.Trapped? && e + 1 < op.evl {
      StoreOther(op, mask, regs, o.mem, e + 1, addr);
    }
  }

  lemma ElementOther(op: Op, mask: seq<u8>, regs: seq<u8>, mem: map<nat, u8>, e: nat, addr: nat)
    requires Ready(op, mask, regs, e) && !op.load && addr in mem
    requires forall j :: 0 <= j ==> !Writes(op, mask, regs, e, j, addr)
    ensures addr in Element(op, mask, regs, mem, e).mem && Element(op, mask, regs, mem, e).mem[addr] == mem[addr]
  {
    hide Gather, Store, ElemAddr, Active, Addr, SegAt;
    if Active(op, mask, e) {
      var (a0, n) := (ElemAddr(op, regs, e), SegAt(op, op.nf));
      var r := Reach(mem, a0, n);
      forall j | 0 <= j < n
        ensures Addr(a0, j) != addr
      {
        assert !Writes(op, mask, regs, e, j, addr);
      }
      StoreMiss(mem, a0, Gather(op, regs, e, op.nf), r, addr);
    }
  }

  lemma {:induction false} GatherAt(op: Op, regs: seq<u8>, e: nat, segs: nat, seg: nat, i: nat)
    requires File(op, regs) && e < op.evl && seg < segs <= op.nf && i < op.len
    ensures Dest(op, seg, e) + i < |regs| && SegAt(op, seg) + i < SegAt(op, segs)
    ensures Gather(op, regs, e, segs)[SegAt(op, seg) + i] == regs[Dest(op, seg, e) + i]
    decreases segs
  {
    hide Legal, Dest, SegAt;
    DestInFile(op, seg, e);
    DestInFile(op, segs - 1, e);
    SegmentIn(op, segs - 1);
    if seg < segs - 1 {
      GatherAt(op, regs, e, segs - 1, seg, i);
    }
  }

  lemma ElementStores(op: Op, mask: seq<u8>, regs: seq<u8>, mem: map<nat, u8>, e: nat, seg: nat, i: nat)
    requires Ready(op, mask, regs, e) && !op.load && seg < op.nf && i < op.len &&
              Element(op, mask, regs, mem, e).Finished?
    requires Active(op, mask, e)
    ensures Dest(op, seg, e) + i < |regs|
    ensures var addr := Addr(ElemAddr(op, regs, e), SegAt(op, seg) + i);
            addr in Element(op, mask, regs, mem, e).mem &&
            Element(op, mask, regs, mem, e).mem[addr] == regs[Dest(op, seg, e) + i]
  {
    hide Dest, SegAt, Gather, Store, ElemAddr, Active, Addr;
    GatherAt(op, regs, e, op.nf, seg, i);
    Small(op);
    StoreHit(mem, ElemAddr(op, regs, e), Gather(op, regs, e, op.nf), SegAt(op, op.nf), SegAt(op, seg) + i);
  }

  lemma Small(op: Op)
    requires Legal(op)
    ensures SegAt(op, op.nf) <= 64
  {
  }

  // The last element to write a byte decides it.
  lemma {:induction false} StoreByte(op: Op, mask: seq<u8>, regs: seq<u8>, mem: map<nat, u8>, e: nat, seg: nat, x: nat,
                                     i: nat, addr: nat)
    requires Ready(op, mask, regs, e) && !op.load && !op.fof && Exec(op, mask, regs, mem, e).Finished?
    requires e <= x < op.evl && seg < op.nf && i < op.len && Active(op, mask, x)
    requires addr == Addr(ElemAddr(op, regs, x), SegAt(op, seg) + i)
    requires forall x', j :: x < x' < op.evl && 0 <= j ==> !Writes(op, mask, regs, x', j, addr)
    ensures Dest(op, seg, x) + i < |regs| && Exec(op, mask, regs, mem, e).regs == regs
    ensures addr in Exec(op, mask, regs, mem, e).mem &&
              Exec(op, mask, regs, mem, e).mem[addr] == regs[Dest(op, seg, x) + i]
    decreases op.evl - e
  {
    hide Element, Active, ElemAddr, Addr, Dest, SegAt, Legal;
    DestInFile(op, seg, x);
    StoreRegs(op, mask, regs, mem, e);
    var o := Element(op, mask, regs, mem, e);
    if e + 1 < op.evl {
      NextReady(op, mask, regs, e, e + 1);
    }
    if e < x {
      StoreByte(op, mask, regs, o.mem, e + 1, seg, x, i, addr);
    } else {
      ElementStores(op, mask, regs, mem, e, seg, i);
      if e + 1 < op.evl {
        StoreAllRegs(op, mask, regs, o.mem, e + 1);
        StoreOther(op, mask, regs, o.mem, e + 1, addr);
      }
    }
  }

  lemma {:induction false} StoreAllRegs(op: Op, mask: seq<u8>, regs: seq<u8>, mem: map<nat, u8>, e: nat)
    requires Ready(op, mask, regs, e) && !op.load
    ensures Exec(op, mask, regs, mem, e).regs == regs
    decreases op.evl - e
  {
    hide Element;
    StoreRegs(op, mask, regs, mem, e);
    var o := Element(op, mask, regs, mem, e);
    if !o.Trapped? && e + 1 < op.evl && !op.fof {
      StoreAllRegs(op, mask, regs, o.mem, e + 1);
    }
  }

  // Element x is active and one of its bytes cannot be accessed.
  ghost predicate Faults(op: Op, mask: seq<u8>, regs: seq<u8>, mem: map<nat, u8>, x: nat)
    requires Ready(op, mask, regs, x)
  {
    Active(op, mask, x) && !Accessible(mem, ElemAddr(op, regs, x), SegAt(op, op.nf))
  }

  lemma FaultsOne(op: Op, mask: seq<u8>, regs: seq<u8>, mem: map<nat, u8>, e: nat)
    requires Ready(op, mask, regs, e)
    ensures var o := Element(op, mask, regs, mem, e);
            && (o.Trapped? <==> Faults(op, mask, regs, mem, e)) && (o.Trapped? ==> o.at == e) && o.mem.Keys == mem.Keys
  {
    hide Active, ElemAddr, Gather, Scatter, Fetch, Store, Addr;
    ElementMore(op, mask, regs, mem, e, map[]);
  }

  lemma FaultsSame(op: Op, mask: seq<u8>, regs: seq<u8>, mem: map<nat, u8>, e: nat, x: nat)
    requires Ready(op, mask, regs, e) && Ready(op, mask, regs, x)
    ensures var o := Element(op, mask, regs, mem, e);
            Ready(op, mask, o.regs, x) && (Faults(op, mask, o.regs, o.mem, x) <==> Faults(op, mask, regs, mem, x))
  {
    hide Element, Active, ElemAddr, Addr, Legal;
    SameAddr(op, mask, regs, mem, e, x);
    FaultsOne(op, mask, regs, mem, e);
  }

  // Execution traps exactly at the first element from e on that faults; fault-only-first
  // execution looks at element e alone.
  lemma {:induction false} TrapsAt(op: Op, mask: seq<u8>, regs: seq<u8>, mem: map<nat, u8>, e: nat, x: nat)
    requires Ready(op, mask, regs, e) && Ready(op, mask, regs, x) && e <= x
    ensures var o := Exec(op, mask, regs, mem, e);
            && (o.Trapped? && o.at == x ==> Faults(op, mask, regs, mem, x))
            && (o.Trapped? && x < o.at ==> !Faults(op, mask, regs, mem, x))
            && (o.Finished? && (!op.fof || x == e) ==> !Faults(op, mask, regs, mem, x))
            && (o.Trapped? ==> e <= o.at < op.evl && (op.fof ==> o.at == e))
    decreases op.evl - e
  {
    hide Element, Faults;
    FaultsOne(op, mask, regs, mem, e);
    var o := Element(op, mask, regs, mem, e);
    if !o.Trapped? && e + 1 < op.evl && !op.fof {
      NextReady(op, mask, o.regs, e, e + 1);
      NextReady(op, mask, o.regs, e, if x > e then x else e + 1);
      FaultsSame(op, mask, regs, mem, e, x);
      TrapsAt(op, mask, o.regs, o.mem, e + 1, if x > e then x else e + 1);
    }
  }

  // ---- Any number of traps ----

  function MaskOf(op: Op, regs: seq<u8>): seq<u8>
    requires op.vlenb <= |regs|
  {
    if op.masked then regs[..op.vlenb] else []
  }

  lemma MaskSize(op: Op, regs: seq<u8>)
    requires File(op, regs)
    ensures op.vlenb <= |regs| && (op.masked ==> |MaskOf(op, regs)| == op.vlenb)
    ensures forall e: nat :: e < op.evl ==> Ready(op, MaskOf(op, regs), regs, e)
  {
  }

  // The mask survives the part that was executed.
  lemma MaskKept(op: Op, regs: seq<u8>, mem: map<nat, u8>, e: nat)
    requires File(op, regs) && e < op.evl && op.vlenb <= |regs| && Ready(op, MaskOf(op, regs), regs, e)
    ensures MaskOf(op, Exec(op, MaskOf(op, regs), regs, mem, e).regs) == MaskOf(op, regs)
  {
    hide Exec, Legal, Outside;
    var mask := MaskOf(op, regs);
    var o := Exec(op, mask, regs, mem, e);
    if op.masked {
      if op.load {
        forall q | 0 <= q < op.vlenb
          ensures o.regs[q] == regs[q]
        {
          MaskOutside(op, q);
          ExecOutside(op, mask, regs, mem, e, q);
        }
        SameSlice(o.regs, regs, 0, op.vlenb);
      } else {
        StoreAllRegs(op, mask, regs, mem, e);
      }
    }
  }

  function Union(maps: seq<map<nat, u8>>): map<nat, u8> {
    if maps == [] then map[] else maps[0] + Union(maps[1..])
  }

  // The maps bring new addresses only.
  predicate Fresh(mem: map<nat, u8>, maps: seq<map<nat, u8>>)
    decreases |maps|
  {
    maps == [] || (mem.Keys !! maps[0].Keys && Fresh(mem + maps[0], maps[1..]))
  }

  // Executed, and after each trap executed again from the saved element with more memory
  // accessible; the mask is read anew each time.
  ghost function Resumed(op: Op, regs: seq<u8>, mem: map<nat, u8>, e: nat, maps: seq<map<nat, u8>>): Outcome
    requires File(op, regs) && e < op.evl
    decreases |maps|
  {
    MaskSize(op, regs);
    var o := Exec(op, MaskOf(op, regs), regs, mem, e);
    if maps == [] then o
    else if o.Finished? then Finished(o.regs, o.mem + Union(maps))
    else
      TrapIn(op, MaskOf(op, regs), regs, mem, e);
      Resumed(op, o.regs, o.mem + maps[0], o.at, maps[1..])
  }

  lemma {:induction false} TrapIn(op: Op, mask: seq<u8>, regs: seq<u8>, mem: map<nat, u8>, e: nat)
    requires Ready(op, mask, regs, e) && Exec(op, mask, regs, mem, e).Trapped?
    ensures Exec(op, mask, regs, mem, e).at < op.evl
    decreases op.evl - e
  {
    var o := Element(op, mask, regs, mem, e);
    if !o.Trapped? {
      TrapIn(op, mask, o.regs, o.mem, e + 1);
    }
  }

  lemma {:induction false} FreshUnion(mem: map<nat, u8>, m: map<nat, u8>, maps: seq<map<nat, u8>>)
    requires Fresh(mem, maps)
    ensures mem.Keys !! Union(maps).Keys
    ensures maps != [] ==> mem + maps[0] + Union(maps[1..]) == mem + Union(maps)
    ensures mem.Keys == m.Keys ==> Fresh(m, maps)
    decreases |maps|
  {
    if maps != [] {
      FreshUnion(mem + maps[0], m + maps[0], maps[1..]);
    }
  }

  // However often it traps and is executed again, the outcome is that of one execution
  // with all that memory accessible.
  lemma {:induction false} ResumedIsExec(op: Op, regs: seq<u8>, mem: map<nat, u8>, e: nat, maps: seq<map<nat, u8>>)
    requires File(op, regs) && e < op.evl && !op.fof && Fresh(mem, maps)
    ensures op.vlenb <= |regs| && Ready(op, MaskOf(op, regs), regs, e)
    ensures Resumed(op, regs, mem, e, maps) == Exec(op, MaskOf(op, regs), regs, mem + Union(maps), e)
    decreases |maps|
  {
    hide Exec, Legal;
    MaskSize(op, regs);
    var mask := MaskOf(op, regs);
    var o := Exec(op, mask, regs, mem, e);
    FreshUnion(mem, mem, maps);
    if maps == [] {
      assert mem + Union(maps) == mem;
    } else if o.Finished? {
      ExecMore(op, mask, regs, mem, e, Union(maps));
    } else {
      Restart(op, mask, regs, mem, e, Union(maps));
      MaskKept(op, regs, mem, e);
      FreshUnion(mem, o.mem, maps);
      FreshUnion(o.mem, o.mem, maps);
      ResumedIsExec(op, o.regs, o.mem + maps[0], o.at, maps[1..]);
    }
  }
}
