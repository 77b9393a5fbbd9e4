// The emulation loop of machine/misaligned_vec_ldst.c on a vector unit's state.

module VectorEmulation {
  import opened Powers
  import opened VectorSpec
  import opened Words

  // Bits lo .. lo + n - 1 of an instruction.
  function Bits(insn: nat, lo: nat, n: nat): nat { insn / Pow2(lo) % Pow2(n) }

  // The elements of a whole-register access, the registers of a group, and the distance of
  // elements that follow each other.
  function WholeLength(nf0: nat, vlenb: nat, len: nat): nat { if len == 0 then 0 else nf0 * vlenb / len }

  function GroupSize(vlmul: nat, veew: nat, vsew: nat): nat
    requires vsew < 4
  {
    var vemul := (vlmul + veew + 8 - vsew) % 8;
    Pow2(if vemul >= 4 then 0 else vemul)
  }

  function UnitStride(nf: nat, len: nat): nat { nf * len }

  datatype Decoded = Illegal | Decoded(op: Op)

  // A five-bit register field.
  function Register(insn: nat, lo: nat): (r: nat)
    ensures r < 32
  {
    BitsBelow(insn, lo, 5);
    Bits(insn, lo, 5)
  }

  // The fields at the head of misaligned_vec_ldst. x holds the integer registers.
  function Decode(insn: nat, vl: nat, vtype: nat, vlenb: nat, x: seq<nat>): Decoded
    requires |x| == 32
  {
    var masked := Bits(insn, 25, 1) == 0;
    var unit := Bits(insn, 26, 2) == 0;
    var strided := Bits(insn, 26, 2) == 2;
    var indexed := !strided && !unit;
    var mew := Bits(insn, 28, 1) == 1;
    var lumop := Bits(insn, 20, 5);
    var load := Bits(insn, 5, 1) == 0;
    var illegal := mew || (unit && !(lumop == 0 || lumop == 8 || (load && lumop == 16)));
    var fof := unit && lumop == 16;
    var wholeReg := unit && lumop == 8;
    var vsew := vtype / 8 % 4;
    var vlmul := vtype % 8;
    var view := Bits(insn, 12, 2);
    var veew := if indexed then vsew else view;
    var len := Pow2(veew);
    var nf0 := 1 + Bits(insn, 29, 3);
    var nf := if wholeReg then 1 else nf0;
    var evl := if wholeReg then WholeLength(nf0, vlenb, len) else vl;
    var emul := if wholeReg then 1 else GroupSize(vlmul, veew, vsew);
    if illegal || vlenb > 512 then Illegal
    else Decoded(Op(load, masked, indexed, fof, Bits(insn, 7, 5), Bits(insn, 20, 5), len, Pow2(view),
                    nf, emul, evl, vlenb, x[Register(insn, 15)],
                    if strided then x[Register(insn, 20)] else UnitStride(nf, len)))
  }

  datatype Result = Undefined | Trap | Done

  // Byte pos of register `which`: in the file, the start of the block of eight registers
  // an instruction names, and from there.
  function RegAt(which: nat, vlenb: nat, pos: nat): nat { which * vlenb + pos }
  function BlockAt(which: nat, vlenb: nat): nat { which / 8 * 8 * vlenb }
  function PosInBlock(which: nat, vlenb: nat, pos: nat): nat { pos + which % 8 * vlenb }

  // vtype after vsetvli with e8, m8.
  const E8M8: nat := 3

  class VectorUnit {
    const vlenb: nat
    const regs: array<u8>
    var mem: map<nat, u8>
    var vl: nat
    var vtype: nat
    var vstart: nat
    var mepc: nat

    constructor (vlenb: nat, regs: array<u8>, mem: map<nat, u8>, vl: nat, vtype: nat, vstart: nat, mepc: nat)
      ensures this.vlenb == vlenb && this.regs == regs && this.mem == mem
      ensures this.vl == vl && this.vtype == vtype && this.vstart == vstart && this.mepc == mepc
    {
      this.vlenb, this.regs, this.mem := vlenb, regs, mem;
      this.vl, this.vtype, this.vstart, this.mepc := vl, vtype, vstart, mepc;
    }

    // set_vreg: bytes pos .. pos + size - 1 of register `which` and those after it; vl,
    // vtype and vstart are clobbered.
    method SetVreg(which: nat, pos0: nat, size: nat, bytes: array<u8>, at: nat)
      requires InBlock(which, vlenb, pos0 + size) && regs.Length == 32 * vlenb && bytes != regs &&
                at + size <= bytes.Length
      modifies this`vl, this`vtype, this`vstart, regs
      ensures RegAt(which, vlenb, pos0) + size <= regs.Length
      ensures regs[..] == PutAt(old(regs[..]), RegAt(which, vlenb, pos0), bytes[at..at + size])
    {
      hide InBlock, RegAt, BlockAt, PosInBlock;
      BlockPlace(which, vlenb, pos0, size);
      ghost var before := regs[..];
      ghost var to := RegAt(which, vlenb, pos0);
      var pos := PosInBlock(which, vlenb, pos0);
      var block := BlockAt(which, vlenb);
      assert block + pos == to;
      vl, vtype := pos + size, E8M8;
      vstart := pos;
      while vstart < vl
        invariant pos <= vstart <= vl == pos + size
        invariant forall q :: 0 <= q < regs.Length ==>
                                regs[q] == if to <= q < to + (vstart - pos) then bytes[at + q - to] else before[q]
      {
        regs[block + vstart] := bytes[at + vstart - pos];
        vstart := vstart + 1;
      }
      vstart := 0;
    }

    // get_vreg
    method GetVreg(which: nat, pos0: nat, size: nat, bytes: array<u8>, at: nat)
      requires InBlock(which, vlenb, pos0 + size) && regs.Length == 32 * vlenb && bytes != regs &&
                at + size <= bytes.Length
      modifies this`vl, this`vtype, this`vstart, bytes
      ensures RegAt(which, vlenb, pos0) + size <= regs.Length
      ensures bytes[..] == PutAt(old(bytes[..]), at, regs[RegAt(which, vlenb, pos0)..RegAt(which, vlenb, pos0) + size])
    {
      hide InBlock, RegAt, BlockAt, PosInBlock;
      BlockPlace(which, vlenb, pos0, size);
      ghost var before := bytes[..];
      ghost var from := RegAt(which, vlenb, pos0);
      var pos := PosInBlock(which, vlenb, pos0);
      var block := BlockAt(which, vlenb);
      assert block + pos == from;
      vl, vtype := pos + size, E8M8;
      vstart := pos;
      while vstart < vl
        invariant pos <= vstart <= vl == pos + size
        invariant forall q :: 0 <= q < bytes.Length ==>
                                bytes[q] == if at <= q < at + vstart - pos then regs[from + (q - at)] else before[q]
      {
        bytes[at + vstart - pos] := regs[block + vstart];
        vstart := vstart + 1;
      }
      vstart := 0;
    }

    // vsetvl
    method Vsetvl(newVl: nat, newVtype: nat)
      modifies this`vl, this`vtype, this`vstart
      ensures vl == newVl && vtype == newVtype && vstart == 0
    {
      vl, vtype, vstart := newVl, newVtype, 0;
    }

    // The element's address.
    method ElementAddress(op: Op, e: nat) returns (addr: nat)
      requires File(op, regs[..]) && e < op.evl && op.vlenb == vlenb
      modifies this`vl, this`vtype, this`vstart
      ensures addr == ElemAddr(op, regs[..], e)
    {
      hide Legal;
      addr := Strided(op, e);
      if op.indexed {
        IndexInFile(op, e);
        IndexInBlock(op, e);
        IndexSmall(op);
        var offset := new u8[8];
        GetVreg(op.vs2, IndexOff(op, e), op.isize, offset, 0);
        assert offset[..op.isize] == regs[..][IndexAt(op, e)..IndexAt(op, e) + op.isize];
        addr := op.base + LittleEndian(offset[..op.isize]);
      }
    }

    // Store data of an element, segment by segment.
    method GatherElement(op: Op, e: nat, bytes: array<u8>)
      requires File(op, regs[..]) && e < op.evl && op.vlenb == vlenb && bytes.Length == 64 && bytes != regs
      modifies this`vl, this`vtype, this`vstart, bytes
      ensures SegAt(op, op.nf) <= 64 && bytes[..SegAt(op, op.nf)] == Gather(op, regs[..], e, op.nf)
    {
      hide Legal, SegAt, Dest, InBlock, RegAt;
      Small(op);
      SegAtZero(op);
      for seg := 0 to op.nf
        invariant SegAt(op, seg) <= 64 && bytes[..SegAt(op, seg)] == Gather(op, regs[..], e, seg)
      {
        SegmentIn(op, seg);
        DestInBlock(op, seg, e);
        DestInFile(op, seg, e);
        DestIs(op, seg, e);
        GetVreg(Reg(op, seg), SegAt(op, e), op.len, bytes, SegAt(op, seg));
        assert bytes[..SegAt(op, seg + 1)] ==
          Gather(op, regs[..], e, seg) + regs[..][Dest(op, seg, e)..Dest(op, seg, e) + op.len];
      }
    }

    // Loaded data written to the registers, segment by segment.
    method ScatterElement(op: Op, e: nat, bytes: array<u8>)
      requires File(op, regs[..]) && e < op.evl && op.vlenb == vlenb && bytes.Length == 64 && bytes != regs &&
                SegAt(op, op.nf) <= 64
      modifies this`vl, this`vtype, this`vstart, regs
      ensures regs[..] == Scatter(op, old(regs[..]), e, bytes[..SegAt(op, op.nf)], op.nf)
    {
      hide Legal, SegAt, Dest, InBlock, PutAt, RegAt, Scatter, Segment;
      ghost var data := bytes[..SegAt(op, op.nf)];
      ghost var before := regs[..];
      ScatterNone(op, before, e, data);
      for seg := 0 to op.nf
        invariant regs[..] == Scatter(op, before, e, data, seg)
      {
        SegmentIn(op, seg);
        DestInBlock(op, seg, e);
        DestInFile(op, seg, e);
        DestIs(op, seg, e);
        ScatterStep(op, before, e, data, seg + 1);
        SegmentOf(op, bytes[..], seg);
        SetVreg(Reg(op, seg), SegAt(op, e), op.len, bytes, SegAt(op, seg));
      }
    }

    // load_uint8_t on each byte; false if one traps.
    method LoadElement(op: Op, addr: nat, bytes: array<u8>) returns (ok: bool)
      requires Legal(op) && bytes.Length == 64 && bytes != regs
      modifies bytes
      ensures SegAt(op, op.nf) <= 64 && (ok <==> Accessible(mem, addr, SegAt(op, op.nf)))
      ensures ok ==> bytes[..SegAt(op, op.nf)] == Fetch(mem, addr, SegAt(op, op.nf))
    {
      hide Legal, SegAt, Addr, Fetch, Accessible;
      Small(op);
      SegAtZero(op);
      FetchNone(mem, addr);
      for seg := 0 to op.nf
        invariant SegAt(op, seg) <= 64 && Accessible(mem, addr, SegAt(op, seg))
        invariant bytes[..SegAt(op, seg)] == Fetch(mem, addr, SegAt(op, seg))
      {
        SegmentIn(op, seg);
        for i := 0 to op.len
          invariant Accessible(mem, addr, SegAt(op, seg) + i)
          invariant bytes[..SegAt(op, seg) + i] == Fetch(mem, addr, SegAt(op, seg) + i)
        {
          var j := SegAt(op, seg) + i;
          if Addr(addr, j) !in mem {
            NotAccessible(mem, addr, j, SegAt(op, op.nf));
            return false;
          }
          bytes[j] := mem[Addr(addr, j)];
          FetchNext(mem, addr, j);
          assert bytes[..j + 1] == Fetch(mem, addr, j) + [mem[Addr(addr, j)]];
        }
      }
      ok := true;
    }

    // store_uint8_t on each byte; false if one traps, those before it stored.
    method StoreElement(op: Op, addr: nat, bytes: array<u8>) returns (ok: bool)
      requires Legal(op) && bytes.Length == 64
      modifies this`mem
      ensures SegAt(op, op.nf) <= 64
      ensures var (n, r) := (SegAt(op, op.nf), Reach(old(mem), addr, SegAt(op, op.nf)));
              (ok <==> r == n) && mem == Store(old(mem), addr, bytes[..n], r)
    {
      hide Legal, SegAt, Addr, Reach;
      Small(op);
      SegAtZero(op);
      ghost var (n, before) := (SegAt(op, op.nf), mem);
      for seg := 0 to op.nf
        invariant SegAt(op, seg) <= n && Accessible(before, addr, SegAt(op, seg))
        invariant mem == Store(before, addr, bytes[..n], SegAt(op, seg))
      {
        SegmentIn(op, seg);
        for i := 0 to op.len
          invariant Accessible(before, addr, SegAt(op, seg) + i)
          invariant mem == Store(before, addr, bytes[..n], SegAt(op, seg) + i)
        {
          var j := SegAt(op, seg) + i;
          StoreKeys(before, addr, bytes[..n], j, map[]);
          if Addr(addr, j) !in mem {
            ReachIs(before, addr, j, n);
            return false;
          }
          mem := mem[Addr(addr, j) := bytes[j]];
        }
      }
      ReachAll(before, addr, n);
      ok := true;
    }

    // One turn of the loop. Traps leave vl, vtype and vstart as the restart needs them.
    method DoElement(op: Op, savedVl: nat, savedVtype: nat, e: nat, ghost mask: seq<u8>) returns (ok: bool)
      requires Ready(op, mask, regs[..], e) && op.vlenb == vlenb && Active(op, mask, e)
      modifies this`vl, this`vtype, this`vstart, this`mem, regs
      ensures var o := Element(op, mask, old(regs[..]), old(mem), e);
              (ok <==> o.Finished?) && regs[..] == o.regs && mem == o.mem
      ensures !ok ==> vl == savedVl && vtype == savedVtype && vstart == e
    {
      hide Legal, SegAt, Active, ElemAddr, Gather, Scatter, Fetch, Store, Reach, Accessible;
      ghost var (before, n) := (regs[..], SegAt(op, op.nf));
      var addr := ElementAddress(op, e);
      var bytes := new u8[64];
      if !op.load {
        GatherElement(op, e, bytes);
      }
      Vsetvl(savedVl, savedVtype);
      vstart := e;
      if op.load {
        ok := LoadElement(op, addr, bytes);
        if !ok {
          return;
        }
        ScatterElement(op, e, bytes);
      } else {
        ok := StoreElement(op, addr, bytes);
      }
    }

    // misaligned_vec_ldst, x holding the integer registers. The loop tests the element
    // count last, so from an element past the count it does that one.
    method Emulate(insn: nat, x: seq<nat>) returns (r: Result)
      requires regs.Length == 32 * vlenb && |x| == 32
      requires var d := Decode(insn, vl, vtype, vlenb, x); d.Decoded? ==> Legal(Entered(d.op, vstart))
      modifies this, regs
      ensures Decode(insn, old(vl), old(vtype), vlenb, x).Illegal? ==>
                r == Undefined && regs[..] == old(regs[..]) && mem == old(mem) && vstart == old(vstart) &&
                mepc == old(mepc)
      ensures var d := Decode(insn, old(vl), old(vtype), vlenb, x);
              d.Decoded? ==>
                var op := Entered(d.op, old(vstart));
                var o := Exec(op, MaskOf(op, old(regs[..])), old(regs[..]), old(mem), old(vstart));
                && regs[..] == o.regs && mem == o.mem && vtype == old(vtype)
                && r == (if o.Trapped? then Trap else Done)
                && (if o.Trapped? then vl == old(vl) && vstart == o.at && mepc == old(mepc)
                    else vl == (if d.op.fof then 1 else old(vl)) && vstart == 0 && mepc == (old(mepc) + 4) % XLEN_SIZE)
    {
      hide Decode, Legal, Exec, MaskOf;
      DecodedVlenb(insn, vl, vtype, vlenb, x);
      var d := Decode(insn, vl, vtype, vlenb, x);
      if d.Illegal? {
        return Undefined;
      }
      var (op, savedVl, savedVtype, e) := (Entered(d.op, vstart), vl, vtype, vstart);
      ghost var m := MaskOf(op, regs[..]);
      MaskSize(op, regs[..]);
      var mask := new u8[512];
      ReadMask(op, mask);
      var ok := RunElements(op, d.op.evl, savedVl, savedVtype, e, mask, m);
      if !ok {
        return Trap;
      }
      Vsetvl(if op.fof then 1 else savedVl, savedVtype);
      mepc := (mepc + 4) % XLEN_SIZE;
      r := Done;
    }

    // if (masked) get_vreg(vlenb, 0, 0, vlenb, mask)
    method ReadMask(op: Op, mask: array<u8>)
      requires File(op, regs[..]) && op.vlenb == vlenb <= mask.Length && mask != regs
      modifies this`vl, this`vtype, this`vstart, mask
      ensures op.masked ==> vlenb <= |regs[..]| && mask[..vlenb] == MaskOf(op, regs[..])
    {
      hide Legal, InBlock;
      if op.masked {
        MaskBlock(op);
        GetVreg(0, 0, vlenb, mask, 0);
        assert mask[..vlenb] == regs[..vlenb];
      }
    }

    // The do/while, bounded by count.
    method RunElements(op: Op, count: nat, savedVl: nat, savedVtype: nat, e0: nat, mask: array<u8>, ghost m: seq<u8>)
      returns (ok: bool)
      requires Ready(op, m, regs[..], e0) && op.vlenb == vlenb <= mask.Length
      requires op.evl == if e0 < count then count else e0 + 1
      requires op.masked ==> mask[..vlenb] == m
      requires mask != regs
      modifies this`vl, this`vtype, this`vstart, this`mem, regs
      ensures var o := Exec(op, m, old(regs[..]), old(mem), e0);
              (ok <==> o.Finished?) && regs[..] == o.regs && mem == o.mem && (!ok ==> vstart == o.at)
      ensures !ok ==> vl == savedVl && vtype == savedVtype
    {
      hide Legal, Active, Element, Exec, Ready;
      var e := e0;
      ghost var o := Exec(op, m, regs[..], mem, e);
      ReadyIn(op, m, regs[..], e);
      var more := true;
      while more
        invariant Ready(op, m, regs[..], if e < op.evl then e else op.evl - 1) && e <= op.evl
        invariant op.masked ==> mask[..vlenb] == m
        invariant more ==> e < op.evl && Exec(op, m, regs[..], mem, e) == o
        invariant !more ==> o == Finished(regs[..], mem)
        decreases op.evl - e, more
      {
        ReadyIn(op, m, regs[..], e);
        ActiveIs(op, mask[..], m, e);
        var active := !op.masked || mask[e / 8] / Pow2(e % 8) % 2 == 1;
        ExecStep(op, m, regs[..], mem, e);
        ghost var regs1 := regs[..];
        if active {
          ok := DoElement(op, savedVl, savedVtype, e, m);
          if !ok {
            return;
          }
        } else {
          Inactive(op, m, regs[..], mem, e);
        }
        ReadyAfter(op, m, regs1, regs[..], e, if e + 1 < op.evl then e + 1 else op.evl - 1);
        e := e + 1;
        more := e < count && !op.fof;
      }
      ok := true;
    }
  }

  // Whatever the instruction word, an element fits the 64-byte buffer, an index its
  // register, and the mask its buffer.
  lemma DecodeBounds(insn: nat, vl: nat, vtype: nat, vlenb: nat, x: seq<nat>)
    requires |x| == 32
    ensures var d := Decode(insn, vl, vtype, vlenb, x);
            d.Decoded? ==>
              && 1 <= d.op.nf <= 8 && d.op.len in {1, 2, 4, 8} && d.op.isize in {1, 2, 4, 8}
              && d.op.emul in {1, 2, 4, 8} && SegAt(d.op, d.op.nf) <= 64
              && d.op.vd < 32 && d.op.vs2 < 32 && d.op.vlenb == vlenb <= 512
  {
    hide Bits, GroupSize;
    var indexed := Bits(insn, 26, 2) != 2 && Bits(insn, 26, 2) != 0;
    var (view, more) := (Bits(insn, 12, 2), Bits(insn, 29, 3));
    var veew := if indexed then vtype / 8 % 4 else view;
    BitsBelow(insn, 12, 2);
    BitsBelow(insn, 20, 5);
    BitsBelow(insn, 7, 5);
    BitsBelow(insn, 29, 3);
    SmallPowers(veew);
    SmallPowers(view);
    SmallGroup(vtype % 8, veew, vtype / 8 % 4);
    SmallProduct(more + 1, Pow2(veew));
  }

  lemma BitsBelow(insn: nat, lo: nat, n: nat)
    requires n <= 5
    ensures Bits(insn, lo, n) < Pow2(n) && Pow2(2) == 4 && Pow2(3) == 8 && Pow2(5) == 32
  {
  }

  lemma SmallPowers(k: nat)
    requires k < 4
    ensures Pow2(k) in {1, 2, 4, 8}
  {
  }

  lemma SmallGroup(vlmul: nat, veew: nat, vsew: nat)
    requires vlmul < 8 && veew < 4 && vsew < 4
    ensures GroupSize(vlmul, veew, vsew) in {1, 2, 4, 8}
  {
    SmallPowers((vlmul + veew + 8 - vsew) % 4);
  }

  lemma SmallProduct(a: nat, b: nat)
    requires a <= 8 && b in {1, 2, 4, 8}
    ensures a * b <= 64
  {
  }

  // An instruction that decodes and whose operands the instruction set allows is one that
  // Emulate is right for.
  lemma DecodedLegal(insn: nat, vl: nat, vtype: nat, vlenb: nat, x: seq<nat>, group: nat, indexGroup: nat)
    requires |x| == 32
    requires var d := Decode(insn, vl, vtype, vlenb, x);
             d.Decoded? && vlenb > 0 && IsaLegal(d.op, group, indexGroup)
    ensures Legal(Decode(insn, vl, vtype, vlenb, x).op)
  {
    hide Decode, IsaLegal, Legal;
    DecodeBounds(insn, vl, vtype, vlenb, x);
    IsaIsLegal(Decode(insn, vl, vtype, vlenb, x).op, group, indexGroup);
  }

  lemma DecodedVlenb(insn: nat, vl: nat, vtype: nat, vlenb: nat, x: seq<nat>)
    requires |x| == 32
    ensures var d := Decode(insn, vl, vtype, vlenb, x); d.Decoded? ==> d.op.vlenb == vlenb <= 512
  {
  }

  lemma MaskBlock(op: Op)
    requires Legal(op)
    ensures InBlock(0, op.vlenb, op.vlenb) && RegAt(0, op.vlenb, 0) == 0
  {
  }

  lemma ActiveIs(op: Op, mask: seq<u8>, m: seq<u8>, e: nat)
    requires op.masked ==> |m| == op.vlenb <= |mask| && m == mask[..op.vlenb] && e < 8 * op.vlenb
    ensures op.masked ==> e / 8 < |mask|
    ensures Active(op, m, e) <==> !op.masked || mask[e / 8] / Pow2(e % 8) % 2 == 1
  {
  }

  lemma ReadyIn(op: Op, m: seq<u8>, regs: seq<u8>, e: nat)
    requires Ready(op, m, regs, e)
    ensures e < op.evl && (op.masked ==> |m| == op.vlenb && e < 8 * op.vlenb)
  {
  }

  lemma ReadyAfter(op: Op, m: seq<u8>, regs: seq<u8>, regs': seq<u8>, e: nat, x: nat)
    requires Ready(op, m, regs, e) && |regs'| == |regs| && x < op.evl
    ensures Ready(op, m, regs', x)
  {
    NextReady(op, m, regs, e, x);
  }

  // Executing from element e on is executing it, then the rest if there is more to do.
  lemma ExecStep(op: Op, m: seq<u8>, regs: seq<u8>, mem: map<nat, u8>, e: nat)
    requires Ready(op, m, regs, e)
    ensures var (o, all) := (Element(op, m, regs, mem, e), Exec(op, m, regs, mem, e));
            && (o.Trapped? ==> all == o && o.at == e)
            && (o.Finished? && e + 1 < op.evl && !op.fof ==>
                  Ready(op, m, o.regs, e + 1) && all == Exec(op, m, o.regs, o.mem, e + 1))
            && (o.Finished? && (e + 1 >= op.evl || op.fof) ==> all == o)
  {
    hide Element, Legal;
    TrapAt(op, m, regs, mem, e);
    var o := Element(op, m, regs, mem, e);
    if e + 1 < op.evl {
      ReadyAfter(op, m, regs, o.regs, e, e + 1);
    }
    assert Exec(op, m, regs, mem, e)
        == if o.Trapped? || e + 1 >= op.evl || op.fof then o else Exec(op, m, o.regs, o.mem, e + 1);
  }

  lemma TrapAt(op: Op, m: seq<u8>, regs: seq<u8>, mem: map<nat, u8>, e: nat)
    requires Ready(op, m, regs, e)
    ensures Element(op, m, regs, mem, e).Trapped? ==> Element(op, m, regs, mem, e).at == e
  {
    hide Active, ElemAddr, Gather, Scatter, Fetch, Store, Reach, Accessible;
  }

  lemma Inactive(op: Op, m: seq<u8>, regs: seq<u8>, mem: map<nat, u8>, e: nat)
    requires Ready(op, m, regs, e) && !Active(op, m, e)
    ensures Element(op, m, regs, mem, e) == Finished(regs, mem)
  {
  }

  lemma BlockPlace(which: nat, vlenb: nat, pos: nat, size: nat)
    requires InBlock(which, vlenb, pos + size)
    ensures BlockAt(which, vlenb) + PosInBlock(which, vlenb, pos) == RegAt(which, vlenb, pos)
    ensures RegAt(which, vlenb, pos) + size <= 32 * vlenb
  {
    BlockInFile(which, vlenb, pos + size);
    assert which == which / 8 * 8 + which % 8;
  }

  lemma IndexSmall(op: Op)
    requires Legal(op)
    ensures op.isize <= 8 && RegAt(op.vs2, op.vlenb, IndexOff(op, 0)) == IndexAt(op, 0)
    ensures forall e: nat :: RegAt(op.vs2, op.vlenb, IndexOff(op, e)) == IndexAt(op, e)
  {
  }

  lemma ScatterNone(op: Op, regs: seq<u8>, e: nat, data: seq<u8>)
    requires File(op, regs) && e < op.evl && |data| == SegAt(op, op.nf)
    ensures Scatter(op, regs, e, data, 0) == regs
  {
  }

  lemma SegmentOf(op: Op, bytes: seq<u8>, seg: nat)
    requires seg < op.nf && SegAt(op, op.nf) <= |bytes|
    ensures SegAt(op, seg) + op.len <= |bytes|
    ensures Segment(op, bytes[..SegAt(op, op.nf)], seg) == bytes[SegAt(op, seg)..SegAt(op, seg) + op.len]
  {
    SegmentIn(op, seg);
  }

  lemma SegAtZero(op: Op)
    ensures SegAt(op, 0) == 0
  {
  }

  lemma DestIs(op: Op, seg: nat, e: nat)
    ensures RegAt(Reg(op, seg), op.vlenb, SegAt(op, e)) == Dest(op, seg, e)
  {
  }

  lemma {:induction false} ReachIs(mem: map<nat, u8>, a0: nat, j: nat, n: nat)
    requires j < n && Accessible(mem, a0, j) && Addr(a0, j) !in mem
    ensures Reach(mem, a0, n) == j
  {
    if j == n - 1 {
      ReachAll(mem, a0, j);
    } else {
      ReachIs(mem, a0, j, n - 1);
    }
  }

  lemma FetchNone(mem: map<nat, u8>, a0: nat)
    ensures Accessible(mem, a0, 0) && Fetch(mem, a0, 0) == []
  {
  }

  lemma FetchNext(mem: map<nat, u8>, a0: nat, j: nat)
    requires Accessible(mem, a0, j) && Addr(a0, j) in mem
    ensures Accessible(mem, a0, j + 1) && Fetch(mem, a0, j + 1) == Fetch(mem, a0, j) + [mem[Addr(a0, j)]]
  {
  }

  lemma NotAccessible(mem: map<nat, u8>, a0: nat, j: nat, n: nat)
    requires Addr(a0, j) !in mem && j < n
    ensures !Accessible(mem, a0, n)
  {
  }
}
