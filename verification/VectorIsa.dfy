// Vector loads and stores as the RISC-V "V" extension defines them (sections 3.4, 5.2, 7.2
// to 7.9), and that machine/misaligned_vec_ldst.c decodes exactly these.

module VectorIsa {
  import opened Powers
  import opened Words
  import opened VectorSpec
  import opened VectorEmulation

  // The width in an instruction, in bits.
  datatype Width = E8 | E16 | E32 | E64

  function Bytes(w: Width): (n: nat)
    ensures n in {1, 2, 4, 8}
  {
    match w
    case E8 => 1
    case E16 => 2
    case E32 => 4
    case E64 => 8
  }

  function WidthField(w: Width): nat {
    match w
    case E8 => 0
    case E16 => 5
    case E32 => 6
    case E64 => 7
  }

  // Unit-stride, whole-register, fault-only-first, strided and indexed accesses. rs2 is an
  // integer register, vs2 a vector register.
  datatype Form =
    | Unit
    | Whole
    | FaultFirst
    | Stride(rs2: nat)
    | Index(vs2: nat, ordered: bool)

  // `fields` is the number of segments, or of registers in a whole-register access.
  datatype Insn = Insn(load: bool, masked: bool, form: Form, width: Width, fields: nat, vd: nat, rs1: nat)

  predicate Exists(i: Insn) {
    && 1 <= i.fields <= 8 && i.vd < 32 && i.rs1 < 32 && Third(i.form) < 32
    && (i.form.FaultFirst? ==> i.load)
  }

  // The rs2, vs2, lumop or sumop field, and mop.
  function Third(f: Form): nat {
    match f
    case Unit => 0
    case Whole => 8
    case FaultFirst => 16
    case Stride(rs2) => rs2
    case Index(vs2, _) => vs2
  }

  function Mop(f: Form): nat {
    match f
    case Stride(_) => 2
    case Index(_, ordered) => if ordered then 3 else 1
    case _ => 0
  }

  // The instruction word: LOAD-FP or STORE-FP, vd, width, rs1, the third register, vm, mop,
  // mew (0) and nf.
  function Encode(i: Insn): nat
    requires i.fields >= 1
  {
    Word(if i.load then 0x07 else 0x27, i.vd, WidthField(i.width), i.rs1, Third(i.form), if i.masked then 0 else 1,
         Mop(i.form), 0, i.fields - 1)
  }

  function Word(opcode: nat, vd: nat, width: nat, rs1: nat, third: nat, vm: nat, mop: nat, mew: nat, nf: nat): nat {
    opcode + 0x80 * vd + 0x1000 * width + 0x8000 * rs1 + 0x10_0000 * third + 0x200_0000 * vm + 0x400_0000 * mop +
    0x1000_0000 * mew + 0x2000_0000 * nf
  }

  // A word of these two major opcodes with a vector width.
  predicate VectorWord(w: nat) {
    w < 0x1_0000_0000 && w % 0x80 in {0x07, 0x27} && w / 0x1000 % 8 in {0, 5, 6, 7}
  }

  // ---- Fields of a word ----

  lemma PowersAre()
    ensures Pow2(0) == 1 && Pow2(1) == 2 && Pow2(2) == 4 && Pow2(3) == 8 && Pow2(5) == 0x20 && Pow2(7) == 0x80
    ensures Pow2(12) == 0x1000 && Pow2(15) == 0x8000 && Pow2(20) == 0x10_0000 && Pow2(25) == 0x200_0000
    ensures Pow2(26) == 0x400_0000 && Pow2(28) == 0x1000_0000 && Pow2(29) == 0x2000_0000
  {
    Pow2Add(5, 2);
    Pow2Add(7, 5);
    Pow2Add(12, 3);
    Pow2Add(15, 5);
    Pow2Add(20, 5);
    Pow2Add(25, 1);
    Pow2Add(26, 2);
    Pow2Add(28, 1);
  }

  // The fields that Decode reads.
  lemma BitsAre(w: nat)
    ensures Bits(w, 5, 1) == w / 0x20 % 2 && Bits(w, 7, 5) == w / 0x80 % 0x20 && Bits(w, 12, 2) == w / 0x1000 % 4
    ensures Bits(w, 15, 5) == w / 0x8000 % 0x20 && Bits(w, 20, 5) == w / 0x10_0000 % 0x20
    ensures Bits(w, 25, 1) == w / 0x200_0000 % 2 && Bits(w, 26, 2) == w / 0x400_0000 % 4
    ensures Bits(w, 28, 1) == w / 0x1000_0000 % 2 && Bits(w, 29, 3) == w / 0x2000_0000 % 8
  {
    hide Pow2;
    PowersAre();
  }

  // Each field of a word is what was put there.
  lemma LowFields(opcode: nat, vd: nat, width: nat, h2: nat)
    requires opcode < 0x80 && vd < 0x20 && width < 8
    ensures var w := opcode + 0x80 * (vd + 0x20 * (width + 8 * h2));
            && w % 0x80 == opcode && w / 0x80 % 0x20 == vd && w / 0x1000 % 8 == width && w / 0x1000 % 4 == width % 4
  {
    var w := opcode + 0x80 * (vd + 0x20 * (width + 8 * h2));
    DivIs(w, 0x80, vd + 0x20 * (width + 8 * h2), opcode);
    FieldOf(w, opcode, vd, width + 8 * h2, 0x80, 0x20);
    FieldOf(w, opcode + 0x80 * vd, width, h2, 0x1000, 8);
    FieldOf(w, opcode + 0x80 * vd, width % 4, width / 4 + 2 * h2, 0x1000, 4);
  }

  lemma LoadBit(opcode: nat, h0: nat)
    requires opcode in {0x07, 0x27}
    ensures (opcode + 0x80 * h0) / 0x20 % 2 == if opcode == 0x07 then 0 else 1
  {
    FieldOf(opcode + 0x80 * h0, 7, if opcode == 0x07 then 0 else 1, 2 * h0, 0x20, 2);
  }

  lemma MiddleFields(low: nat, rs1: nat, third: nat, vm: nat, h5: nat)
    requires low < 0x8000 && rs1 < 0x20 && third < 0x20 && vm < 2
    ensures var w := low + 0x8000 * (rs1 + 0x20 * (third + 0x20 * (vm + 2 * h5)));
            && w / 0x8000 % 0x20 == rs1 && w / 0x10_0000 % 0x20 == third && w / 0x200_0000 % 2 == vm
  {
    var w := low + 0x8000 * (rs1 + 0x20 * (third + 0x20 * (vm + 2 * h5)));
    FieldOf(w, low, rs1, third + 0x20 * (vm + 2 * h5), 0x8000, 0x20);
    FieldOf(w, low + 0x8000 * rs1, third, vm + 2 * h5, 0x10_0000, 0x20);
    FieldOf(w, low + 0x8000 * rs1 + 0x10_0000 * third, vm, h5, 0x200_0000, 2);
  }

  lemma HighFields(low: nat, mop: nat, mew: nat, nf: nat)
    requires low < 0x400_0000 && mop < 4 && mew < 2 && nf < 8
    ensures var w := low + 0x400_0000 * (mop + 4 * (mew + 2 * nf));
            && w / 0x400_0000 % 4 == mop && w / 0x1000_0000 % 2 == mew && w / 0x2000_0000 % 8 == nf
  {
    var w := low + 0x400_0000 * (mop + 4 * (mew + 2 * nf));
    FieldOf(w, low, mop, mew + 2 * nf, 0x400_0000, 4);
    FieldOf(w, low + 0x400_0000 * mop, mew, nf, 0x1000_0000, 2);
    FieldOf(w, low + 0x400_0000 * mop + 0x1000_0000 * mew, nf, 0, 0x2000_0000, 8);
  }

  lemma FieldsOf(opcode: nat, vd: nat, width: nat, rs1: nat, third: nat, vm: nat, mop: nat, mew: nat, nf: nat)
    requires opcode in {0x07, 0x27} && vd < 0x20 && width < 8 && rs1 < 0x20 && third < 0x20
    requires vm < 2 && mop < 4 && mew < 2 && nf < 8
    ensures var w := Word(opcode, vd, width, rs1, third, vm, mop, mew, nf);
            && w < 0x1_0000_0000 && w % 0x80 == opcode && w / 0x20 % 2 == (if opcode == 0x07 then 0 else 1)
            && w / 0x80 % 0x20 == vd && w / 0x1000 % 8 == width && w / 0x1000 % 4 == width % 4
            && w / 0x8000 % 0x20 == rs1 && w / 0x10_0000 % 0x20 == third && w / 0x200_0000 % 2 == vm
            && w / 0x400_0000 % 4 == mop && w / 0x1000_0000 % 2 == mew && w / 0x2000_0000 % 8 == nf
  {
    var h5 := mop + 4 * (mew + 2 * nf);
    var h2 := rs1 + 0x20 * (third + 0x20 * (vm + 2 * h5));
    LowFields(opcode, vd, width, h2);
    LoadBit(opcode, vd + 0x20 * (width + 8 * h2));
    var l2 := opcode + 0x80 * vd + 0x1000 * width;
    MiddleFields(l2, rs1, third, vm, h5);
    HighFields(l2 + 0x8000 * rs1 + 0x10_0000 * third + 0x200_0000 * vm, mop, mew, nf);
  }

  lemma FieldOf(w: nat, low: nat, f: nat, high: nat, p: nat, q: nat)
    requires w == low + p * (f + q * high) && low < p && f < q
    ensures w / p % q == f
  {
    DivIs(w, p, f + q * high, low);
    DivIs(f + q * high, q, high, f);
  }

  lemma DivIs(x: nat, p: nat, q: nat, r: nat)
    requires x == p * q + r && r < p
    ensures x / p == q && x % p == r
  {
    var k, s := Divided(x, p);
    if k < q {
      Apart(p, k, q);
    } else if q < k {
      Apart(p, q, k);
    }
  }

  lemma Divided(x: nat, p: nat) returns (k: nat, s: nat)
    requires p > 0
    ensures k == x / p && s == x % p && x == p * k + s && s < p
  {
    k, s := x / p, x % p;
  }

  lemma Apart(p: nat, a: nat, b: nat)
    requires a < b
    ensures p * a + p <= p * b
  {
    assert p * (b - (a + 1)) >= 0;
  }

  // A word is made of its fields.
  lemma WordOf(w: nat)
    requires w < 0x1_0000_0000
    ensures w == Word(w % 0x80, w / 0x80 % 0x20, w / 0x1000 % 8, w / 0x8000 % 0x20, w / 0x10_0000 % 0x20,
                      w / 0x200_0000 % 2, w / 0x400_0000 % 4, w / 0x1000_0000 % 2, w / 0x2000_0000 % 8)
  {
    var h0 := Peel(w, 1, 0x80);
    var h1 := Peel(w, 0x80, 0x20);
    var h2 := Peel(w, 0x1000, 8);
    var h3 := Peel(w, 0x8000, 0x20);
    var h4 := Peel(w, 0x10_0000, 0x20);
    var h5 := Peel(w, 0x200_0000, 2);
    var h6 := Peel(w, 0x400_0000, 4);
    var h7 := Peel(w, 0x1000_0000, 2);
    var h8 := Peel(w, 0x2000_0000, 8);
  }

  // The field of size q at p, and what is above it.
  lemma Peel(w: nat, p: nat, q: nat) returns (high: nat)
    requires p > 0 && q > 0
    ensures high == w / (p * q) == w / p / q && w / p == w / p % q + q * high
  {
    var a, r := Divided(w, p);
    var c;
    high, c := Divided(a, q);
    Apart(p, c, q);
    Spread(p, q, high, c);
    DivIs(w, p * q, high, p * c + r);
  }

  lemma Spread(p: nat, q: nat, high: nat, c: nat)
    ensures p * (q * high + c) == p * q * high + p * c
  {
  }

  // ---- What an instruction means ----

  // A vtype that is not reserved: SEW at most 64, LMUL from 1/8 to 8.
  predicate LegalVtype(vtype: nat) {
    vtype / 8 % 8 < 4 && vtype % 8 != 4
  }

  // SEW in bytes and LMUL in eighths.
  function Sew(vtype: nat): nat
    requires LegalVtype(vtype)
  {
    [1, 2, 4, 8][vtype / 8 % 8]
  }

  function LmulEighths(vtype: nat): nat
    requires LegalVtype(vtype)
  {
    [8, 16, 32, 64, 0, 1, 2, 4][vtype % 8]
  }

  // The bytes of a data element: SEW for an indexed access, whose width is the index's.
  function ElementBytes(i: Insn, vtype: nat): (n: nat)
    requires LegalVtype(vtype)
    ensures n in {1, 2, 4, 8}
  {
    if i.form.Index? then Sew(vtype) else Bytes(i.width)
  }

  // EMUL in eighths, LMUL * EEW / SEW; it must be from 1/8 to 8.
  function EmulEighths(i: Insn, vtype: nat): nat
    requires LegalVtype(vtype)
  {
    LmulEighths(vtype) * ElementBytes(i, vtype) / Sew(vtype)
  }

  predicate LegalEmul(i: Insn, vtype: nat)
    requires LegalVtype(vtype)
  {
    i.form.Whole? || 1 <= EmulEighths(i, vtype) <= 64
  }

  // The registers from one segment's to the next one's.
  function Group(i: Insn, vtype: nat): nat
    requires LegalVtype(vtype)
  {
    if i.form.Whole? || EmulEighths(i, vtype) <= 8 then 1 else EmulEighths(i, vtype) / 8
  }

  // A whole-register access has one segment and as many elements as its registers hold.
  function Segments(i: Insn): nat { if i.form.Whole? then 1 else i.fields }

  function Count(i: Insn, vl: nat, vlenb: nat): nat {
    if i.form.Whole? then i.fields * vlenb / Bytes(i.width) else vl
  }

  // The operand it stands for.
  function Meaning(i: Insn, vl: nat, vtype: nat, vlenb: nat, x: seq<nat>): Op
    requires Exists(i) && LegalVtype(vtype) && |x| == 32
  {
    Op(i.load, i.masked, i.form.Index?, i.form.FaultFirst?, i.vd, Third(i.form), ElementBytes(i, vtype), Bytes(i.width),
       Segments(i), Group(i, vtype), Count(i, vl, vlenb), vlenb, x[i.rs1],
       if i.form.Stride? then x[i.form.rs2] else Segments(i) * ElementBytes(i, vtype))
  }

  // The decoder reads an instruction word as the instruction it encodes.
  lemma DecodesTo(i: Insn, vl: nat, vtype: nat, vlenb: nat, x: seq<nat>)
    requires Exists(i) && LegalVtype(vtype) && LegalEmul(i, vtype) && |x| == 32
    ensures Decode(Encode(i), vl, vtype, vlenb, x)
         == if vlenb <= 512 then Decoded(Meaning(i, vl, vtype, vlenb, x)) else Illegal
  {
    hide Pow2, Bits, Word, GroupSize, Group, EmulEighths, WholeLength, UnitStride;
    EncodedBits(i);
    WidthPower(i.width);
    SewPower(vtype);
    CountIs(i.fields, vlenb, Bytes(i.width));
    StrideIs(Segments(i), ElementBytes(i, vtype));
    if !i.form.Whole? {
      GroupIs(i, vtype);
    } else {
      WholeGroup(i, vtype);
    }
  }

  lemma EncodedBits(i: Insn)
    requires Exists(i)
    ensures var w := Encode(i);
            && VectorWord(w) && Bits(w, 5, 1) == (if i.load then 0 else 1) && Bits(w, 7, 5) == i.vd
            && Bits(w, 12, 2) == WidthField(i.width) % 4 && Register(w, 15) == i.rs1
            && Bits(w, 20, 5) == Register(w, 20) == Third(i.form) && Bits(w, 25, 1) == (if i.masked then 0 else 1)
            && Bits(w, 26, 2) == Mop(i.form) && Bits(w, 28, 1) == 0 && Bits(w, 29, 3) == i.fields - 1
  {
    hide Bits, Word;
    FieldsOf(if i.load then 0x07 else 0x27, i.vd, WidthField(i.width), i.rs1, Third(i.form), if i.masked then 0 else 1,
             Mop(i.form), 0, i.fields - 1);
    BitsAre(Encode(i));
  }

  lemma WidthPower(w: Width)
    ensures Pow2(WidthField(w) % 4) == Bytes(w)
  {
    PowersAre();
    assert Pow2(3) == 8;
  }

  lemma SewPower(vtype: nat)
    requires LegalVtype(vtype)
    ensures vtype / 8 % 4 == vtype / 8 % 8 && Pow2(vtype / 8 % 4) == Sew(vtype)
  {
    PowersAre();
  }

  lemma CountIs(fields: nat, vlenb: nat, len: nat)
    requires len > 0
    ensures WholeLength(fields, vlenb, len) == fields * vlenb / len
  {
  }

  lemma StrideIs(nf: nat, len: nat)
    ensures UnitStride(nf, len) == nf * len
  {
  }

  lemma WholeGroup(i: Insn, vtype: nat)
    requires i.form.Whole? && LegalVtype(vtype)
    ensures Group(i, vtype) == 1
  {
  }

  // The exponent arithmetic on three bits is the division of the standard.
  lemma GroupIs(i: Insn, vtype: nat)
    requires !i.form.Whole? && LegalVtype(vtype) && LegalEmul(i, vtype)
    ensures GroupSize(vtype % 8, if i.form.Index? then vtype / 8 % 4 else WidthField(i.width) % 4, vtype / 8 % 4)
         == Group(i, vtype)
  {
    hide Pow2, GroupSize;
    SewPower(vtype);
    LmulPower(vtype);
    WidthPower(i.width);
    var k := if i.form.Index? then vtype / 8 % 4 else WidthField(i.width) % 4;
    GroupAt(vtype % 8, k, vtype / 8 % 4, LmulEighths(vtype), ElementBytes(i, vtype), Sew(vtype));
  }

  lemma LmulPower(vtype: nat)
    requires LegalVtype(vtype)
    ensures var m := vtype % 8; LmulEighths(vtype) == if m < 4 then 8 * Pow2(m) else Pow2(m - 5)
  {
    PowersAre();
  }

  lemma GroupAt(m: nat, k: nat, s: nat, lmul8: nat, eew: nat, sew: nat)
    requires m < 8 && m != 4 && k < 4 && s < 4
    requires lmul8 == (if m < 4 then 8 * Pow2(m) else Pow2(m - 5)) && eew == Pow2(k) && sew == Pow2(s)
    requires 1 <= lmul8 * eew / sew <= 64
    ensures var g := lmul8 * eew / sew; GroupSize(m, k, s) == if g <= 8 then 1 else g / 8
  {
    hide Pow2;
    var up := if m < 4 then m + 3 else m - 5;
    PowersAre();
    Pow2Add(m, 3);
    Pow2Add(up, k);
    QuotientPower(up + k, s);
    assert lmul8 * eew == Pow2(up + k);
    if up + k < s {
      assert false;
    }
    SmallExponent(up + k - s);
  }

  // 2^a / 2^b
  lemma QuotientPower(a: nat, b: nat)
    ensures Pow2(a) / Pow2(b) == if b <= a then Pow2(a - b) else 0
  {
    hide Pow2;
    if b <= a {
      Pow2Add(b, a - b);
      DivIs(Pow2(a), Pow2(b), Pow2(a - b), 0);
    } else {
      Pow2Mono(a + 1, b);
      Double(a + 1);
      DivIs(Pow2(a), Pow2(b), 0, Pow2(a));
    }
  }

  // Which powers are from 1 to 64.
  lemma SmallExponent(n: nat)
    ensures Pow2(n) <= 64 ==> n <= 6
    ensures n <= 6 ==> (Pow2(n) <= 8 <==> n <= 3) && (n > 3 ==> Pow2(n) / 8 == Pow2(n - 3))
  {
    hide Pow2;
    PowersAre();
    if n > 6 {
      Pow2Mono(7, n);
    } else if n > 3 {
      Pow2Mono(4, n);
      Double(4);
      QuotientPower(n, 3);
    } else {
      Pow2Mono(n, 3);
    }
  }

  // And it reads nothing else: among the words of these opcodes with a vector width, those
  // that decode are the encodings of the instructions above.
  lemma DecodesOnly(w: nat, vl: nat, vtype: nat, vlenb: nat, x: seq<nat>)
    requires VectorWord(w) && vlenb <= 512 && |x| == 32
    ensures Decode(w, vl, vtype, vlenb, x).Decoded? <==> exists i :: Exists(i) && Encode(i) == w
  {
    hide Pow2, Bits, Word, GroupSize, WholeLength, UnitStride;
    if Decode(w, vl, vtype, vlenb, x).Decoded? {
      BitsAre(w);
      WordOf(w);
      Disassembled(w);
    }
    forall i | Exists(i) && Encode(i) == w
      ensures Decode(w, vl, vtype, vlenb, x).Decoded?
    {
      EncodedBits(i);
    }
  }

  // The instruction in a word's fields.
  function Disassemble(w: nat): Insn {
    var third := w / 0x10_0000 % 0x20;
    var mop := w / 0x400_0000 % 4;
    Insn(w % 0x80 == 0x07, w / 0x200_0000 % 2 == 0,
         if mop == 2 then Stride(third) else if mop != 0 then Index(third, mop == 3)
         else if third == 0 then Unit else if third == 8 then Whole else FaultFirst,
         match w / 0x1000 % 8 { case 0 => E8 case 5 => E16 case 6 => E32 case _ => E64 },
         w / 0x2000_0000 % 8 + 1, w / 0x80 % 0x20, w / 0x8000 % 0x20)
  }

  lemma Disassembled(w: nat)
    requires VectorWord(w) && w / 0x1000_0000 % 2 == 0
    requires w / 0x400_0000 % 4 == 0 ==>
               w / 0x10_0000 % 0x20 in {0, 8} || (w % 0x80 == 0x07 && w / 0x10_0000 % 0x20 == 16)
    ensures Exists(Disassemble(w)) && Encode(Disassemble(w)) == w
  {
    hide Word;
    WordOf(w);
  }

  // ---- What it does to registers and memory ----

  // Section 5.3: element e is active if the instruction is not masked or bit e of v0 is set.
  predicate Enabled(i: Insn, regs: seq<u8>, e: nat) {
    i.masked ==> e / 8 < |regs| && regs[e / 8] / Pow2(e % 8) % 2 == 1
  }

  // Where byte j of element e of segment seg is in the register file.
  function RegisterByte(i: Insn, vtype: nat, vlenb: nat, seg: nat, e: nat, j: nat): nat
    requires LegalVtype(vtype)
  {
    (i.vd + seg * Group(i, vtype)) * vlenb + e * ElementBytes(i, vtype) + j
  }

  // Where it is in memory: segments follow each other; elements follow each other, are a
  // stride apart, or are an index from the base.
  ghost function MemoryByte(i: Insn, vtype: nat, vlenb: nat, x: seq<nat>, regs: seq<u8>, seg: nat, e: nat, j: nat): nat
    requires Exists(i) && LegalVtype(vtype) && |x| == 32
    requires i.form.Index? ==> i.form.vs2 * vlenb + (e + 1) * Bytes(i.width) <= |regs|
  {
    var n := ElementBytes(i, vtype);
    var first :=
      match i.form
      case Stride(rs2) => x[i.rs1] + e * x[rs2]
      case Index(vs2, _) =>
        var p := vs2 * vlenb + e * Bytes(i.width);
        assert (e + 1) * Bytes(i.width) == e * Bytes(i.width) + Bytes(i.width);
        x[i.rs1] + LittleEndian(regs[p..p + Bytes(i.width)])
      case _ => x[i.rs1] + e * (Segments(i) * n);
    (first + seg * n + j) % 0x1_0000_0000_0000_0000
  }

  // Byte k of a little-endian number.
  lemma {:induction false} LittleEndianByte(bytes: seq<u8>, k: nat)
    requires k < |bytes|
    ensures LittleEndian(bytes) / Pow2(8 * k) % 0x100 == bytes[k]
    ensures LittleEndian(bytes) < Pow2(8 * |bytes|)
  {
    hide Pow2;
    var (b, rest) := (bytes[0], LittleEndian(bytes[1..]));
    Pow2Of8();
    Pow2Add(8, 8 * (|bytes| - 1));
    if |bytes| == 1 {
      PowersAre();
    } else {
      LittleEndianByte(bytes[1..], if k > 0 then k - 1 else 0);
    }
    FirstByte(b, rest);
    if k > 0 {
      Pow2Add(8, 8 * (k - 1));
      LaterByte(b, rest, Pow2(8 * (k - 1)));
    } else {
      PowersAre();
    }
  }

  lemma FirstByte(b: u8, rest: nat)
    ensures (b + 0x100 * rest) / 1 % 0x100 == b
  {
  }

  lemma LaterByte(b: u8, rest: nat, p: nat)
    requires p > 0
    ensures (b + 0x100 * rest) / (0x100 * p) == rest / p
  {
    DivIs(b + 0x100 * rest, 0x100, rest, b);
    var high := Peel(b + 0x100 * rest, 0x100, p);
  }

  lemma Pow2Of8()
    ensures Pow2(8) == 0x100
  {
    PowersAre();
    Double(8);
  }

  lemma IndexFits(i: Insn, vl: nat, vtype: nat, vlenb: nat, x: seq<nat>, e: nat)
    requires Exists(i) && LegalVtype(vtype) && |x| == 32
    requires Legal(Meaning(i, vl, vtype, vlenb, x)) && e < Count(i, vl, vlenb)
    ensures i.form.Index? ==> i.form.vs2 * vlenb + (e + 1) * Bytes(i.width) <= 32 * vlenb
  {
    if i.form.Index? {
      IndexInFile(Meaning(i, vl, vtype, vlenb, x), e);
    }
  }

  // The state of a run from element `start` on.
  ghost predicate Runs(i: Insn, vl: nat, vtype: nat, vlenb: nat, x: seq<nat>, regs: seq<u8>, start: nat) {
    && Exists(i) && LegalVtype(vtype) && |x| == 32 && File(Meaning(i, vl, vtype, vlenb, x), regs)
    && start < Count(i, vl, vlenb)
  }

  ghost function Run(i: Insn, vl: nat, vtype: nat, vlenb: nat, x: seq<nat>, regs: seq<u8>, mem: map<nat, u8>,
                     start: nat): Outcome
    requires Runs(i, vl, vtype, vlenb, x, regs, start)
  {
    var op := Meaning(i, vl, vtype, vlenb, x);
    MaskSize(op, regs);
    Exec(op, MaskOf(op, regs), regs, mem, start)
  }

  // This is what the emulation does with the instruction's word.
  lemma EmulatesRun(i: Insn, vl: nat, vtype: nat, vlenb: nat, x: seq<nat>, regs: seq<u8>, mem: map<nat, u8>, start: nat)
    requires Runs(i, vl, vtype, vlenb, x, regs, start) && LegalEmul(i, vtype) && vlenb <= 512
    ensures var d := Decode(Encode(i), vl, vtype, vlenb, x);
            && d.Decoded? && Legal(Entered(d.op, start))
            && var op := Entered(d.op, start);
               && vlenb <= |regs| && Ready(op, MaskOf(op, regs), regs, start)
               && Exec(op, MaskOf(op, regs), regs, mem, start) == Run(i, vl, vtype, vlenb, x, regs, mem, start)
  {
    hide Decode, Legal, Exec, Encode;
    DecodesTo(i, vl, vtype, vlenb, x);
    MaskSize(Meaning(i, vl, vtype, vlenb, x), regs);
  }

  lemma MaskIs(i: Insn, vl: nat, vtype: nat, vlenb: nat, x: seq<nat>, regs: seq<u8>, e: nat)
    requires Runs(i, vl, vtype, vlenb, x, regs, e)
    ensures var op := Meaning(i, vl, vtype, vlenb, x);
            && vlenb <= |regs| && Ready(op, MaskOf(op, regs), regs, e)
            && (Active(op, MaskOf(op, regs), e) <==> Enabled(i, regs, e))
  {
    MaskSize(Meaning(i, vl, vtype, vlenb, x), regs);
  }

  // A load that finishes: byte j of element e of segment seg is its memory byte, if the
  // element is enabled and not before the start; else it is as it was. Memory is not changed.
  lemma LoadMeans(i: Insn, vl: nat, vtype: nat, vlenb: nat, x: seq<nat>, regs: seq<u8>, mem: map<nat, u8>, start: nat,
                  seg: nat, e: nat, j: nat)
    requires Runs(i, vl, vtype, vlenb, x, regs, start) && i.load && !i.form.FaultFirst?
    requires seg < Segments(i) && e < Count(i, vl, vlenb) && j < ElementBytes(i, vtype)
    requires Run(i, vl, vtype, vlenb, x, regs, mem, start).Finished?
    ensures i.form.Index? ==> i.form.vs2 * vlenb + (e + 1) * Bytes(i.width) <= |regs|
    ensures var o := Run(i, vl, vtype, vlenb, x, regs, mem, start);
            var (p, a) := (RegisterByte(i, vtype, vlenb, seg, e, j), MemoryByte(i, vtype, vlenb, x, regs, seg, e, j));
            && o.mem == mem && p < |regs| == |o.regs|
            && if start <= e && Enabled(i, regs, e) then a in mem && o.regs[p] == mem[a] else o.regs[p] == regs[p]
  {
    hide Legal, Group, LittleEndian, Enabled, Active, Exec, Dest, Addr, ElemAddr, MemoryByte, RegisterByte;
    var op := Meaning(i, vl, vtype, vlenb, x);
    MaskIs(i, vl, vtype, vlenb, x, regs, start);
    MaskIs(i, vl, vtype, vlenb, x, regs, e);
    PlacesAre(i, vl, vtype, vlenb, x, regs, seg, e, j);
    LoadByte(op, MaskOf(op, regs), regs, mem, start, seg, e, j);
  }

  // A fault-only-first load does the same with the element it starts at.
  lemma FirstMeans(i: Insn, vl: nat, vtype: nat, vlenb: nat, x: seq<nat>, regs: seq<u8>, mem: map<nat, u8>, start: nat,
                   seg: nat, j: nat)
    requires Runs(i, vl, vtype, vlenb, x, regs, start) && i.load && i.form.FaultFirst?
    requires seg < Segments(i) && j < ElementBytes(i, vtype)
    requires Run(i, vl, vtype, vlenb, x, regs, mem, start).Finished?
    ensures var o := Run(i, vl, vtype, vlenb, x, regs, mem, start);
            var (p, a) := (RegisterByte(i, vtype, vlenb, seg, start, j),
                           MemoryByte(i, vtype, vlenb, x, regs, seg, start, j));
            && p < |regs| == |o.regs|
            && if Enabled(i, regs, start) then a in mem && o.regs[p] == mem[a] else o.regs[p] == regs[p]
  {
    hide Legal, Group, LittleEndian, Enabled, Active, Element, Dest, Addr, ElemAddr, MemoryByte, RegisterByte;
    var op := Meaning(i, vl, vtype, vlenb, x);
    MaskIs(i, vl, vtype, vlenb, x, regs, start);
    PlacesAre(i, vl, vtype, vlenb, x, regs, seg, start, j);
    ElementHit(op, MaskOf(op, regs), regs, mem, start, seg, j);
  }

  // Element e stores a byte at address a.
  ghost predicate StoresTo(i: Insn, vl: nat, vtype: nat, vlenb: nat, x: seq<nat>, regs: seq<u8>, seg: nat, e: nat,
                           j: nat, a: nat)
    requires Runs(i, vl, vtype, vlenb, x, regs, e)
  {
    IndexFits(i, vl, vtype, vlenb, x, e);
    && seg < Segments(i) && j < ElementBytes(i, vtype) && Enabled(i, regs, e)
    && MemoryByte(i, vtype, vlenb, x, regs, seg, e, j) == a
  }

  // A store that finishes: a byte holds what the last enabled element to store there has in
  // its register.
  lemma StoreMeans(i: Insn, vl: nat, vtype: nat, vlenb: nat, x: seq<nat>, regs: seq<u8>, mem: map<nat, u8>, start: nat,
                   seg: nat, e: nat, j: nat, a: nat)
    requires Runs(i, vl, vtype, vlenb, x, regs, start) && !i.load && start <= e < Count(i, vl, vlenb)
    requires Run(i, vl, vtype, vlenb, x, regs, mem, start).Finished?
    requires StoresTo(i, vl, vtype, vlenb, x, regs, seg, e, j, a)
    requires forall s, y, k :: 0 <= s && e < y < Count(i, vl, vlenb) && 0 <= k ==>
               !StoresTo(i, vl, vtype, vlenb, x, regs, s, y, k, a)
    ensures var (o, p) := (Run(i, vl, vtype, vlenb, x, regs, mem, start), RegisterByte(i, vtype, vlenb, seg, e, j));
            o.regs == regs && p < |regs| && a in o.mem && o.mem[a] == regs[p]
  {
    hide Legal, Group, LittleEndian, Enabled, Active, Exec, Dest, Addr, ElemAddr, MemoryByte, RegisterByte, Writes,
      StoresTo;
    var op := Meaning(i, vl, vtype, vlenb, x);
    MaskIs(i, vl, vtype, vlenb, x, regs, start);
    MaskIs(i, vl, vtype, vlenb, x, regs, e);
    PlacesAre(i, vl, vtype, vlenb, x, regs, seg, e, j);
    forall y, k | e < y < op.evl && 0 <= k
      ensures Ready(op, MaskOf(op, regs), regs, y) && !Writes(op, MaskOf(op, regs), regs, y, k, a)
    {
      WriteIs(i, vl, vtype, vlenb, x, regs, y, k, a);
    }
    StoreIs(i, vl, vtype, vlenb, x, regs, seg, e, j, a);
    StoreByte(op, MaskOf(op, regs), regs, mem, start, seg, e, j, a);
  }

  // And a byte that no enabled element stores to is as it was.
  lemma StoreKeepsOthers(i: Insn, vl: nat, vtype: nat, vlenb: nat, x: seq<nat>, regs: seq<u8>, mem: map<nat, u8>,
                         start: nat, a: nat)
    requires Runs(i, vl, vtype, vlenb, x, regs, start) && !i.load && a in mem
    requires forall s, y, k :: 0 <= s && start <= y < Count(i, vl, vlenb) && 0 <= k ==>
               !StoresTo(i, vl, vtype, vlenb, x, regs, s, y, k, a)
    ensures var o := Run(i, vl, vtype, vlenb, x, regs, mem, start); a in o.mem && o.mem[a] == mem[a]
  {
    hide Legal, Group, LittleEndian, Enabled, Active, Exec, Dest, Addr, ElemAddr, MemoryByte, RegisterByte, Writes,
      StoresTo;
    var op := Meaning(i, vl, vtype, vlenb, x);
    MaskIs(i, vl, vtype, vlenb, x, regs, start);
    forall y, k | start <= y < op.evl && 0 <= k
      ensures Ready(op, MaskOf(op, regs), regs, y) && !Writes(op, MaskOf(op, regs), regs, y, k, a)
    {
      WriteIs(i, vl, vtype, vlenb, x, regs, y, k, a);
    }
    StoreOther(op, MaskOf(op, regs), regs, mem, start, a);
  }

  lemma StoreIs(i: Insn, vl: nat, vtype: nat, vlenb: nat, x: seq<nat>, regs: seq<u8>, seg: nat, e: nat, j: nat, a: nat)
    requires Runs(i, vl, vtype, vlenb, x, regs, e) && StoresTo(i, vl, vtype, vlenb, x, regs, seg, e, j, a)
    ensures seg < Segments(i) && j < ElementBytes(i, vtype) && Enabled(i, regs, e)
    ensures i.form.Index? ==> i.form.vs2 * vlenb + (e + 1) * Bytes(i.width) <= |regs|
    ensures MemoryByte(i, vtype, vlenb, x, regs, seg, e, j) == a
  {
    hide Legal, Group, LittleEndian, Enabled, MemoryByte;
    IndexFits(i, vl, vtype, vlenb, x, e);
  }

  // Byte k of an element is byte k % n of its segment k / n.
  lemma WriteIs(i: Insn, vl: nat, vtype: nat, vlenb: nat, x: seq<nat>, regs: seq<u8>, e: nat, k: nat, a: nat)
    requires Runs(i, vl, vtype, vlenb, x, regs, e)
    ensures var op := Meaning(i, vl, vtype, vlenb, x);
            && vlenb <= |regs| && Ready(op, MaskOf(op, regs), regs, e)
            && (Writes(op, MaskOf(op, regs), regs, e, k, a) ==>
                  exists s, j :: 0 <= s && 0 <= j && StoresTo(i, vl, vtype, vlenb, x, regs, s, e, j, a))
  {
    hide Legal, Group, LittleEndian, Enabled, Active, Dest, Addr, ElemAddr, MemoryByte, RegisterByte;
    var op := Meaning(i, vl, vtype, vlenb, x);
    MaskIs(i, vl, vtype, vlenb, x, regs, e);
    IndexFits(i, vl, vtype, vlenb, x, e);
    if Writes(op, MaskOf(op, regs), regs, e, k, a) {
      var s, j := SegmentHas(k, Segments(i), ElementBytes(i, vtype));
      PlacesAre(i, vl, vtype, vlenb, x, regs, s, e, j);
      assert StoresTo(i, vl, vtype, vlenb, x, regs, s, e, j, a);
    }
  }

  lemma SegmentHas(k: nat, segments: nat, n: nat) returns (s: nat, j: nat)
    requires n > 0 && k < segments * n
    ensures s < segments && j < n && k == s * n + j
  {
    s, j := Divided(k, n);
    if segments < s {
      Apart(n, segments, s);
    }
  }

  // The addresses and positions of the specification are those of the instruction.
  lemma PlacesAre(i: Insn, vl: nat, vtype: nat, vlenb: nat, x: seq<nat>, regs: seq<u8>, seg: nat, e: nat, j: nat)
    requires Exists(i) && LegalVtype(vtype) && |x| == 32
    requires File(Meaning(i, vl, vtype, vlenb, x), regs) && e < Count(i, vl, vlenb)
    ensures i.form.Index? ==> i.form.vs2 * vlenb + (e + 1) * Bytes(i.width) <= |regs|
    ensures var op := Meaning(i, vl, vtype, vlenb, x);
            && Dest(op, seg, e) + j == RegisterByte(i, vtype, vlenb, seg, e, j)
            && Addr(ElemAddr(op, regs, e), SegAt(op, seg) + j) == MemoryByte(i, vtype, vlenb, x, regs, seg, e, j)
  {
    hide Legal, Group, LittleEndian;
    IndexFits(i, vl, vtype, vlenb, x, e);
    var op := Meaning(i, vl, vtype, vlenb, x);
    if i.form.Index? {
      assert ElemAddr(op, regs, e) == x[i.rs1] + LittleEndian(regs[IndexAt(op, e)..IndexAt(op, e) + op.isize]);
    } else if i.form.Stride? {
      assert ElemAddr(op, regs, e) == x[i.rs1] + e * x[i.form.rs2];
    } else {
      assert ElemAddr(op, regs, e) == x[i.rs1] + e * (Segments(i) * ElementBytes(i, vtype));
    }
  }
}
