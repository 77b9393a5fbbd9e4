// The flattened-devicetree scanner and the pruner built on it, machine/fdt.c
// (section 5.4 of the Devicetree Specification).

module DeviceTree {
  import opened Words

  const FDT_BEGIN_NODE: u32 := 1
  const FDT_END_NODE: u32 := 2
  const FDT_PROP: u32 := 3
  const FDT_NOP: u32 := 4

  // Words of the structure block are in host order.

  // The four bytes of a word as they lie in memory.
  function Bytes4(w: u32): seq<u8> {
    [w / 0x100_0000, w / 0x1_0000 % 0x100, w / 0x100 % 0x100, w % 0x100]
  }

  predicate HasNul(w: u32) { 0 in Bytes4(w) }

  // A node name with its terminator and padding: the first word with a NUL is the last.
  predicate IsName(name: seq<u32>) {
    |name| > 0 && HasNul(name[|name| - 1]) && forall i :: 0 <= i < |name| - 1 ==> !HasNul(name[i])
  }

  // As many words as hold len bytes.
  function ValueWords(len: nat): (n: nat)
    ensures len <= 4 * n < len + 4
  {
    (len + 3) / 4
  }

  // A property: offset of its name, length of its value in bytes, the value's words.
  datatype Prop = Prop(name: u32, len: u32, words: seq<u32>)

  function PropWords(p: Prop): seq<u32> { [FDT_PROP, p.len, p.name] + p.words }

  // What lies between a node's name and its end: NOPs, properties and child nodes.
  datatype Body =
    | End
    | Nop(rest: Body)
    | Property(prop: Prop, rest: Body)
    | Child(name: seq<u32>, body: Body, rest: Body)

  // Names and values have the size they claim, and no property follows a child.
  predicate WellFormed(b: Body, last: bool) {
    match b
    case End => true
    case Nop(r) => WellFormed(r, last)
    case Property(p, r) => !last && |p.words| == ValueWords(p.len) && WellFormed(r, last)
    case Child(n, c, r) => IsName(n) && WellFormed(c, false) && WellFormed(r, true)
  }

  // The words of the structure block.
  function Print(b: Body): seq<u32>
    decreases b, 0
  {
    match b
    case End => []
    case Nop(r) => [FDT_NOP] + Print(r)
    case Property(p, r) => PropWords(p) + Print(r)
    case Child(n, c, r) => PrintNode(n, c) + Print(r)
  }

  function PrintNode(name: seq<u32>, body: Body): seq<u32>
    decreases body, 1
  {
    [FDT_BEGIN_NODE] + name + Print(body) + [FDT_END_NODE]
  }

  // ---- The events of a scan ----

  datatype Event = Open(name: seq<u32>) | PropSeen(p: Prop) | Done | Close(name: seq<u32>)

  // What the loop of fdt_scan_helper emits for what is left of a node: `last` says a
  // child was seen, `node` that there is an enclosing node.
  function Emitted(b: Body, last: bool, node: bool): seq<Event> {
    match b
    case End => if !last && node then [Done] else []
    case Nop(r) => Emitted(r, last, node)
    case Property(p, r) => [PropSeen(p)] + Emitted(r, last, node)
    case Child(n, c, r) =>
      (if !last && node then [Done] else []) + [Open(n)] + Emitted(c, false, true) + [Close(n)] + Emitted(r, true, node)
  }

  // The properties of a node, in order.
  function Props(b: Body): seq<Prop> {
    match b
    case End => []
    case Nop(r) => Props(r)
    case Property(p, r) => [p] + Props(r)
    case Child(_, _, r) => Props(r)
  }

  function PropEvents(ps: seq<Prop>): seq<Event> {
    if ps == [] then [] else [PropSeen(ps[0])] + PropEvents(ps[1..])
  }

  // What a scan of a node is meant to report: open, every property, done once, every
  // child in order, close.
  function NodeEvents(name: seq<u32>, body: Body): seq<Event>
    decreases body, 1
  {
    [Open(name)] + PropEvents(Props(body)) + [Done] + ChildEvents(body) + [Close(name)]
  }

  function ChildEvents(b: Body): seq<Event>
    decreases b, 0
  {
    match b
    case End => []
    case Nop(r) => ChildEvents(r)
    case Property(_, r) => ChildEvents(r)
    case Child(n, c, r) => NodeEvents(n, c) + ChildEvents(r)
  }

  lemma NoLateProps(b: Body)
    requires WellFormed(b, true)
    ensures Props(b) == []
  {
  }

  // The scanner reports what it is meant to.
  lemma {:induction false} EmittedIsMeant(b: Body, last: bool, node: bool)
    requires WellFormed(b, last)
    ensures last ==> Emitted(b, last, node) == ChildEvents(b)
    ensures !last ==> Emitted(b, last, node) == PropEvents(Props(b)) + (if node then [Done] else []) + ChildEvents(b)
  {
    match b
    case End =>
    case Nop(r) => EmittedIsMeant(r, last, node);
    case Property(p, r) =>
      EmittedIsMeant(r, last, node);
      PropIsMeant(p, r, last, node);
    case Child(n, c, r) =>
      EmittedIsMeant(c, false, true);
      EmittedIsMeant(r, true, node);
      var done := if !last && node then [Done] else [];
      ChildIsMeant(done, n, c, Emitted(c, false, true), Emitted(r, true, node));
      ChildLast(n, c, r);
  }

  lemma PropIsMeant(p: Prop, r: Body, last: bool, node: bool)
    requires !last && Emitted(r, last, node) == PropEvents(Props(r)) + (if node then [Done] else []) + ChildEvents(r)
    ensures Emitted(Property(p, r), last, node)
         == PropEvents(Props(Property(p, r))) + (if node then [Done] else []) + ChildEvents(Property(p, r))
  {
    assert PropEvents([p] + Props(r)) == [PropSeen(p)] + PropEvents(Props(r)) by {
      assert ([p] + Props(r))[1..] == Props(r);
    }
  }

  lemma ChildLast(n: seq<u32>, c: Body, r: Body)
    requires WellFormed(r, true)
    ensures PropEvents(Props(Child(n, c, r))) == [] && ChildEvents(Child(n, c, r)) == NodeEvents(n, c) + ChildEvents(r)
  {
    NoLateProps(r);
  }

  lemma ChildIsMeant(done: seq<Event>, n: seq<u32>, c: Body, inner: seq<Event>, after: seq<Event>)
    requires inner == PropEvents(Props(c)) + [Done] + ChildEvents(c)
    ensures done + [Open(n)] + inner + [Close(n)] + after == done + (NodeEvents(n, c) + after)
  {
    hide PropEvents, Props, ChildEvents;
    assert [Open(n)] + inner + [Close(n)] == NodeEvents(n, c);
  }

  // ---- String lists ----

  // The strings of a NUL-separated list; the bytes after the last NUL are one more.
  function Strings(bytes: seq<u8>): (r: seq<seq<u8>>)
    decreases |bytes|
  {
    if bytes == [] then [] else [bytes[..StrLen(bytes)]] + Strings(AfterFirst(bytes))
  }

  function AfterFirst(bytes: seq<u8>): (r: seq<u8>)
    requires bytes != []
    ensures |r| < |bytes|
  {
    if StrLen(bytes) < |bytes| then bytes[StrLen(bytes) + 1..] else []
  }

  function StrLen(bytes: seq<u8>): (n: nat)
    ensures n <= |bytes| && (n < |bytes| ==> bytes[n] == 0) && 0 !in bytes[..n]
  {
    if bytes == [] || bytes[0] == 0 then 0 else 1 + StrLen(bytes[1..])
  }

  // The bytes of a property's value.
  function WordBytes(ws: seq<u32>): (r: seq<u8>)
    ensures |r| == 4 * |ws|
  {
    if ws == [] then [] else Bytes4(ws[0]) + WordBytes(ws[1..])
  }

  function Value(p: Prop): seq<u8>
    requires |p.words| == ValueWords(p.len)
  {
    WordBytes(p.words)[..p.len]
  }

  // A value that is a list of strings: empty, or ending in a NUL.
  predicate IsStringList(bytes: seq<u8>) {
    bytes != [] ==> bytes[|bytes| - 1] == 0
  }

  // fdt_string_list_index: the position of the first string equal to str, or -1.
  method StringListIndex(bytes: seq<u8>, str: seq<u8>) returns (index: int)
    requires IsStringList(bytes) && 0 !in str
    ensures index == -1 <==> str !in Strings(bytes)
    ensures index != -1 ==>
              0 <= index < |Strings(bytes)| && Strings(bytes)[index] == str && str !in Strings(bytes)[..index]
  {
    hide Strings, StrLen;
    ghost var all := Strings(bytes);
    var list := 0;
    index := 0;
    assert bytes[0..] == bytes;
    while list < |bytes|
      invariant 0 <= list <= |bytes| && IsStringList(bytes[list..])
      invariant 0 <= index <= |all| && all[index..] == Strings(bytes[list..])
      invariant str !in all[..index]
      decreases |bytes| - list
    {
      var n := StrLen(bytes[list..]);
      FirstString(bytes[list..]);
      assert all[index] == all[index..][0];
      assert bytes[list..][..n] == bytes[list..list + n];
      if bytes[list..list + n] == str {
        return;
      }
      assert bytes[list..][n + 1..] == bytes[list + n + 1..];
      assert all[index + 1..] == all[index..][1..];
      assert all[..index + 1] == all[..index] + [all[index]];
      index := index + 1;
      list := list + n + 1;
    }
    NoString(bytes[list..]);
    assert all[..index] == all;
    index := -1;
  }

  lemma FirstString(bytes: seq<u8>)
    requires bytes != [] && IsStringList(bytes)
    ensures var n := StrLen(bytes);
            n < |bytes| && Strings(bytes) == [bytes[..n]] + Strings(bytes[n + 1..]) && IsStringList(bytes[n + 1..])
  {
    hide StrLen, AfterFirst;
    EndsInside(bytes, StrLen(bytes));
    AfterIs(bytes);
  }

  lemma AfterIs(bytes: seq<u8>)
    requires bytes != [] && StrLen(bytes) < |bytes|
    ensures AfterFirst(bytes) == bytes[StrLen(bytes) + 1..]
  {
    hide StrLen;
  }

  lemma EndsInside(bytes: seq<u8>, n: nat)
    requires bytes != [] && IsStringList(bytes) && n <= |bytes| && 0 !in bytes[..n]
    ensures n < |bytes| && IsStringList(bytes[n + 1..])
  {
    assert bytes[|bytes| - 1] == 0;
    assert 0 in bytes[..|bytes|] by {
      assert bytes[..|bytes|][|bytes| - 1] == 0;
    }
    var after := bytes[n + 1..];
    assert after != [] ==> after[|after| - 1] == bytes[|bytes| - 1];
  }

  lemma NoString(bytes: seq<u8>)
    requires bytes == []
    ensures Strings(bytes) == []
  {
  }

  // ---- Pruning ----

  // The string at an offset of the strings block.
  function NameAt(strings: seq<u8>, off: nat): seq<u8> {
    if off <= |strings| then strings[off..][..StrLen(strings[off..])] else []
  }

  function Ascii(s: string): seq<u8>
    requires forall i :: 0 <= i < |s| ==> s[i] as int < 0x100
  {
    seq(|s|, i requires 0 <= i < |s| => s[i] as int)
  }

  lemma CompatibleIs()
    ensures COMPATIBLE == Ascii("compatible")
  {
  }

  // The string at an offset is the bytes up to the next NUL or the end.
  lemma NameAtIs(strings: seq<u8>, off: nat, name: seq<u8>)
    requires off <= |strings|
    ensures NameAt(strings, off) == name <==>
              && 0 !in name && off + |name| <= |strings| && strings[off..off + |name|] == name
              && (off + |name| < |strings| ==> strings[off + |name|] == 0)
  {
    hide StrLen;
    var rest := strings[off..];
    var n := StrLen(rest);
    assert rest[..n] == strings[off..off + n] && (n < |rest| ==> strings[off + n] == rest[n]);
    assert forall i :: 0 <= i < n ==> rest[..n][i] == strings[off + i];
    if off + |name| <= |strings| && strings[off..off + |name|] == name {
      assert forall i :: 0 <= i < |name| ==> name[i] == strings[off + i];
    }
  }

  // Byte k of a value: values are big-endian words.
  lemma {:induction false} WordByte(ws: seq<u32>, k: nat)
    requires k < 4 * |ws|
    ensures WordBytes(ws)[k] == Bytes4(ws[k / 4])[k % 4]
  {
    if k >= 4 {
      WordByte(ws[1..], k - 4);
    }
  }

  lemma BigEndian(w: u32)
    ensures var b: seq<nat> := Bytes4(w);
            |b| == 4 && w == 0x100_0000 * b[0] + 0x1_0000 * b[1] + 0x100 * b[2] + b[3]
  {
    ByteAbove(w, 0x100);
    ByteAbove(w, 0x1_0000);
  }

  lemma ByteAbove(w: nat, p: nat)
    requires p in {0x100, 0x1_0000}
    ensures w / p == 0x100 * (w / (0x100 * p)) + w / p % 0x100
  {
    if p == 0x100 {
      assert w / 0x1_0000 == w / 0x100 / 0x100;
    } else {
      assert w / 0x100_0000 == w / 0x1_0000 / 0x100;
    }
  }

  const COMPATIBLE: seq<u8> := [0x63, 0x6f, 0x6d, 0x70, 0x61, 0x74, 0x69, 0x62, 0x6c, 0x65]

  // The property says the node is compatible with `compat`.
  predicate Names(p: Prop, strings: seq<u8>, compat: seq<u8>)
    requires |p.words| == ValueWords(p.len)
  {
    NameAt(strings, p.name) == COMPATIBLE && compat in Strings(Value(p))
  }

  // "compatible" properties are string lists.
  predicate Readable(b: Body, strings: seq<u8>) {
    match b
    case End => true
    case Nop(r) => Readable(r, strings)
    case Property(p, r) =>
      |p.words| == ValueWords(p.len) && (NameAt(strings, p.name) == COMPATIBLE ==> IsStringList(Value(p))) &&
      Readable(r, strings)
    case Child(_, c, r) => Readable(c, strings) && Readable(r, strings)
  }

  function Nops(n: nat, rest: Body): Body {
    if n == 0 then rest else Nop(Nops(n - 1, rest))
  }

  // A node lists `compat` among its own properties.
  predicate Lists(b: Body, strings: seq<u8>, compat: seq<u8>)
    requires Readable(b, strings)
  {
    match b
    case End => false
    case Nop(r) => Lists(r, strings, compat)
    case Property(p, r) => Names(p, strings, compat) || Lists(r, strings, compat)
    case Child(_, _, r) => Lists(r, strings, compat)
  }

  // What filter_compat is for: every outermost node that lists `compat` overwritten
  // with as many NOPs, all else as it was.
  function Prune(b: Body, strings: seq<u8>, compat: seq<u8>): Body
    requires Readable(b, strings)
  {
    match b
    case End => End
    case Nop(r) => Nop(Prune(r, strings, compat))
    case Property(p, r) => Property(p, Prune(r, strings, compat))
    case Child(n, c, r) =>
      if Lists(c, strings, compat) then Nops(|PrintNode(n, c)|, Prune(r, strings, compat))
      else Child(n, Prune(c, strings, compat), Prune(r, strings, compat))
  }

  const NO_KILL := 999

  // What filter_compat does to the rest of a node at `depth`, starting from scan.kill:
  // the new words, as a body, and the new scan.kill.
  function Filter(b: Body, strings: seq<u8>, compat: seq<u8>, depth: nat, kill: nat): (Body, nat)
    requires Readable(b, strings)
  {
    match b
    case End => (End, kill)
    case Nop(r) => var (r', k) := Filter(r, strings, compat, depth, kill); (Nop(r'), k)
    case Property(p, r) =>
      var marked := if Names(p, strings, compat) && depth < kill then depth else kill;
      var (r', k) := Filter(r, strings, compat, depth, marked);
      (Property(p, r'), k)
    case Child(n, c, r) =>
      var (c', k) := Filter(c, strings, compat, depth + 1, kill);
      var (r', k') := Filter(r, strings, compat, depth, if k == depth + 1 then NO_KILL else k);
      (if k == depth + 1 then Nops(|PrintNode(n, c)|, r') else Child(n, c', r'), k')
  }

  // Once a node is marked, nothing below it changes the mark or is pruned on its own.
  lemma {:induction false} MarkedStays(b: Body, strings: seq<u8>, compat: seq<u8>, depth: nat, kill: nat)
    requires Readable(b, strings) && kill <= depth
    ensures Filter(b, strings, compat, depth, kill) == (b, kill)
  {
    match b
    case End =>
    case Nop(r) => MarkedStays(r, strings, compat, depth, kill);
    case Property(p, r) => MarkedStays(r, strings, compat, depth, kill);
    case Child(n, c, r) =>
      MarkedStays(c, strings, compat, depth + 1, kill);
      MarkedStays(r, strings, compat, depth, kill);
  }

  // Nodes at depth 999 would be pruned whether or not they list `compat`.
  predicate Faithful(b: Body, strings: seq<u8>, compat: seq<u8>, depth: nat)
    requires Readable(b, strings)
  {
    match b
    case End => true
    case Nop(r) => Faithful(r, strings, compat, depth)
    case Property(_, r) => Faithful(r, strings, compat, depth)
    case Child(_, c, r) =>
      (Lists(c, strings, compat) || (depth + 1 != 999 && Faithful(c, strings, compat, depth + 1))) &&
      Faithful(r, strings, compat, depth)
  }

  // The mark a node ends with says whether it lists `compat`, and the pruning is the one
  // meant exactly when every node at depth 999 that no pruned node contains lists it.
  lemma {:induction false} FilterIsPrune(b: Body, strings: seq<u8>, compat: seq<u8>, depth: nat, last: bool)
    requires Readable(b, strings) && WellFormed(b, last) && depth < NO_KILL
    ensures Filter(b, strings, compat, depth, NO_KILL).1 == if Lists(b, strings, compat) then depth else NO_KILL
    ensures !Lists(b, strings, compat) ==>
              (Filter(b, strings, compat, depth, NO_KILL).0 == Prune(b, strings, compat) <==>
              Faithful(b, strings, compat, depth))
  {
    match b
    case End =>
    case Nop(r) => FilterIsPrune(r, strings, compat, depth, last);
    case Property(p, r) =>
      if Names(p, strings, compat) {
        MarkedStays(r, strings, compat, depth, depth);
      } else {
        FilterIsPrune(r, strings, compat, depth, last);
      }
    case Child(n, c, r) =>
      FilterIsPrune(r, strings, compat, depth, true);
      NoLateLists(r, strings, compat);
      if depth + 1 < NO_KILL {
        FilterIsPrune(c, strings, compat, depth + 1, false);
      } else {
        MarkedStays(c, strings, compat, depth + 1, NO_KILL);
      }
      NopsSame(|PrintNode(n, c)|, Filter(r, strings, compat, depth, NO_KILL).0, Prune(r, strings, compat));
  }

  lemma NoLateLists(b: Body, strings: seq<u8>, compat: seq<u8>)
    requires Readable(b, strings) && WellFormed(b, true)
    ensures !Lists(b, strings, compat)
  {
  }

  lemma {:induction false} NopsSame(n: nat, r: Body, s: Body)
    ensures Nops(n, r) == Nops(n, s) <==> r == s
  {
    if n > 0 {
      NopsSame(n - 1, r, s);
    }
  }

  // A chain of n nested nodes without properties.
  function Tower(n: nat): Body {
    if n == 0 then End else Child([0], Tower(n - 1), End)
  }

  // So a tree can lose a node that lists nothing: a chain is spared just when it ends
  // above depth 999.
  lemma {:induction false} TowerFaithful(n: nat, strings: seq<u8>, compat: seq<u8>, depth: nat)
    requires depth < 999
    ensures Readable(Tower(n), strings) && WellFormed(Tower(n), false) && !Lists(Tower(n), strings, compat)
    ensures Faithful(Tower(n), strings, compat, depth) <==> depth + n < 999
    ensures Filter(Tower(n), strings, compat, depth, NO_KILL).0 == Tower(n) <==> depth + n < 999
  {
    if n > 0 {
      if depth + 1 < NO_KILL {
        TowerFaithful(n - 1, strings, compat, depth + 1);
      } else {
        TowerShape(n - 1, strings, compat);
      }
    }
    FilterIsPrune(Tower(n), strings, compat, depth, false);
    TowerShape(n, strings, compat);
  }

  lemma {:induction false} TowerShape(n: nat, strings: seq<u8>, compat: seq<u8>)
    ensures Readable(Tower(n), strings) && WellFormed(Tower(n), false) && !Lists(Tower(n), strings, compat)
    ensures Prune(Tower(n), strings, compat) == Tower(n)
  {
    if n > 0 {
      TowerShape(n - 1, strings, compat);
    }
  }

  function NopWords(n: nat): seq<u32> {
    seq(n, i => FDT_NOP)
  }

  lemma {:induction false} PrintNops(n: nat, r: Body)
    ensures Print(Nops(n, r)) == NopWords(n) + Print(r)
  {
    if n > 0 {
      PrintNops(n - 1, r);
    } else {
      assert Print(Nops(n, r)) == [] + Print(r);
    }
  }

  // The block keeps its length.
  lemma {:induction false} FilterSize(b: Body, strings: seq<u8>, compat: seq<u8>, depth: nat, kill: nat)
    requires Readable(b, strings)
    ensures |Print(Filter(b, strings, compat, depth, kill).0)| == |Print(b)|
  {
    match b
    case End =>
    case Nop(r) => FilterSize(r, strings, compat, depth, kill);
    case Property(p, r) =>
      FilterSize(r, strings, compat, depth, if Names(p, strings, compat) && depth < kill then depth else kill);
    case Child(n, c, r) =>
      var k := Filter(c, strings, compat, depth + 1, kill).1;
      FilterSize(c, strings, compat, depth + 1, kill);
      FilterSize(r, strings, compat, depth, if k == depth + 1 then NO_KILL else k);
      PrintNops(|PrintNode(n, c)|, Filter(r, strings, compat, depth, if k == depth + 1 then NO_KILL else k).0);
  }

  // The events of the tree without its listed nodes.
  function KeptEvents(b: Body, strings: seq<u8>, compat: seq<u8>): seq<Event>
    requires Readable(b, strings)
  {
    match b
    case End => []
    case Nop(r) => KeptEvents(r, strings, compat)
    case Property(_, r) => KeptEvents(r, strings, compat)
    case Child(n, c, r) =>
      (if Lists(c, strings, compat) then []
       else [Open(n)] + PropEvents(Props(c)) + [Done] + KeptEvents(c, strings, compat) + [Close(n)]) +
      KeptEvents(r, strings, compat)
  }

  lemma {:induction false} NopsEvents(n: nat, r: Body)
    ensures ChildEvents(Nops(n, r)) == ChildEvents(r) && Props(Nops(n, r)) == Props(r)
    ensures forall last :: WellFormed(Nops(n, r), last) == WellFormed(r, last)
  {
    if n > 0 {
      NopsEvents(n - 1, r);
    }
  }

  // A rescan of the pruned block reports the kept nodes with their properties, and
  // nothing of the others.
  lemma {:induction false} PruneEvents(b: Body, strings: seq<u8>, compat: seq<u8>, last: bool)
    requires Readable(b, strings) && WellFormed(b, last)
    ensures ChildEvents(Prune(b, strings, compat)) == KeptEvents(b, strings, compat)
    ensures Props(Prune(b, strings, compat)) == Props(b)
    ensures WellFormed(Prune(b, strings, compat), last)
  {
    match b
    case End =>
    case Nop(r) => PruneEvents(r, strings, compat, last);
    case Property(p, r) => PruneEvents(r, strings, compat, last);
    case Child(n, c, r) =>
      PruneEvents(r, strings, compat, true);
      PruneEvents(c, strings, compat, false);
      NopsEvents(|PrintNode(n, c)|, Prune(r, strings, compat));
      WellFormedEarlier(Prune(r, strings, compat));
  }

  lemma WellFormedEarlier(b: Body)
    requires WellFormed(b, true)
    ensures WellFormed(b, false)
  {
  }
}
