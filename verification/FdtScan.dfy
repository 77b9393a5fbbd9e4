// The scanner of machine/fdt.c run in place on the words of a structure block, with the
// callbacks of filter_compat.

module FdtScan {
  import opened DeviceTree
  import opened Words

  // struct compat_scan with its callbacks. `log` is what a callback for every event would
  // have been told.
  class CompatScan {
    const strings: seq<u8>
    const compat: seq<u8>
    var depth: nat
    var kill: nat
    ghost var log: seq<Event>

    constructor (strings: seq<u8>, compat: seq<u8>)
      ensures this.strings == strings && this.compat == compat
      ensures depth == 0 && kill == NO_KILL && log == []
    {
      this.strings, this.compat := strings, compat;
      depth, kill, log := 0, NO_KILL, [];
    }

    // compat_open
    method Open(ghost name: seq<u32>)
      modifies this
      ensures depth == old(depth) + 1 && kill == old(kill)
      ensures log == old(log) + [Event.Open(name)]
    {
      depth := depth + 1;
      log := log + [Event.Open(name)];
    }

    // compat_prop
    method Prop(p: Prop)
      requires |p.words| == ValueWords(p.len) && 0 !in compat
      requires NameAt(strings, p.name) == COMPATIBLE ==> IsStringList(Value(p))
      modifies this
      ensures kill == (if Names(p, strings, compat) && depth < old(kill) then depth else old(kill)) &&
                depth == old(depth)
      ensures log == old(log) + [PropSeen(p)]
    {
      log := log + [PropSeen(p)];
      if NameAt(strings, p.name) == COMPATIBLE {
        var index := StringListIndex(Value(p), compat);
        if index >= 0 && depth < kill {
          kill := depth;
        }
      }
    }

    // compat_close: whether the node is to be deleted.
    method Close(ghost name: seq<u32>) returns (delete: bool)
      requires depth > 0
      modifies this
      ensures delete <==> old(kill) == old(depth)
      ensures kill == (if delete then NO_KILL else old(kill)) && depth == old(depth) - 1
      ensures log == old(log) + [Event.Close(name)]
    {
      delete := kill == depth;
      depth := depth - 1;
      log := log + [Event.Close(name)];
      if delete {
        kill := NO_KILL;
      }
    }

    ghost method Done()
      modifies this`log
      ensures log == old(log) + [Event.Done]
    {
      log := log + [Event.Done];
    }
  }

  // The number of words of the name at lex: strlen(name)/4 + 1.
  method NameWords(blob: array<u32>, lex: nat, ghost name: seq<u32>) returns (n: nat)
    requires IsName(name) && lex + |name| <= blob.Length && blob[lex..lex + |name|] == name
    ensures n == |name|
  {
    n := 0;
    assert blob[lex..lex + |name|][0] == name[0];
    while !HasNul(blob[lex + n])
      invariant n < |name|
      decreases |name| - n
    {
      assert blob[lex..lex + |name|][n] == name[n];
      n := n + 1;
      assert blob[lex..lex + |name|][n] == name[n];
    }
    assert blob[lex..lex + |name|][n] == name[n];
    n := n + 1;
  }

  // while (lex != lex_next) *lex++ = bswap(FDT_NOP);
  method Overwrite(blob: array<u32>, lex: nat, next: nat)
    requires lex <= next <= blob.Length
    modifies blob
    ensures blob[..] == old(blob[..])[..lex] + NopWords(next - lex) + old(blob[..])[next..]
  {
    var l := lex;
    while l != next
      invariant lex <= l <= next
      invariant forall i :: 0 <= i < blob.Length ==> blob[i] == if lex <= i < l then FDT_NOP else old(blob[i])
      decreases next - l
    {
      blob[l] := FDT_NOP;
      l := l + 1;
    }
  }

  // `mem` with the words from lex on replaced by `words`.
  ghost function Patched(mem: seq<u32>, lex: nat, words: seq<u32>): seq<u32>
    requires lex + |words| <= |mem|
  {
    mem[..lex] + words + mem[lex + |words|..]
  }

  ghost predicate At(mem: seq<u32>, lex: nat, words: seq<u32>) {
    lex + |words| <= |mem| && mem[lex..lex + |words|] == words
  }

  // A word that ends a scan: neither a node's start, nor a property, nor a NOP.
  predicate Ends(w: u32) { w != FDT_BEGIN_NODE && w != FDT_PROP && w != FDT_NOP }

  // What is left of a node below one at `depth`.
  ghost function NodeWords(n: seq<u32>, c: Body, strings: seq<u8>, compat: seq<u8>, depth: nat, kill: nat): seq<u32>
    requires Readable(c, strings)
  {
    var (c', k) := Filter(c, strings, compat, depth + 1, kill);
    if k == depth + 1 then NopWords(|PrintNode(n, c)|) else PrintNode(n, c')
  }

  ghost function FilteredNode(n: seq<u32>, c: Body, s: CompatScan): seq<u32>
    reads s
    requires Readable(c, s.strings)
  {
    NodeWords(n, c, s.strings, s.compat, s.depth, s.kill)
  }

  // The FDT_BEGIN_NODE case of fdt_scan_helper: the child, and its deletion if asked.
  method ScanChild(blob: array<u32>, lex: nat, s: CompatScan, ghost n: seq<u32>, ghost c: Body) returns (next: nat)
    requires At(blob[..], lex, PrintNode(n, c)) && IsName(n) && WellFormed(c, false) && Readable(c, s.strings) &&
              0 !in s.compat
    modifies blob, s
    ensures next == lex + |PrintNode(n, c)|
    ensures |old(FilteredNode(n, c, s))| == |PrintNode(n, c)|
    ensures blob[..] == Patched(old(blob[..]), lex, old(FilteredNode(n, c, s)))
    ensures s.depth == old(s.depth)
    ensures s.kill == Closed(Filter(c, s.strings, s.compat, old(s.depth) + 1, old(s.kill)).1, old(s.depth))
    ensures s.log == old(s.log) + [Open(n)] + Emitted(c, false, true) + [Close(n)]
    decreases c, 1
  {
    hide Filter, Print, Emitted, At, Patched, Readable, WellFormed, PrintNode, NodeWords, Closed, IsName, HasNul,
      NopWords;
    ghost var mem := blob[..];
    ghost var c' := Filter(c, s.strings, s.compat, s.depth + 1, s.kill).0;
    ghost var k := Filter(c, s.strings, s.compat, s.depth + 1, s.kill).1;
    NodeParts(mem, lex, n, c);
    NodeIs(n, c, s.strings, s.compat, s.depth, s.kill);
    PatchNode(mem, lex, n, c, c');
    NameIs(mem, lex + 1, n);
    var words := NameWords(blob, lex + 1, n);
    s.Open(n);
    next := Scan(blob, lex + 1 + words, s, true, c);
    assert next == lex + |PrintNode(n, c)|;
    assert blob[..] == Patched(mem, lex, PrintNode(n, c')) && s.kill == k;
    var delete := s.Close(n);
    CloseIs(k, s.depth);
    if delete {
      NopsSize(next - lex);
      OverPatch(mem, lex, PrintNode(n, c'), NopWords(next - lex));
      Overwrite(blob, lex, next);
    }
  }

  lemma NameIs(mem: seq<u32>, lex: nat, n: seq<u32>)
    requires At(mem, lex, n)
    ensures lex + |n| <= |mem| && mem[lex..lex + |n|] == n
  {
  }

  lemma NopsSize(n: nat)
    ensures |NopWords(n)| == n
  {
  }

  lemma CloseIs(k: nat, depth: nat)
    ensures Closed(k, depth) == if k == depth + 1 then NO_KILL else k
  {
  }

  lemma NodeIs(n: seq<u32>, c: Body, strings: seq<u8>, compat: seq<u8>, depth: nat, kill: nat)
    requires Readable(c, strings)
    ensures |PrintNode(n, c)| == |n| + |Print(c)| + 2
    ensures var c' := Filter(c, strings, compat, depth + 1, kill).0;
            && |Print(c')| == |Print(c)| && |PrintNode(n, c')| == |PrintNode(n, c)|
            && NodeWords(n, c, strings, compat, depth, kill)
               == if Filter(c, strings, compat, depth + 1, kill).1 == depth + 1
                  then NopWords(|PrintNode(n, c)|) else PrintNode(n, c')
  {
    hide Filter, Print;
    FilterSize(c, strings, compat, depth + 1, kill);
  }

  // Part of a stretch of words lies where it should.
  lemma Part(mem: seq<u32>, lex: nat, before: seq<u32>, words: seq<u32>, after: seq<u32>)
    requires At(mem, lex, before + words + after)
    ensures At(mem, lex + |before|, words)
  {
    var all := before + words + after;
    var l := lex + |before|;
    forall i | 0 <= i < |words|
      ensures mem[l..l + |words|][i] == words[i]
    {
      assert mem[lex..lex + |all|][|before| + i] == all[|before| + i] == words[i];
    }
  }

  lemma NodeParts(mem: seq<u32>, lex: nat, n: seq<u32>, c: Body)
    requires At(mem, lex, PrintNode(n, c))
    ensures At(mem, lex + 1, n) && At(mem, lex + 1 + |n|, Print(c))
    ensures lex + 1 + |n| + |Print(c)| < |mem| && mem[lex + 1 + |n| + |Print(c)|] == FDT_END_NODE
    ensures mem[lex] == FDT_BEGIN_NODE
  {
    hide Print, At;
    InnerParts(mem, lex, FDT_BEGIN_NODE, n, Print(c), FDT_END_NODE);
    assert PrintNode(n, c) == [FDT_BEGIN_NODE] + (n + Print(c)) + [FDT_END_NODE];
    OuterParts(mem, lex, FDT_BEGIN_NODE, n + Print(c), FDT_END_NODE);
  }

  lemma InnerParts(mem: seq<u32>, lex: nat, w: u32, a: seq<u32>, b: seq<u32>, x: u32)
    requires At(mem, lex, [w] + a + b + [x])
    ensures At(mem, lex + 1, a) && At(mem, lex + 1 + |a|, b)
  {
    hide At;
    assert [w] + a + b + [x] == [w] + a + (b + [x]);
    Part(mem, lex, [w], a, b + [x]);
    Part(mem, lex, [w] + a, b, [x]);
  }

  lemma OuterParts(mem: seq<u32>, lex: nat, w: u32, a: seq<u32>, x: u32)
    requires At(mem, lex, [w] + a + [x])
    ensures lex + 1 + |a| < |mem| && mem[lex] == w && mem[lex + 1 + |a|] == x
  {
    var words := [w] + a + [x];
    assert mem[lex..lex + |words|][0] == words[0] && mem[lex..lex + |words|][1 + |a|] == words[1 + |a|];
  }

  lemma Word(mem: seq<u32>, lex: nat, w: u32)
    requires At(mem, lex, [w])
    ensures lex < |mem| && mem[lex] == w
  {
    assert mem[lex..lex + 1][0] == w;
  }

  // Patching the contents of a node patches the node.
  lemma PatchNode(mem: seq<u32>, lex: nat, n: seq<u32>, c: Body, c': Body)
    requires At(mem, lex, PrintNode(n, c)) && |Print(c')| == |Print(c)|
    ensures At(mem, lex + 1 + |n|, Print(c)) && lex + |PrintNode(n, c')| <= |mem|
    ensures Patched(mem, lex + 1 + |n|, Print(c')) == Patched(mem, lex, PrintNode(n, c'))
  {
    hide Print, Patched;
    NodeParts(mem, lex, n, c);
    PatchMiddle(mem, lex, [FDT_BEGIN_NODE] + n, Print(c), Print(c'), [FDT_END_NODE]);
  }

  lemma PatchMiddle(mem: seq<u32>, lex: nat, before: seq<u32>, words: seq<u32>, words': seq<u32>, after: seq<u32>)
    requires At(mem, lex, before + words + after) && |words| == |words'|
    ensures Patched(mem, lex + |before|, words') == Patched(mem, lex, before + words' + after)
  {
    var all := before + words + after;
    var p, q := Patched(mem, lex + |before|, words'), Patched(mem, lex, before + words' + after);
    forall i | 0 <= i < |mem|
      ensures p[i] == q[i]
    {
      if lex <= i < lex + |all| {
        assert mem[lex..lex + |all|][i - lex] == all[i - lex];
      }
    }
    assert p == q;
  }

  lemma OverPatch(mem: seq<u32>, lex: nat, words: seq<u32>, words': seq<u32>)
    requires lex + |words| <= |mem| && |words| == |words'|
    ensures var m := Patched(mem, lex, words); m[..lex] + words' + m[lex + |words|..] == Patched(mem, lex, words')
  {
  }

  // Where a scan has come to: `rest` of the node is still unread, and what is written,
  // marked and logged so far fits what the whole node is to become.
  ghost predicate Reached(mem0: seq<u32>, mem: seq<u32>, lex0: nat, lex: nat, b: Body, rest: Body, f: Filtering,
                          kill: nat, last: bool, node: bool, log: seq<Event>)
  {
    && Readable(b, f.strings) && Readable(rest, f.strings) && WellFormed(rest, last)
    && Position(mem0, mem, lex0, lex, b, rest)
    && mem[..lex] + Print(Filter(rest, f.strings, f.compat, f.depth, kill).0)
       == mem0[..lex0] + Print(Filter(b, f.strings, f.compat, f.depth, f.kill0).0)
    && Filter(rest, f.strings, f.compat, f.depth, kill).1 == Filter(b, f.strings, f.compat, f.depth, f.kill0).1
    && log + Emitted(rest, last, node) == f.log0 + Emitted(b, false, node)
  }

  // What stays the same while one node is scanned.
  datatype Filtering = Filtering(strings: seq<u8>, compat: seq<u8>, depth: nat, kill0: nat, log0: seq<Event>)

  ghost predicate Position(mem0: seq<u32>, mem: seq<u32>, lex0: nat, lex: nat, b: Body, rest: Body) {
    && lex0 <= lex && lex + |Print(rest)| == lex0 + |Print(b)| < |mem0| == |mem|
    && mem[lex..] == mem0[lex..] && At(mem0, lex, Print(rest))
  }

  lemma Start(mem: seq<u32>, lex0: nat, b: Body, f: Filtering, node: bool)
    requires At(mem, lex0, Print(b)) && lex0 + |Print(b)| < |mem| && WellFormed(b, false) && Readable(b, f.strings)
    ensures Reached(mem, mem, lex0, lex0, b, b, f, f.kill0, false, node, f.log0)
  {
  }

  // The word a scan looks at tells what comes next.
  lemma HeadWord(mem0: seq<u32>, mem: seq<u32>, lex0: nat, lex: nat, b: Body, rest: Body)
    requires Position(mem0, mem, lex0, lex, b, rest) && Ends(mem0[lex0 + |Print(b)|])
    ensures mem[lex] == mem0[lex]
    ensures match rest
            case End => Ends(mem[lex]) && lex == lex0 + |Print(b)|
            case Nop(_) => mem[lex] == FDT_NOP
            case Property(p, _) => mem[lex] == FDT_PROP && At(mem, lex, PropWords(p))
            case Child(n, c, _) => mem[lex] == FDT_BEGIN_NODE && At(mem, lex, PrintNode(n, c))
  {
    assert mem[lex..][0] == mem0[lex..][0];
    match rest
    case End =>
    case Nop(_) =>
      Prefix(mem0, mem, lex, [FDT_NOP], Print(rest));
      Word(mem, lex, FDT_NOP);
    case Property(p, _) =>
      Prefix(mem0, mem, lex, PropWords(p), Print(rest));
      Prefix(mem0, mem, lex, [FDT_PROP], Print(rest));
      Word(mem, lex, FDT_PROP);
    case Child(n, c, _) =>
      Prefix(mem0, mem, lex, PrintNode(n, c), Print(rest));
      NodeParts(mem, lex, n, c);
  }

  lemma Prefix(mem0: seq<u32>, mem: seq<u32>, lex: nat, words: seq<u32>, all: seq<u32>)
    requires |mem| == |mem0| && lex <= |mem| && mem[lex..] == mem0[lex..] && At(mem0, lex, all) && words <= all
    ensures At(mem, lex, words)
  {
    assert mem[lex..lex + |words|] == mem[lex..][..|words|];
    assert mem0[lex..lex + |words|] == mem0[lex..][..|words|];
    assert mem0[lex..lex + |words|] == mem0[lex..lex + |all|][..|words|];
  }

  // Moving on over |done| words of which the new block holds `written`.
  lemma Move(mem0: seq<u32>, mem: seq<u32>, mem': seq<u32>, lex0: nat, lex: nat, b: Body, rest: Body, rest': Body,
             done: seq<u32>, written: seq<u32>)
    requires Position(mem0, mem, lex0, lex, b, rest) && Print(rest) == done + Print(rest') && |written| == |done|
    requires mem' == Patched(mem, lex, written)
    ensures Position(mem0, mem', lex0, lex + |done|, b, rest') && mem'[..lex + |done|] == mem[..lex] + written
  {
    var l := lex + |done|;
    assert mem'[l..] == mem[l..] == mem[lex..][|done|..];
    assert mem0[l..] == mem0[lex..][|done|..];
    assert mem0[l..l + |Print(rest')|] == mem0[lex..lex + |Print(rest)|][|done|..];
  }

  lemma SameBlock(mem: seq<u32>, lex: nat, words: seq<u32>)
    requires At(mem, lex, words)
    ensures Patched(mem, lex, words) == mem
  {
    assert mem == mem[..lex] + mem[lex..lex + |words|] + mem[lex + |words|..];
  }

  // One turn of the loop: `done` was read, `written` stands in its place.
  lemma Step(mem0: seq<u32>, mem: seq<u32>, mem': seq<u32>, lex0: nat, lex: nat, b: Body, rest: Body, rest': Body,
             f: Filtering, kill: nat, kill': nat, last: bool, last': bool, node: bool, log: seq<Event>,
             events: seq<Event>, done: seq<u32>, written: seq<u32>)
    requires Reached(mem0, mem, lex0, lex, b, rest, f, kill, last, node, log)
    requires Readable(rest', f.strings) && WellFormed(rest', last')
    requires Print(rest) == done + Print(rest') && |written| == |done| && lex + |done| <= |mem| &&
              mem' == Patched(mem, lex, written)
    requires Print(Filter(rest, f.strings, f.compat, f.depth, kill).0) ==
              written + Print(Filter(rest', f.strings, f.compat, f.depth, kill').0)
    requires Filter(rest, f.strings, f.compat, f.depth, kill).1 == Filter(rest', f.strings, f.compat, f.depth, kill').1
    requires Emitted(rest, last, node) == events + Emitted(rest', last', node)
    ensures Reached(mem0, mem', lex0, lex + |done|, b, rest', f, kill', last', node, log + events)
  {
    hide Readable, WellFormed, Print, Filter, Emitted, Position, Patched;
    Move(mem0, mem, mem', lex0, lex, b, rest, rest', done, written);
    Three(mem[..lex], written, Print(Filter(rest', f.strings, f.compat, f.depth, kill').0));
    Three(log, events, Emitted(rest', last', node));
  }

  lemma Three<T>(a: seq<T>, b: seq<T>, c: seq<T>)
    ensures a + b + c == a + (b + c)
  {
  }

  lemma StepNop(mem0: seq<u32>, mem: seq<u32>, lex0: nat, lex: nat, b: Body, rest: Body, f: Filtering, kill: nat,
                last: bool, node: bool, log: seq<Event>)
    requires Reached(mem0, mem, lex0, lex, b, rest, f, kill, last, node, log) && rest.Nop? && lex < |mem| &&
              mem[lex] == FDT_NOP
    ensures Reached(mem0, mem, lex0, lex + 1, b, rest.rest, f, kill, last, node, log)
  {
    hide Reached, Position;
    Inside(mem0, mem, lex0, lex, b, rest, f, kill, last, node, log);
    SameBlock(mem, lex, [FDT_NOP]);
    Step(mem0, mem, mem, lex0, lex, b, rest, rest.rest, f, kill, kill, last, last, node, log, [], [FDT_NOP], [FDT_NOP]);
    assert log + [] == log;
  }

  function Marked(p: Prop, f: Filtering, kill: nat): nat
    requires |p.words| == ValueWords(p.len)
  {
    if Names(p, f.strings, f.compat) && f.depth < kill then f.depth else kill
  }

  lemma StepProp(mem0: seq<u32>, mem: seq<u32>, lex0: nat, lex: nat, b: Body, rest: Body, f: Filtering, kill: nat,
                 last: bool, node: bool, log: seq<Event>)
    requires Reached(mem0, mem, lex0, lex, b, rest, f, kill, last, node, log) && rest.Property? &&
              At(mem, lex, PropWords(rest.prop))
    requires |rest.prop.words| == ValueWords(rest.prop.len)
    ensures Reached(mem0, mem, lex0, lex + |PropWords(rest.prop)|, b, rest.rest, f, Marked(rest.prop, f, kill),
                    last, node, log + [PropSeen(rest.prop)])
  {
    hide Reached, Position, Names, PropWords, Patched;
    Inside(mem0, mem, lex0, lex, b, rest, f, kill, last, node, log);
    var words := PropWords(rest.prop);
    SameBlock(mem, lex, words);
    FilterProp(rest, f, kill);
    Step(mem0, mem, mem, lex0, lex, b, rest, rest.rest, f, kill, Marked(rest.prop, f, kill), last, last, node, log,
         [PropSeen(rest.prop)], words, words);
  }

  lemma FilterProp(b: Body, f: Filtering, kill: nat)
    requires b.Property? && Readable(b, f.strings)
    ensures var after := Filter(b.rest, f.strings, f.compat, f.depth, Marked(b.prop, f, kill));
            Filter(b, f.strings, f.compat, f.depth, kill) == (Property(b.prop, after.0), after.1)
  {
    hide Names;
  }

  // The mark left once a node below depth `depth` is closed.
  function Closed(k: nat, depth: nat): nat { if k == depth + 1 then NO_KILL else k }

  lemma FilterChild(b: Body, f: Filtering, kill: nat)
    requires b.Child? && Readable(b, f.strings)
    ensures var inner := Filter(b.body, f.strings, f.compat, f.depth + 1, kill);
            var after := Filter(b.rest, f.strings, f.compat, f.depth, Closed(inner.1, f.depth));
            && Filter(b, f.strings, f.compat, f.depth, kill).1 == after.1
            && Print(Filter(b, f.strings, f.compat, f.depth, kill).0)
               == NodeWords(b.name, b.body, f.strings, f.compat, f.depth, kill) + Print(after.0)
  {
    var (c', k) := Filter(b.body, f.strings, f.compat, f.depth + 1, kill);
    var r := Filter(b.rest, f.strings, f.compat, f.depth, Closed(k, f.depth)).0;
    if k == f.depth + 1 {
      assert Filter(b, f.strings, f.compat, f.depth, kill).0 == Nops(|PrintNode(b.name, b.body)|, r);
      PrintNops(|PrintNode(b.name, b.body)|, r);
    } else {
      assert Filter(b, f.strings, f.compat, f.depth, kill).0 == Child(b.name, c', r);
    }
  }

  // The events of a child, and of the node being done before its first.
  ghost function NodeLog(n: seq<u32>, c: Body, last: bool, node: bool): seq<Event> {
    (if !last && node then [Done] else []) + [Open(n)] + Emitted(c, false, true) + [Close(n)]
  }

  lemma LogIs(log: seq<Event>, n: seq<u32>, c: Body, last: bool, node: bool)
    ensures log + NodeLog(n, c, last, node)
         == (if !last && node then log + [Done] else log) + [Open(n)] + Emitted(c, false, true) + [Close(n)]
  {
  }

  lemma StepChild(mem0: seq<u32>, mem: seq<u32>, mem': seq<u32>, lex0: nat, lex: nat, b: Body, rest: Body, f: Filtering,
                  kill: nat, last: bool, node: bool, log: seq<Event>, written: seq<u32>)
    requires Reached(mem0, mem, lex0, lex, b, rest, f, kill, last, node, log) && rest.Child? &&
              Readable(rest.body, f.strings)
    requires written == NodeWords(rest.name, rest.body, f.strings, f.compat, f.depth, kill) &&
              |written| == |PrintNode(rest.name, rest.body)|
    requires lex + |written| <= |mem| && mem' == Patched(mem, lex, written)
    ensures Reached(mem0, mem', lex0, lex + |written|, b, rest.rest, f,
                    Closed(Filter(rest.body, f.strings, f.compat, f.depth + 1, kill).1, f.depth), true, node,
                    log + NodeLog(rest.name, rest.body, last, node))
  {
    hide Reached, Position, Filter, PrintNode, NodeWords, Patched, Closed;
    Inside(mem0, mem, lex0, lex, b, rest, f, kill, last, node, log);
    FilterChild(rest, f, kill);
    Step(mem0, mem, mem', lex0, lex, b, rest, rest.rest, f, kill,
         Closed(Filter(rest.body, f.strings, f.compat, f.depth + 1, kill).1, f.depth), last, true, node, log,
         NodeLog(rest.name, rest.body, last, node), PrintNode(rest.name, rest.body), written);
  }

  lemma Finish(mem0: seq<u32>, mem: seq<u32>, lex0: nat, lex: nat, b: Body, f: Filtering, kill: nat, last: bool,
               node: bool, log: seq<Event>)
    requires Reached(mem0, mem, lex0, lex, b, End, f, kill, last, node, log)
    ensures var (b', k) := Filter(b, f.strings, f.compat, f.depth, f.kill0);
            |Print(b')| == |Print(b)| && mem == Patched(mem0, lex0, Print(b')) && kill == k
    ensures log + (if !last && node then [Done] else []) == f.log0 + Emitted(b, false, node)
  {
    FilterSize(b, f.strings, f.compat, f.depth, f.kill0);
    assert mem == mem[..lex] + mem[lex..];
    assert mem[..lex] + [] == mem[..lex];
  }

  // A property as its words say.
  method ReadProp(blob: array<u32>, lex: nat, ghost p: Prop) returns (q: Prop)
    requires At(blob[..], lex, PropWords(p)) && |p.words| == ValueWords(p.len)
    ensures q == p
  {
    ghost var w := blob[..][lex..lex + |PropWords(p)|];
    assert w[1] == p.len && w[2] == p.name && w[3..] == p.words;
    var len := blob[lex + 1];
    assert len == p.len;
    q := Prop(blob[lex + 2], len, blob[lex + 3..lex + 3 + ValueWords(len)]);
  }

  // fdt_scan_helper on the words of b, which a word that ends the scan follows.
  method Scan(blob: array<u32>, lex0: nat, s: CompatScan, node: bool, ghost b: Body) returns (lex: nat)
    requires At(blob[..], lex0, Print(b)) && lex0 + |Print(b)| < blob.Length && Ends(blob[lex0 + |Print(b)|])
    requires WellFormed(b, false) && Readable(b, s.strings) && 0 !in s.compat
    modifies blob, s
    ensures lex == lex0 + |Print(b)| + (if old(blob[lex0 + |Print(b)|]) == FDT_END_NODE then 1 else 0)
    ensures var b' := Filter(b, s.strings, s.compat, old(s.depth), old(s.kill)).0;
            |Print(b')| == |Print(b)| && blob[..] == Patched(old(blob[..]), lex0, Print(b'))
    ensures s.kill == Filter(b, s.strings, s.compat, old(s.depth), old(s.kill)).1
    ensures s.depth == old(s.depth)
    ensures s.log == old(s.log) + Emitted(b, false, node)
    decreases b, 0
  {
    hide Filter, Print, Emitted, At, Patched, Readable, WellFormed, Reached, Position, NodeWords, PrintNode, Names,
      Closed;
    ghost var mem0 := blob[..];
    ghost var f := Filtering(s.strings, s.compat, s.depth, s.kill, s.log);
    ghost var rest := b;
    lex := lex0;
    var last := false;
    Start(mem0, lex0, b, f, node);
    while true
      invariant s.depth == f.depth
      invariant Reached(mem0, blob[..], lex0, lex, b, rest, f, s.kill, last, node, s.log)
      decreases rest
    {
      Inside(mem0, blob[..], lex0, lex, b, rest, f, s.kill, last, node, s.log);
      HeadWord(mem0, blob[..], lex0, lex, b, rest);
      var w := blob[lex];
      if w == FDT_NOP {
        StepNop(mem0, blob[..], lex0, lex, b, rest, f, s.kill, last, node, s.log);
        rest := rest.rest;
        lex := lex + 1;
      } else if w == FDT_PROP {
        StepProp(mem0, blob[..], lex0, lex, b, rest, f, s.kill, last, node, s.log);
        var p := ReadProp(blob, lex, rest.prop);
        s.Prop(p);
        lex := lex + 3 + ValueWords(p.len);
        rest := rest.rest;
      } else if w == FDT_BEGIN_NODE {
        ghost var mem, kill, log := blob[..], s.kill, s.log;
        ghost var written := FilteredNode(rest.name, rest.body, s);
        if !last && node {
          s.Done();
        }
        lex := ScanChild(blob, lex, s, rest.name, rest.body);
        LogIs(log, rest.name, rest.body, last, node);
        StepChild(mem0, mem, blob[..], lex0, lex - |written|, b, rest, f, kill, last, node, log, written);
        last := true;
        rest := rest.rest;
      } else {
        Finish(mem0, blob[..], lex0, lex, b, f, s.kill, last, node, s.log);
        if !last && node {
          s.Done();
        }
        return if w == FDT_END_NODE then lex + 1 else lex;
      }
    }
  }

  lemma Inside(mem0: seq<u32>, mem: seq<u32>, lex0: nat, lex: nat, b: Body, rest: Body, f: Filtering, kill: nat,
               last: bool, node: bool, log: seq<Event>)
    requires Reached(mem0, mem, lex0, lex, b, rest, f, kill, last, node, log)
    ensures Position(mem0, mem, lex0, lex, b, rest) && Readable(rest, f.strings) && WellFormed(rest, last) &&
              lex < |mem|
    ensures lex + |Print(rest)| < |mem|
    ensures match rest
            case Property(p, _) =>
              && !last && |p.words| == ValueWords(p.len)
              && (NameAt(f.strings, p.name) == COMPATIBLE ==> IsStringList(Value(p)))
            case Child(n, c, _) => IsName(n) && WellFormed(c, false) && Readable(c, f.strings)
            case _ => true
  {
  }

  // ---- A block is the print of one tree only ----

  lemma {:induction false} NameUnique(n: seq<u32>, u: seq<u32>, n': seq<u32>, u': seq<u32>)
    requires IsName(n) && IsName(n') && n + u == n' + u'
    ensures n == n' && u == u'
  {
    assert forall i :: 0 <= i < |n| ==> (n + u)[i] == n[i];
    assert forall i :: 0 <= i < |n'| ==> (n' + u')[i] == n'[i];
    Same(n, u, n', u');
  }

  lemma Same(a: seq<u32>, x: seq<u32>, a': seq<u32>, x': seq<u32>)
    requires a + x == a' + x' && |a| == |a'|
    ensures a == a' && x == x'
  {
    assert a == (a + x)[..|a|] && a' == (a' + x')[..|a'|];
    assert x == (a + x)[|a|..] && x' == (a' + x')[|a'|..];
  }

  // The first word printed, or of what follows.
  lemma FirstWord(b: Body, x: seq<u32>)
    requires |x| > 0 && Ends(x[0])
    ensures |Print(b) + x| > 0
    ensures var w := (Print(b) + x)[0];
            match b
            case End => Ends(w)
            case Nop(_) => w == FDT_NOP
            case Property(_, _) => w == FDT_PROP
            case Child(_, _, _) => w == FDT_BEGIN_NODE
  {
  }

  lemma {:induction false} Unique(b: Body, last: bool, x: seq<u32>, b': Body, last': bool, x': seq<u32>)
    requires WellFormed(b, last) && WellFormed(b', last') && |x| > 0 && |x'| > 0 && Ends(x[0]) && Ends(x'[0])
    requires Print(b) + x == Print(b') + x'
    ensures b == b' && x == x'
  {
    FirstWord(b, x);
    FirstWord(b', x');
    match b
    case End =>
      assert Print(b) + x == x && Print(b') + x' == x';
    case Nop(r) =>
      Three([FDT_NOP], Print(r), x);
      Three([FDT_NOP], Print(b'.rest), x');
      Same([FDT_NOP], Print(r) + x, [FDT_NOP], Print(b'.rest) + x');
      Unique(r, last, x, b'.rest, last', x');
    case Property(p, r) =>
      Three(PropWords(p), Print(r), x);
      Three(PropWords(b'.prop), Print(b'.rest), x');
      PropUnique(p, Print(r) + x, b'.prop, Print(b'.rest) + x');
      Unique(r, last, x, b'.rest, last', x');
    case Child(n, c, r) =>
      ChildShape(n, c, r, x);
      ChildShape(b'.name, b'.body, b'.rest, x');
      var u, u' := Print(c) + ([FDT_END_NODE] + (Print(r) + x)),
        Print(b'.body) + ([FDT_END_NODE] + (Print(b'.rest) + x'));
      Same([FDT_BEGIN_NODE], n + u, [FDT_BEGIN_NODE], b'.name + u');
      NameUnique(n, u, b'.name, u');
      Unique(c, false, [FDT_END_NODE] + (Print(r) + x), b'.body, false, [FDT_END_NODE] + (Print(b'.rest) + x'));
      Same([FDT_END_NODE], Print(r) + x, [FDT_END_NODE], Print(b'.rest) + x');
      Unique(r, true, x, b'.rest, true, x');
  }

  lemma PropUnique(p: Prop, u: seq<u32>, p': Prop, u': seq<u32>)
    requires |p.words| == ValueWords(p.len) && |p'.words| == ValueWords(p'.len) &&
              PropWords(p) + u == PropWords(p') + u'
    ensures p == p' && u == u'
  {
    assert (PropWords(p) + u)[1] == p.len && (PropWords(p') + u')[1] == p'.len;
    Same(PropWords(p), u, PropWords(p'), u');
    assert PropWords(p)[2] == p.name && PropWords(p)[3..] == p.words;
    assert PropWords(p')[2] == p'.name && PropWords(p')[3..] == p'.words;
  }

  lemma ChildShape(n: seq<u32>, c: Body, r: Body, x: seq<u32>)
    ensures Print(Child(n, c, r)) + x == [FDT_BEGIN_NODE] + (n + (Print(c) + ([FDT_END_NODE] + (Print(r) + x))))
  {
  }

  lemma {:induction false} FilterWellFormed(b: Body, strings: seq<u8>, compat: seq<u8>, depth: nat, kill: nat,
                                            last: bool)
    requires Readable(b, strings) && WellFormed(b, last)
    ensures WellFormed(Filter(b, strings, compat, depth, kill).0, last)
  {
    match b
    case End =>
    case Nop(r) => FilterWellFormed(r, strings, compat, depth, kill, last);
    case Property(p, r) =>
      var marked := if Names(p, strings, compat) && depth < kill then depth else kill;
      FilterWellFormed(r, strings, compat, depth, marked, last);
    case Child(n, c, r) =>
      var k := Filter(c, strings, compat, depth + 1, kill).1;
      FilterWellFormed(c, strings, compat, depth + 1, kill, false);
      FilterWellFormed(r, strings, compat, depth, if k == depth + 1 then NO_KILL else k, true);
      var r' := Filter(r, strings, compat, depth, if k == depth + 1 then NO_KILL else k).0;
      NopsEvents(|PrintNode(n, c)|, r');
      WellFormedEarlier(r');
  }

  // ---- filter_compat ----

  const FDT_MAGIC: u32 := 0xd00d_feed
  const FDT_VERSION: u32 := 17
  const FDT_END: u32 := 9

  // A small block, word by word as section 5.4.1 of the Devicetree Specification has it: a
  // root with a property of four bytes, a NOP and a child named "a".
  lemma SmallBlock()
    ensures Print(Child([0], Property(Prop(5, 4, [7]), Nop(Child([0x6100_0000], End, End))), End)) + [FDT_END]
         == [1, 0, 3, 4, 5, 7, 4, 1, 0x6100_0000, 2, 2, 9]
  {
    var inner := Child([0x6100_0000], End, End);
    assert Print(inner) == [1, 0x6100_0000, 2];
    assert Print(Nop(inner)) == [4, 1, 0x6100_0000, 2];
    assert Print(Property(Prop(5, 4, [7]), Nop(inner))) == [3, 4, 5, 7, 4, 1, 0x6100_0000, 2];
  }

  // The header's words, section 5.2 of the Devicetree Specification.
  predicate Understood(blob: seq<u32>) {
    |blob| >= 10 && blob[0] == 0xd00d_feed && blob[6] <= 17
  }

  // The block of a tree, read where the header says, with FDT_END after it. Nothing but
  // nodes stands at the top.
  ghost predicate Holds(blob: seq<u32>, b: Body)
    requires |blob| >= 10
  {
    && blob[2] % 4 == 0 && At(blob, blob[2] / 4, Print(b) + [FDT_END]) && WellFormed(b, true)
  }

  lemma HoldsOne(blob: seq<u32>, b: Body, b': Body)
    requires |blob| >= 10 && Holds(blob, b) && Holds(blob, b')
    ensures b == b'
  {
    var lex := blob[2] / 4;
    Unique(b, true, [FDT_END] + After(blob, lex, b), b', true, [FDT_END] + After(blob, lex, b'));
  }

  // What follows a block; the rest of the words is the block, FDT_END and that.
  ghost function After(blob: seq<u32>, lex: nat, b: Body): (r: seq<u32>)
    requires At(blob, lex, Print(b) + [FDT_END])
    ensures blob[lex..] == Print(b) + ([FDT_END] + r)
  {
    var words := Print(b) + [FDT_END];
    assert blob[lex..] == blob[lex..lex + |words|] + blob[lex + |words|..];
    blob[lex + |words|..]
  }

  lemma TopParts(blob: seq<u32>, lex: nat, b: Body)
    requires At(blob, lex, Print(b) + [FDT_END]) && WellFormed(b, true)
    ensures At(blob, lex, Print(b)) && lex + |Print(b)| < |blob| && blob[lex + |Print(b)|] == FDT_END &&
              WellFormed(b, false)
  {
    hide Print;
    assert Print(b) + [FDT_END] == [] + Print(b) + [FDT_END] == Print(b) + [FDT_END] + [];
    Part(blob, lex, [], Print(b), [FDT_END]);
    Part(blob, lex, Print(b), [FDT_END], []);
    Word(blob, lex + |Print(b)|, FDT_END);
    WellFormedEarlier(b);
  }

  // On a whole tree the words are those of the pruned tree just when it is Faithful.
  lemma FilteredTree(blob: seq<u32>, lex: nat, b: Body, strings: seq<u8>, compat: seq<u8>)
    requires Readable(b, strings) && WellFormed(b, true) && lex + |Print(b)| <= |blob|
    ensures var b' := Filter(b, strings, compat, 0, NO_KILL).0;
            var pruned := Prune(b, strings, compat);
            && |Print(b')| == |Print(pruned)| == |Print(b)|
            && (Patched(blob, lex, Print(b')) == Patched(blob, lex, Print(pruned)) <==> Faithful(b, strings, compat, 0))
  {
    hide Filter, Print, Prune, WellFormed, Faithful, Readable, Lists;
    var b', pruned := Filter(b, strings, compat, 0, NO_KILL).0, Prune(b, strings, compat);
    NoLateLists(b, strings, compat);
    FilterIsPrune(b, strings, compat, 0, true);
    FilterSize(b, strings, compat, 0, NO_KILL);
    PruneSize(b, strings, compat);
    FilterWellFormed(b, strings, compat, 0, NO_KILL, true);
    PruneEvents(b, strings, compat, true);
    if Patched(blob, lex, Print(b')) == Patched(blob, lex, Print(pruned)) {
      SamePatch(blob, lex, Print(b'), Print(pruned));
      Unique(b', true, [FDT_END], pruned, true, [FDT_END]);
    }
  }

  lemma SamePatch(mem: seq<u32>, lex: nat, words: seq<u32>, words': seq<u32>)
    requires |words| == |words'| && lex + |words| <= |mem| && Patched(mem, lex, words) == Patched(mem, lex, words')
    ensures words == words'
  {
    var after := mem[lex + |words|..];
    Three(mem[..lex], words, after);
    Three(mem[..lex], words', after);
    Same(mem[..lex], words + after, mem[..lex], words' + after);
    Same(words, after, words', after);
  }

  lemma {:induction false} PruneSize(b: Body, strings: seq<u8>, compat: seq<u8>)
    requires Readable(b, strings)
    ensures |Print(Prune(b, strings, compat))| == |Print(b)|
  {
    match b
    case End =>
    case Nop(r) => PruneSize(r, strings, compat);
    case Property(p, r) => PruneSize(r, strings, compat);
    case Child(n, c, r) =>
      PruneSize(c, strings, compat);
      PruneSize(r, strings, compat);
      PrintNops(|PrintNode(n, c)|, Prune(r, strings, compat));
  }

  // Every outermost node that lists `compat` becomes NOPs and every other word stays
  // exactly when the tree is Faithful; the length never changes. The scan reports the
  // nodes it was meant to.
  method FilterCompat(blob: array<u32>, strings: seq<u8>, compat: seq<u8>, ghost b: Body)
    returns (ghost events: seq<Event>)
    requires blob.Length >= 10 && 0 !in compat
    requires Understood(blob[..]) ==> Holds(blob[..], b) && Readable(b, strings)
    modifies blob
    ensures !old(Understood(blob[..])) ==> blob[..] == old(blob[..]) && events == []
    ensures old(Understood(blob[..])) ==>
              var (lex, pruned) := (old(blob[2]) / 4, Print(Prune(b, strings, compat)));
              && |pruned| == |Print(b)| && lex + |pruned| < blob.Length
              && (blob[..] == Patched(old(blob[..]), lex, pruned) <==> Faithful(b, strings, compat, 0))
              && events == ChildEvents(b)
  {
    hide Filter, Print, Prune, WellFormed, Faithful, Readable, Patched, At, Emitted, ChildEvents, PropEvents, Props;
    events := [];
    if blob[0] != FDT_MAGIC || blob[6] > FDT_VERSION {
      return;
    }
    ghost var mem := blob[..];
    var start := blob[2] / 4;
    TopParts(mem, start, b);
    FilteredTree(mem, start, b, strings, compat);
    EmittedTop(b);
    var s := new CompatScan(strings, compat);
    var lex := Scan(blob, start, s, false, b);
    events := s.log;
  }

  lemma EmittedTop(b: Body)
    requires WellFormed(b, true) && WellFormed(b, false)
    ensures Emitted(b, false, false) == ChildEvents(b)
  {
    NoLateProps(b);
    EmittedIsMeant(b, false, false);
    assert PropEvents(Props(b)) == [];
  }
}
