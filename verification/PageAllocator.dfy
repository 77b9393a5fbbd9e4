// The page allocator of pk/mmap.c: a bump region that only shrinks, a stack of
// released pages, and the optional "fuzzer" that shuffles the stack and feeds it
// from the bump region.

module Sets {
  // The numbers lo, lo + 1, .., hi - 1.
  function Range(lo: int, hi: int): (r: set<int>)
    ensures forall x :: x in r <==> lo <= x < hi
  {
    set x | lo <= x < hi && Integer(x)
  }

  // Gives set comprehensions over integers something to be triggered by.
  predicate Integer(x: int) { true }

  lemma {:induction false} RangeSize(lo: int, hi: int)
    requires lo <= hi
    ensures |Range(lo, hi)| == hi - lo
    decreases hi - lo
  {
    if lo < hi {
      RangeSize(lo, hi - 1);
      assert Range(lo, hi) == Range(lo, hi - 1) + {hi - 1};
    }
  }

  lemma {:induction false} SubsetSize<T>(a: set<T>, b: set<T>)
    requires a <= b
    ensures |a| <= |b|
    decreases a
  {
    if a != {} {
      var x :| x in a;
      SubsetSize(a - {x}, b - {x});
    }
  }

  lemma DisjointSize<T>(a: set<T>, b: set<T>)
    requires a !! b
    ensures |a + b| == |a| + |b|
  {
  }

  ghost predicate Distinct<T>(s: seq<T>) {
    forall i, j :: 0 <= i < j < |s| ==> s[i] != s[j]
  }

  // The elements of a sequence.
  function Elems<T>(s: seq<T>): set<T> {
    set x | x in s
  }

  lemma {:induction false} DistinctSize<T>(s: seq<T>)
    requires Distinct(s)
    ensures |Elems(s)| == |s|
  {
    if s != [] {
      var t, x := s[..|s| - 1], s[|s| - 1];
      DistinctSize(t);
      assert s == t + [x];
      assert x !in t;
      assert Elems(s) == Elems(t) + {x};
    }
  }
}

module PageAllocator {
  import opened Sets

  // lfsr63, pk/pk.h: one step of a 63-bit linear feedback shift register.
  function Lfsr63(x: bv64): bv64 {
    (x >> 1) | (((x ^ (x >> 1)) & 1) << 62)
  }

  // The pages on the stack together with the bump region lo .. hi - 1.
  function Pool(stack: seq<int>, lo: int, hi: int): set<int> {
    Elems(stack) + Range(lo, hi)
  }

  lemma PoolSize(stack: seq<int>, lo: int, hi: int)
    requires Distinct(stack) && lo <= hi
    requires forall i :: 0 <= i < |stack| ==> stack[i] < lo
    ensures |Pool(stack, lo, hi)| == |stack| + hi - lo
  {
    DistinctSize(stack);
    RangeSize(lo, hi);
    DisjointSize(Elems(stack), Range(lo, hi));
  }

  class Pages {
    const first: nat           // number of the first page it manages
    const total: nat           // free_pages
    const storage: array<int>  // page_freelist_storage
    var next: nat              // next_free_page
    var depth: nat             // page_freelist_depth
    var randomize: bv64        // randomize_mapping
    ghost var free: set<int>   // every page that can still be handed out

    ghost predicate Valid()
      reads this, storage
    {
      && 0 < first
      && depth <= next <= total <= storage.Length
      && Distinct(storage[..depth])
      && (forall i :: 0 <= i < depth ==> first <= storage[i] < first + next)
      && free == Pool(storage[..depth], first + next, first + total)
    }

    ghost function Managed(): set<int> {
      Range(first, first + total)
    }

    // __num_free_pages
    function NumFree(): int
      reads this
    {
      depth + (total - next)
    }

    lemma NumFreeIsSize()
      requires Valid()
      ensures NumFree() == |free|
    {
      hide Pool;
      var stack := storage[..depth];
      var lo, hi := first + next, first + total;
      PoolSize(stack, lo, hi);
    }

    // The stack always has room for a page that was handed out: pigeonhole on the
    // pages below the bump pointer.
    lemma RoomForOneMore(p: int)
      requires Valid()
      requires first <= p < first + next && p !in free
      ensures depth < next
    {
      var stack := storage[..depth];
      DistinctSize(stack + [p]);
      SubsetSize(Elems(stack + [p]), Range(first, first + next));
      RangeSize(first, first + next);
    }

    constructor (first: nat, total: nat, capacity: nat, randomize: bv64)
      requires 0 < first && total <= capacity
      ensures Valid() && fresh(storage)
      ensures this.first == first && this.total == total && next == 0
      ensures free == Managed()
    {
      this.first := first;
      this.total := total;
      this.storage := new int[capacity];
      this.next := 0;
      this.depth := 0;
      this.randomize := randomize;
      this.free := Range(first, first + total);
    }

    // __early_alloc for `n` pages: 0 on failure.
    method EarlyAlloc(n: nat) returns (p: int)
      requires Valid()
      modifies this`next, this`free
      ensures Valid() && next == old(next) + (if old(next) + n <= total then n else 0)
      ensures old(next) + n > total ==> p == 0 && free == old(free)
      ensures old(next) + n <= total ==> p == first + old(next) && free == old(free) - Range(p, p + n)
    {
      if n + next > total {
        return 0;
      }
      p := first + next;
      next := next + n;
      free := free - Range(p, p + n);
    }

    // __page_freelist_insert
    method Insert(p: int)
      requires Valid()
      requires first <= p < first + next && p !in free
      modifies this, storage
      ensures Valid() && next >= old(next)
      ensures free == old(free) + {p}
      ensures depth > 0
      decreases total - next, 2
    {
      MaybeFuzz();
      RoomForOneMore(p);
      ghost var stack := storage[..depth];
      storage[depth] := p;
      depth := depth + 1;
      assert storage[..depth] == stack + [p];
      free := free + {p};
    }

    // __augment_page_freelist
    method Augment() returns (moved: bool)
      requires Valid()
      modifies this, storage
      ensures Valid() && next >= old(next)
      ensures free == old(free)
      ensures moved <==> old(next) < total
      ensures moved ==> depth > 0
      ensures depth == 0 ==> old(depth) == 0
      decreases total - next, 0
    {
      var page := EarlyAlloc(1);
      if page != 0 {
        assert Range(page, page + 1) == {page};
        Insert(page);
      }
      moved := page != 0;
    }

    // __maybe_fuzz_page_freelist: which page comes next may change, which pages are
    // free does not.
    method MaybeFuzz()
      requires Valid()
      modifies this, storage
      ensures Valid() && next >= old(next)
      ensures free == old(free)
      ensures old(depth) > 0 ==> depth > 0
      decreases total - next, 1
    {
      hide Pool, Lfsr63, Distinct;
      if randomize != 0 {
        randomize := Lfsr63(randomize);
        if randomize % 2 == 0 && depth != 0 {
          var swap := (randomize as nat) % depth;
          SwapWithTop(swap);
        }
        if randomize % 16 == 0 {
          var _ := Augment();
        }
      }
    }

    method SwapWithTop(i: nat)
      requires Valid() && i < depth
      modifies storage
      ensures Valid()
      ensures free == old(free)
    {
      ghost var before := storage[..depth];
      var tmp := storage[i];
      storage[i] := storage[depth - 1];
      storage[depth - 1] := tmp;
      ghost var after := storage[..depth];
      assert after == before[i := before[depth - 1]][depth - 1 := before[i]];
      assert forall p :: p in before ==> p in after by {
        forall p | p in before ensures p in after {
          var k :| 0 <= k < depth && before[k] == p;
          assert after[if k == i then depth - 1 else if k == depth - 1 then i else k] == p;
        }
      }
      assert Elems(after) == Elems(before);
    }

    // __page_freelist_remove
    method Remove() returns (p: int)
      requires Valid() && depth > 0
      modifies this, storage
      ensures Valid() && next >= old(next)
      ensures p in old(free) && free == old(free) - {p}
    {
      MaybeFuzz();
      ghost var stack := storage[..depth];
      depth := depth - 1;
      p := storage[depth];
      assert stack == storage[..depth] + [p];
      free := free - {p};
    }

    // __page_alloc without its memset: 0 exactly when nothing is free.
    method Take() returns (p: int)
      requires Valid()
      modifies this, storage
      ensures Valid()
      ensures p == 0 <==> old(free) == {}
      ensures p == 0 ==> free == old(free)
      ensures p != 0 ==> p in old(free) && free == old(free) - {p}
    {
      if depth == 0 {
        assert next < total ==> first + next in free;
        var moved := Augment();
        if !moved {
          return 0;
        }
      }
      assert storage[..depth][0] in free;
      p := Remove();
    }

    // __page_free
    method Release(p: int)
      requires Valid()
      requires p in Managed() && p !in free
      modifies this, storage
      ensures Valid()
      ensures free == old(free) + {p}
    {
      Insert(p);
    }
  }
}
