// pk/file.c: the descriptor table and the reference-counted file objects behind it.

module Options {
  datatype Option<+T> = None | Some(value: T)
}

module FileTable {
  import opened Options

  const MAX_FDS := 128
  const MAX_FILES := 128

  // What frontend_syscall(SYS_openat) answered: a host descriptor and the bytes behind
  // it, or a negative error.
  datatype HostReply = Opened(kfd: nat, bytes: seq<bv8>) | Refused(error: int)

  datatype OpenResult = File(f: nat) | Error(code: int)

  const ENOMEM := 12

  // The count a file object holds: zero when it is free, else one more than the
  // references to it.
  function Biased(refs: nat): nat {
    if refs == 0 then 0 else 1 + refs
  }

  function Zeros(): seq<nat> { seq(MAX_FILES, i => 0) }

  function Plus(counts: seq<nat>, f: nat): (r: seq<nat>)
    requires f < |counts|
  {
    counts[f := counts[f] + 1]
  }

  function Minus(counts: seq<nat>, f: nat): (r: seq<nat>)
    requires f < |counts| && counts[f] > 0
  {
    counts[f := counts[f] - 1]
  }

  // Emptying descriptor fd takes one reference from its file.
  lemma WithoutDescriptor(fds: seq<Option<nat>>, fd: nat)
    requires fd < |fds| && fds[fd].Some?
    ensures multiset(fds[fd := None])[fds[fd]] == multiset(fds)[fds[fd]] - 1
  {
  }

  class Files {
    const fds: array<Option<nat>>
    const refcnt: array<nat>
    const kfd: array<int>
    var contents: seq<seq<bv8>>       // host bytes of each open file object
    var closed: seq<int>              // host descriptors closed so far, in order
    ghost var held: seq<nat>          // references owned by running calls and by file_init
    ghost var mapped: seq<nat>        // references owned by live lazy regions

    ghost predicate Shape()
      reads this
    {
      && fds.Length == MAX_FDS && refcnt.Length == MAX_FILES && kfd.Length == MAX_FILES
      && |contents| == |held| == |mapped| == MAX_FILES
    }

    // References to file object f: descriptors, calls and lazy regions.
    ghost function Refs(f: nat): nat
      reads this, fds
      requires Shape() && f < MAX_FILES
    {
      multiset(fds[..])[Some(f)] + held[f] + mapped[f]
    }

    // Reference conservation.
    ghost predicate Valid()
      reads this, fds, refcnt
    {
      && Shape()
      && (forall i :: 0 <= i < MAX_FDS && fds[i].Some? ==> fds[i].value < MAX_FILES)
      && (forall f :: 0 <= f < MAX_FILES ==> refcnt[f] == Biased(Refs(f)))
    }

    constructor ()
      ensures Valid() && fresh(fds) && fresh(refcnt) && fresh(kfd)
      ensures held == mapped == Zeros() && closed == []
      ensures forall f :: 0 <= f < MAX_FILES ==> Refs(f) == 0
    {
      fds := new Option<nat>[MAX_FDS](i => None);
      refcnt := new nat[MAX_FILES](i => 0);
      kfd := new int[MAX_FILES](i => -1);
      contents := seq(MAX_FILES, i => []);
      closed := [];
      held := Zeros();
      mapped := Zeros();
      new;
      forall f | 0 <= f < MAX_FILES
        ensures Refs(f) == 0
      {
        assert Some(f) !in fds[..];
      }
    }

    // file_incref. The new reference is a lazy region's if `region`, else a call's.
    method IncRef(f: nat, ghost region: bool)
      requires Valid() && f < MAX_FILES && Refs(f) > 0
      modifies this`held, this`mapped, refcnt
      ensures Valid()
      ensures held == if region then old(held) else Plus(old(held), f)
      ensures mapped == if region then Plus(old(mapped), f) else old(mapped)
    {
      var prev := refcnt[f];
      refcnt[f] := prev + 1;
      assert prev > 0;
      if region {
        mapped := Plus(mapped, f);
      } else {
        held := Plus(held, f);
      }
    }

    // file_decref: the host descriptor is closed exactly when the last reference goes.
    method DecRef(f: nat, ghost region: bool)
      requires Valid() && f < MAX_FILES
      requires if region then mapped[f] > 0 else held[f] > 0
      modifies this`held, this`mapped, this`closed, refcnt
      ensures Valid()
      ensures held == if region then old(held) else Minus(old(held), f)
      ensures mapped == if region then Minus(old(mapped), f) else old(mapped)
      ensures closed == old(closed) + (if old(Refs(f)) == 1 then [kfd[f]] else [])
    {
      refcnt[f] := refcnt[f] - 1;
      if refcnt[f] + 1 == 2 {
        var k := kfd[f];
        refcnt[f] := 0;
        closed := closed + [k];
      }
      if region {
        mapped := Minus(mapped, f);
      } else {
        held := Minus(held, f);
      }
    }

    // file_get_free: the first free object, now held by the caller.
    method GetFree() returns (r: Option<nat>)
      requires Valid()
      modifies this`held, refcnt
      ensures Valid()
      ensures r.None? ==> held == old(held) && forall f :: 0 <= f < MAX_FILES ==> old(Refs(f)) > 0
      ensures r.Some? ==> r.value < MAX_FILES && old(Refs(r.value)) == 0 && held == Plus(old(held), r.value)
      ensures r.Some? ==> forall f :: 0 <= f < r.value ==> old(Refs(f)) > 0
    {
      var f := 0;
      while f < MAX_FILES
        invariant 0 <= f <= MAX_FILES
        invariant forall g :: 0 <= g < f ==> old(Refs(g)) > 0
        invariant Valid() && held == old(held)
      {
        if refcnt[f] == 0 {
          refcnt[f] := 2;
          held := Plus(held, f);
          return Some(f);
        }
        f := f + 1;
      }
      return None;
    }

    // file_dup: the lowest free descriptor, or -1.
    method Dup(f: nat) returns (fd: int)
      requires Valid() && f < MAX_FILES && Refs(f) > 0
      modifies fds, refcnt
      ensures Valid()
      ensures fd == -1 ==> fds[..] == old(fds[..]) && forall i :: 0 <= i < MAX_FDS ==> old(fds[i]).Some?
      ensures fd != -1 ==> 0 <= fd < MAX_FDS && old(fds[fd]).None? && fds[..] == old(fds[..])[fd := Some(f)]
      ensures fd != -1 ==> forall i :: 0 <= i < fd ==> old(fds[i]).Some?
    {
      var i := 0;
      while i < MAX_FDS
        invariant 0 <= i <= MAX_FDS
        invariant forall j :: 0 <= j < i ==> old(fds[j]).Some?
        invariant Valid() && fds[..] == old(fds[..])
      {
        assert fds[i] == old(fds[..])[i];
        if fds[i].None? {
          Install(f, i);
          return i;
        }
        i := i + 1;
      }
      return -1;
    }

    // The compare-and-swap of an empty descriptor and the increment after it.
    method Install(f: nat, fd: nat)
      requires Valid() && f < MAX_FILES && Refs(f) > 0
      requires fd < MAX_FDS && fds[fd].None?
      modifies fds, refcnt
      ensures Valid() && fds[..] == old(fds[..])[fd := Some(f)]
    {
      ghost var before := fds[..];
      fds[fd] := Some(f);
      assert fds[..] == before[fd := Some(f)];
      var prev := refcnt[f];
      refcnt[f] := prev + 1;
      assert prev > 0;
    }

    // file_dup3: descriptor newfd, unless it is out of range or taken.
    method Dup3(f: nat, newfd: int) returns (fd: int)
      requires Valid() && f < MAX_FILES && Refs(f) > 0
      modifies fds, refcnt
      ensures Valid()
      ensures fd == if 0 <= newfd < MAX_FDS && old(fds[newfd]).None? then newfd else -1
      ensures fds[..] == if fd == -1 then old(fds[..]) else old(fds[..])[fd := Some(f)]
    {
      if newfd < 0 || newfd >= MAX_FDS {
        return -1;
      }
      if fds[newfd].None? {
        Install(f, newfd);
        return newfd;
      }
      return -1;
    }

    // file_get: the file behind a descriptor, with one more reference held by the caller.
    method Get(fd: int) returns (r: Option<nat>)
      requires Valid()
      modifies this`held, refcnt
      ensures Valid()
      ensures r == if 0 <= fd < MAX_FDS then fds[fd] else None
      ensures held == if r.Some? then Plus(old(held), r.value) else old(held)
      ensures r.Some? ==> r.value < MAX_FILES && held[r.value] > 0
    {
      if fd < 0 || fd >= MAX_FDS || fds[fd].None? {
        return None;
      }
      var f := fds[fd].value;
      assert fds[..][fd] == Some(f);
      assert Some(f) in multiset(fds[..]);
      refcnt[f] := refcnt[f] + 1;
      held := Plus(held, f);
      return Some(f);
    }

    // Every file object is in use.
    ghost predicate AllReferenced()
      reads this, fds
      requires Shape()
    {
      forall f :: 0 <= f < MAX_FILES ==> Refs(f) > 0
    }

    // file_openat. It fails for want of an object, or as the host does; in the second case
    // it closes the host descriptor that the object had before.
    method OpenAt(reply: HostReply) returns (r: OpenResult)
      requires Valid()
      modifies this`held, this`mapped, this`contents, this`closed, refcnt, kfd
      ensures Valid() && mapped == old(mapped)
      ensures r.File? ==> reply.Opened? && r.f < MAX_FILES && old(Refs(r.f)) == 0 && held == Plus(old(held), r.f)
      ensures r.File? ==>
                kfd[r.f] == reply.kfd && contents == old(contents)[r.f := reply.bytes] && closed == old(closed)
      ensures r.Error? ==> held == old(held) && contents == old(contents)
      ensures old(AllReferenced()) ==> r == Error(-ENOMEM)
      ensures !old(AllReferenced()) ==> (r.File? <==> reply.Opened?) && (reply.Refused? ==> r == Error(reply.error))
      ensures old(AllReferenced()) ==> closed == old(closed)
      ensures !old(AllReferenced()) && reply.Refused? ==>
                exists f :: 0 <= f < MAX_FILES && old(Refs(f)) == 0 && closed == old(closed) + [old(kfd[f])]
      ensures forall f :: 0 <= f < MAX_FILES && old(Refs(f)) > 0 ==>
                kfd[f] == old(kfd[f]) && contents[f] == old(contents[f])
    {
      var free := GetFree();
      if free.None? {
        return Error(-ENOMEM);
      }
      var f := free.value;
      match reply
      case Opened(k, bytes) =>
        kfd[f] := k;
        contents := contents[f := bytes];
        return File(f);
      case Refused(e) =>
        DecRef(f, false);
        assert closed == old(closed) + [old(kfd[f])];
        return Error(e);
    }

    // fd_close
    method Close(fd: int) returns (r: int)
      requires Valid()
      modifies this`held, this`mapped, this`closed, fds, refcnt
      ensures Valid() && held == old(held) && mapped == old(mapped)
      ensures r == if 0 <= fd < MAX_FDS && old(fds[fd]).Some? then 0 else -1
      ensures r == -1 ==> fds[..] == old(fds[..]) && closed == old(closed)
      ensures r == 0 ==> fds[..] == old(fds[..])[fd := None]
      ensures r == 0 ==> var f := old(fds[fd]).value;
                closed == old(closed) + (if old(Refs(f)) == 1 then [kfd[f]] else [])
    {
      var got := Get(fd);
      if got.None? {
        return -1;
      }
      var f := got.value;
      Uninstall(f, fd);
      DecRef(f, false);
      DecRef(f, false);
      return 0;
    }

    // The compare-and-swap that empties a descriptor: its reference is now the caller's.
    method Uninstall(f: nat, fd: nat)
      requires Valid() && fd < MAX_FDS && f < MAX_FILES && fds[fd] == Some(f)
      modifies this`held, fds
      ensures Valid() && fds[..] == old(fds[..])[fd := None]
      ensures held == Plus(old(held), f)
      ensures forall g :: 0 <= g < MAX_FILES ==> Refs(g) == old(Refs(g))
    {
      ghost var before := fds[..];
      fds[fd] := None;
      assert fds[..] == before[fd := None];
      held := Plus(held, f);
    }

    // What file_init has done after its first n rounds: descriptor and object i are
    // paired for i < n, and each object also keeps the reference file_get_free gave out.
    ghost predicate Standard(n: nat)
      reads this, fds, kfd
    {
      && Shape() && n <= 3
      && (forall i :: 0 <= i < MAX_FDS ==> fds[i] == if i < n then Some(i) else None)
      && (forall f :: 0 <= f < MAX_FILES ==> held[f] == (if f < n then 1 else 0) && mapped[f] == 0)
      && (forall i :: 0 <= i < n ==> kfd[i] == i)
    }

    lemma StandardRefs(n: nat, f: nat)
      requires Standard(n) && f < MAX_FILES
      ensures Refs(f) == if f < n then 2 else 0
    {
      if f < n {
        var all := fds[..];
        assert all == all[..f] + [Some(f)] + all[f + 1..];
        assert Some(f) !in all[..f] && Some(f) !in all[f + 1..];
      } else {
        assert Some(f) !in fds[..];
      }
    }

    // file_init
    method Init()
      requires Valid() && Standard(0)
      modifies this`held, fds, refcnt, kfd
      ensures Valid() && Standard(3)
      ensures forall f :: 0 <= f < MAX_FILES ==> refcnt[f] == if f < 3 then 3 else 0
    {
      var i := 0;
      while i < 3
        invariant 0 <= i <= 3
        invariant Valid() && Standard(i)
      {
        InitOne(i);
        i := i + 1;
      }
      forall f | 0 <= f < MAX_FILES ensures refcnt[f] == if f < 3 then 3 else 0 {
        StandardRefs(3, f);
      }
    }

    method InitOne(i: nat)
      requires Valid() && i < 3 && Standard(i)
      modifies this`held, fds, refcnt, kfd
      ensures Valid() && Standard(i + 1)
    {
      forall f | 0 <= f <= i ensures Refs(f) == if f < i then 2 else 0 {
        StandardRefs(i, f);
      }
      assert Refs(i) == 0 && fds[i].None?;
      var free := GetFree();
      var f := free.value;
      kfd[f] := i;
      ghost var before := fds[..];
      var fd := Dup(f);
      assert fds[..] == before[i := Some(i)];
    }
  }
}
