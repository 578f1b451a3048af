/** BufferedRewiredMemory: the extents at the end of rewired memory serve as buffers. */
module Buffering {
  import opened Rewiring

  /** `a` is the address of one of the extents [lo, hi). */
  ghost predicate InRegion(start: nat, size: nat, lo: nat, hi: nat, a: nat) {
    exists i: nat :: lo <= i < hi && a == Address(start, size, i)
  }

  ghost predicate NoDuplicates(s: seq<nat>) {
    forall i, j | 0 <= i < j < |s| :: s[i] != s[j]
  }

  /** The free buffers and those handed out are exactly the extents [user, all), each once. */
  ghost predicate Shared(start: nat, size: nat, user: nat, all: nat, free: seq<nat>, held: set<nat>) {
    && user <= all && NoDuplicates(free)
    && (forall a | a in free :: a !in held)
    && (forall a :: a in free || a in held <==> InRegion(start, size, user, all, a))
    && |free| + |held| == all - user
  }

  lemma RegionMore(start: nat, size: nat, lo: nat, hi: nat, a: nat)
    requires 0 < size && lo <= hi
    ensures InRegion(start, size, lo, hi + 1, a) <==> InRegion(start, size, lo, hi, a) || a == Address(start, size, hi)
    ensures 0 < lo ==> (InRegion(start, size, lo - 1, hi, a) <==> InRegion(start, size, lo, hi, a) || a == Address(start, size, lo - 1))
    ensures !InRegion(start, size, lo, hi, Address(start, size, hi))
    ensures 0 < lo ==> !InRegion(start, size, lo, hi, Address(start, size, lo - 1))
  {
    hide Address;
    forall i: nat | lo <= i < hi ensures Address(start, size, i) != Address(start, size, hi) && (0 < lo ==> Address(start, size, i) != Address(start, size, lo - 1)) {
      AddressOrder(start, size, i, hi);
      if 0 < lo {
        AddressOrder(start, size, lo - 1, i);
      }
    }
  }

  lemma SharedNone(start: nat, size: nat, n: nat)
    ensures Shared(start, size, n, n, [], {})
  {
  }

  /** One more buffer in front of the free ones: behind the last extent, or the last one of the user. */
  lemma SharedMore(start: nat, size: nat, user: nat, all: nat, free: seq<nat>, held: set<nat>)
    requires 0 < size && Shared(start, size, user, all, free, held)
    ensures Shared(start, size, user, all + 1, [Address(start, size, all)] + free, held)
    ensures 0 < user ==> Shared(start, size, user - 1, all, [Address(start, size, user - 1)] + free, held)
  {
    hide Address, InRegion;
    RegionMore(start, size, user, all, Address(start, size, all));
    forall a ensures InRegion(start, size, user, all + 1, a) <==> a in [Address(start, size, all)] + free || a in held {
      RegionMore(start, size, user, all, a);
    }
    if 0 < user {
      forall a ensures InRegion(start, size, user - 1, all, a) <==> a in [Address(start, size, user - 1)] + free || a in held {
        RegionMore(start, size, user, all, a);
      }
    }
  }

  lemma SharedAcquire(start: nat, size: nat, user: nat, all: nat, free: seq<nat>, held: set<nat>)
    requires Shared(start, size, user, all, free, held) && free != []
    ensures var n := |free| - 1; free[n] !in held && Shared(start, size, user, all, free[..n], held + {free[n]})
  {
  }

  /** Giving a buffer back keeps the books right exactly when it had been handed out. */
  lemma SharedRelease(start: nat, size: nat, user: nat, all: nat, free: seq<nat>, held: set<nat>, b: nat)
    requires Shared(start, size, user, all, free, held) && InRegion(start, size, user, all, b)
    ensures Shared(start, size, user, all, free + [b], held - {b}) <==> b in held
  {
  }

  lemma SharedNoneHeld(start: nat, size: nat, user: nat, all: nat, free: seq<nat>, held: set<nat>)
    requires Shared(start, size, user, all, free, held)
    ensures |free| <= all - user && (|free| == all - user <==> held == {})
  {
  }

  /** The addresses of the extents [lo, lo + n), the last one in front. */
  ghost function LastInFront(start: nat, size: nat, lo: nat, n: nat): (s: seq<nat>)
    ensures |s| == n
  {
    seq(n, k requires 0 <= k < n => Address(start, size, lo + n - 1 - k))
  }

  /** The same, the first one in front. */
  ghost function FirstInFront(start: nat, size: nat, lo: nat, n: nat): (s: seq<nat>)
    ensures |s| == n
    decreases n
  {
    if n == 0 then [] else [Address(start, size, lo)] + FirstInFront(start, size, lo + 1, n - 1)
  }

  lemma Regrouped(a: seq<nat>, b: seq<nat>, c: seq<nat>)
    ensures a + (b + c) == (a + b) + c
  {
  }

  lemma OneInFront(start: nat, size: nat, lo: nat, n: nat, rest: seq<nat>)
    ensures [Address(start, size, lo + n)] + (LastInFront(start, size, lo, n) + rest) == LastInFront(start, size, lo, n + 1) + rest
    ensures 0 < lo ==> [Address(start, size, lo - 1)] + (FirstInFront(start, size, lo, n) + rest) == FirstInFront(start, size, lo - 1, n + 1) + rest
    ensures LastInFront(start, size, lo, 0) + rest == rest && FirstInFront(start, size, lo, 0) + rest == rest
  {
    hide Address;
    assert [Address(start, size, lo + n)] + LastInFront(start, size, lo, n) == LastInFront(start, size, lo, n + 1);
    if 0 < lo {
      assert [Address(start, size, lo - 1)] + FirstInFront(start, size, lo, n) == FirstInFront(start, size, lo - 1, n + 1);
      Regrouped([Address(start, size, lo - 1)], FirstInFront(start, size, lo, n), rest);
    }
  }

  lemma LastOne(start: nat, size: nat, lo: nat, n: nat)
    ensures 0 < n ==> (LastInFront(start, size, lo, n) + [])[n - 1] == Address(start, size, lo)
  {
  }

  class BufferedRewiredMemory {
    const instance: RewiredMemory
    var bufferStart: nat
    var allocatedBuffers: nat
    var buffers: seq<nat>
    ghost var held: set<nat>

    ghost function Extents(): (n: nat)
      reads instance
    {
      |instance.translation|
    }

    /** The number of extents that are not buffers. */
    ghost function Users(): (n: int)
      reads this, instance
    {
      Extents() - allocatedBuffers
    }

    ghost predicate Valid()
      reads this, instance
    {
      && instance.Valid() && 0 <= Users()
      && bufferStart == Address(instance.start, instance.size, Users())
      && Shared(instance.start, instance.size, Users(), Extents(), buffers, held)
    }

    /** What the user reads, extent by extent. */
    ghost function UserView(): (v: seq<Extent>)
      requires Valid()
      reads this, instance
    {
      instance.View()[..Users()]
    }

    constructor (size: nat, start: nat, extents: nat, maxMemory: nat)
      requires 0 < size && 0 < extents && extents * size <= maxMemory
      ensures Valid() && fresh(instance) && Users() == Extents() == extents && held == {} && buffers == []
      ensures instance.start == start && instance.size == size && instance.maxMemory == maxMemory
    {
      var m := new RewiredMemory(size, start, extents, maxMemory);
      instance := m;
      bufferStart := start + |m.translation| * size;
      allocatedBuffers, buffers, held := 0, [], {};
      new;
      SharedNone(start, size, extents);
    }

    /** add_buffers: more extents behind all others, free to be handed out. */
    method AddBuffers(extents: nat) returns (ok: bool)
      requires Valid()
      modifies this, instance
      ensures ok <==> extents == 0 || (old(Extents()) + extents) * instance.size <= instance.maxMemory
      ensures Valid() && held == old(held) && bufferStart == old(bufferStart) && Users() == old(Users())
      ensures if ok then Extents() == old(Extents()) + extents && instance.View()[..old(Extents())] == old(instance.View())
              else instance.View() == old(instance.View()) && buffers == old(buffers)
      ensures ok ==> buffers == LastInFront(instance.start, instance.size, old(Extents()), extents) + old(buffers)
    {
      hide LastInFront, FirstInFront, Address, Shared, Mapped, Seen;
      ghost var n, user, free, view := Extents(), Users(), buffers, instance.View();
      ok := instance.Extend(extents);
      if !ok {
        assert Extents() == n;
        return;
      }
      AddressSum(instance.start, instance.size, user, n);
      var bufferSpace := bufferStart + instance.size * allocatedBuffers;
      var i := 0;
      OneInFront(instance.start, instance.size, n, 0, free);
      while i < extents
        invariant 0 <= i <= extents && Shared(instance.start, instance.size, user, n + i, buffers, held)
        invariant buffers == LastInFront(instance.start, instance.size, n, i) + free
        modifies this`buffers
      {
        SharedMore(instance.start, instance.size, user, n + i, buffers, held);
        AddressSum(instance.start, instance.size, n, n + i);
        OneInFront(instance.start, instance.size, n, i, free);
        buffers := [bufferSpace + i * instance.size] + buffers;
        i := i + 1;
      }
      allocatedBuffers := allocatedBuffers + extents;
    }

    /** acquire_buffer: the buffer at the end of the list, which nobody holds; when all are handed out, half as many again are added, at
        least four. Nothing the user or another holder can read changes. */
    method AcquireBuffer() returns (ok: bool, address: nat)
      requires Valid()
      modifies this, instance
      ensures var more := if old(allocatedBuffers) / 2 < 4 then 4 else old(allocatedBuffers) / 2;
              ok <==> old(buffers) != [] || (old(Extents()) + more) * instance.size <= instance.maxMemory
      ensures Valid() && Users() == old(Users()) && UserView() == old(UserView())
      ensures old(Extents()) <= Extents() && instance.View()[..old(Extents())] == old(instance.View())
      ensures ok ==> address !in old(held) && held == old(held) + {address}
      ensures ok ==> InRegion(instance.start, instance.size, Users(), Extents(), address)
      ensures !ok ==> held == old(held) && Extents() == old(Extents())
      ensures ok ==> Extents() == old(Extents()) + if old(buffers) != [] then 0 else if old(allocatedBuffers) / 2 < 4 then 4 else old(allocatedBuffers) / 2
      ensures ok && old(buffers) != [] ==> old(buffers) == buffers + [address]
      ensures ok && old(buffers) == [] ==> address == Address(instance.start, instance.size, old(Extents()))
    {
      hide LastInFront, Address, Mapped, Seen, NoDuplicates, InRegion;
      ok, address := true, 0;
      ghost var view := instance.View();
      if buffers == [] {
        ok := AddBuffers(if allocatedBuffers / 2 < 4 then 4 else allocatedBuffers / 2);
      }
      assert instance.View()[..old(Extents())] == view;
      assert UserView() == view[..Users()];
      if ok {
        SharedAcquire(instance.start, instance.size, Users(), Extents(), buffers, held);
        address := buffers[|buffers| - 1];
        if old(buffers) == [] {
          LastOne(instance.start, instance.size, old(Extents()), |buffers|);
        }
        buffers := buffers[..|buffers| - 1];
        held := held + {address};
      }
    }

    /** swap_and_release: a user extent takes over what is in a buffer, and the buffer what was in the user
        extent. The books stay right exactly when the buffer had been handed out; nothing checks that. */
    method SwapAndRelease(a1: nat, a2: nat) returns (ok: bool)
      requires Valid()
      modifies this, instance
      ensures ok <==> old((a1 >= bufferStart) != (a2 >= bufferStart) && instance.IsValidAddress(a1) && instance.IsValidAddress(a2))
      ensures !ok ==> Valid() && instance.View() == old(instance.View()) && unchanged(this)
      ensures ok ==> var user, buffer := old(if a1 >= bufferStart then a2 else a1), old(if a1 >= bufferStart then a1 else a2);
                     && (Valid() <==> buffer in old(held))
                     && held == old(held) - {buffer} && buffers == old(buffers) + [buffer]
                     && instance.Valid() && Users() == old(Users()) && Extents() == old(Extents()) && bufferStart == old(bufferStart)
                     && var i, j, view := (user - instance.start) / instance.size, (buffer - instance.start) / instance.size, old(instance.View());
                        0 <= i < Users() <= j < Extents() && instance.View() == view[i := view[j]][j := view[i]]
    {
      hide Address, Mapped, Seen, Shared, InRegion;
      var buffer, user := a1, a2;
      if (a1 >= bufferStart) == (a2 >= bufferStart) {
        return false;
      }
      if a2 >= bufferStart {
        buffer, user := a2, a1;
      }
      ok := instance.Swap(user, buffer);
      if ok {
        IndexOf(instance.start, instance.size, Extents(), user);
        IndexOf(instance.start, instance.size, Extents(), buffer);
        ghost var i, j := (user - instance.start) / instance.size, (buffer - instance.start) / instance.size;
        AddressOrder(instance.start, instance.size, i, Users());
        AddressOrder(instance.start, instance.size, j, Users());
        IsInRegion(instance.start, instance.size, Users(), Extents(), j);
        SharedRelease(instance.start, instance.size, Users(), Extents(), buffers, held, buffer);
        buffers := buffers + [buffer];
        held := held - {buffer};
      }
    }

    /** extend: so many more extents for the user, taken from the buffers first. Nobody may hold a buffer. */
    method Extend(extents: nat) returns (ok: bool)
      requires Valid()
      modifies this, instance
      ensures Valid() && held == old(held)
      ensures ok <==> extents != 0 && old(held) == {} && (extents <= old(allocatedBuffers) || (old(Users()) + extents) * instance.size <= instance.maxMemory)
      ensures Users() == old(Users()) + if ok then extents else 0
      ensures UserView()[..old(Users())] == old(UserView())
      ensures ok ==> Extents() == old(Extents()) + (if extents <= old(allocatedBuffers) then 0 else extents - old(allocatedBuffers))
      ensures ok ==> |old(instance.View())| <= |instance.View()| && instance.View()[..|old(instance.View())|] == old(instance.View())
      ensures ok ==> buffers == LastInFront(instance.start, instance.size, Users(), Extents() - Users())
      ensures !ok ==> instance.View() == old(instance.View()) && unchanged(this)
    {
      hide LastInFront, FirstInFront, Address, Mapped, Seen, Shared, InRegion;
      ghost var user, n, view := Users(), Extents(), instance.View();
      SharedNoneHeld(instance.start, instance.size, user, n, buffers, held);
      assert UserView()[..user] == UserView();
      if extents == 0 || allocatedBuffers - |buffers| != 0 {
        return false;
      }
      var additional := extents - allocatedBuffers;
      if additional < 0 {
        AddressSum(instance.start, instance.size, user, user + extents);
        bufferStart := bufferStart + extents * instance.size;
        allocatedBuffers := allocatedBuffers - extents;
        RebuildBuffers(n - allocatedBuffers);
        assert UserView()[..user] == view[..user];
      } else {
        ok := instance.Extend(additional);
        if !ok {
          return;
        }
        allocatedBuffers, buffers := 0, [];
        bufferStart := instance.start + |instance.translation| * instance.size;
        SharedNone(instance.start, instance.size, Extents());
        IsAddress(instance.start, instance.size, Extents());
        assert UserView()[..user] == view[..user];
      }
      ok := true;
    }

    /** All extents from the start of the buffers on are free. */
    method RebuildBuffers(ghost user: nat)
      requires instance.Valid() && user + allocatedBuffers == Extents() && bufferStart == Address(instance.start, instance.size, user)
      modifies this`buffers
      ensures Shared(instance.start, instance.size, user, Extents(), buffers, {})
      ensures buffers == LastInFront(instance.start, instance.size, user, allocatedBuffers)
    {
      hide LastInFront, FirstInFront, Address, Mapped, Shared;
      buffers := [];
      var address, i := bufferStart, 0;
      SharedNone(instance.start, instance.size, user);
      OneInFront(instance.start, instance.size, user, 0, []);
      while i < allocatedBuffers
        invariant 0 <= i <= allocatedBuffers && address == Address(instance.start, instance.size, user + i)
        invariant Shared(instance.start, instance.size, user, user + i, buffers, {})
        invariant buffers == LastInFront(instance.start, instance.size, user, i) + []
      {
        SharedMore(instance.start, instance.size, user, user + i, buffers, {});
        AddressNext(instance.start, instance.size, user + i);
        OneInFront(instance.start, instance.size, user, i, []);
        buffers := [address] + buffers;
        address := address + instance.size;
        i := i + 1;
      }
    }

    /** shrink: the last extents of the user become buffers. Nobody may hold a buffer. */
    method Shrink(extents: nat) returns (ok: bool)
      requires Valid()
      modifies this
      ensures Valid() && held == old(held)
      ensures ok <==> extents != 0 && old(held) == {} && extents <= old(Users())
      ensures Users() == old(Users()) - (if ok then extents else 0) && UserView() == old(UserView())[..Users()]
      ensures ok ==> buffers == FirstInFront(instance.start, instance.size, Users(), extents) + old(buffers)
      ensures !ok ==> unchanged(this)
    {
      hide LastInFront, FirstInFront, Address, Mapped, Seen, Shared, InRegion;
      ghost var user, n, view := Users(), Extents(), instance.View();
      SharedNoneHeld(instance.start, instance.size, user, n, buffers, held);
      assert UserView() == view[..user][..user];
      if extents == 0 || allocatedBuffers - |buffers| != 0 || extents > |instance.translation| - allocatedBuffers {
        return false;
      }
      var address, i := bufferStart, 0;
      OneInFront(instance.start, instance.size, user, 0, buffers);
      while i < extents
        invariant 0 <= i <= extents && address == Address(instance.start, instance.size, user - i)
        invariant Shared(instance.start, instance.size, user - i, n, buffers, held)
        invariant buffers == FirstInFront(instance.start, instance.size, user - i, i) + old(buffers)
        modifies this`buffers
      {
        SharedMore(instance.start, instance.size, user - i, n, buffers, held);
        AddressNext(instance.start, instance.size, user - i - 1);
        OneInFront(instance.start, instance.size, user - i, i, old(buffers));
        address := address - instance.size;
        buffers := [address] + buffers;
        i := i + 1;
      }
      allocatedBuffers := allocatedBuffers + extents;
      bufferStart := address;
      assert UserView() == view[..user][..Users()];
      ok := true;
    }
  }

  lemma IsAddress(start: nat, size: nat, i: nat)
    ensures Address(start, size, i) == start + i * size
  {
  }

  lemma IsInRegion(start: nat, size: nat, lo: nat, hi: nat, i: nat)
    requires lo <= i < hi
    ensures InRegion(start, size, lo, hi, Address(start, size, i))
  {
  }

  lemma AddressSum(start: nat, size: nat, i: nat, j: nat)
    requires i <= j
    ensures Address(start, size, j) == Address(start, size, i) + (j - i) * size == Address(start, size, i) + size * (j - i)
  {
  }

  datatype Op = Acquire | Release(user: nat, which: nat) | Grow(extents: nat) | Cut(extents: nat)

  /** The client's list of the buffers it holds. */
  ghost predicate Lists(handed: seq<nat>, held: set<nat>) {
    NoDuplicates(handed) && forall a :: a in handed <==> a in held
  }

  lemma ListsMore(handed: seq<nat>, held: set<nat>, a: nat)
    requires Lists(handed, held) && a !in held
    ensures Lists(handed + [a], held + {a})
  {
  }

  lemma ListsLess(handed: seq<nat>, held: set<nat>, k: nat)
    requires Lists(handed, held) && k < |handed|
    ensures handed[k] in held && Lists(handed[..k] + handed[k + 1..], held - {handed[k]})
  {
  }

  lemma HeldAbove(start: nat, size: nat, user: nat, all: nat, free: seq<nat>, held: set<nat>, a: nat)
    requires 0 < size && Shared(start, size, user, all, free, held) && a in held
    ensures Address(start, size, user) <= a
  {
  }

  /** Every run of a client that releases only buffers it holds: the map stays a bijection, the buffers
      stay exactly the extents behind those of the user, each free or on the client's list, and the user
      has as many extents as were granted. */
  method Run(m: BufferedRewiredMemory, ops: seq<Op>) returns (handed: seq<nat>, granted: int)
    requires m.Valid() && m.held == {}
    modifies m, m.instance
    ensures m.Valid() && Lists(handed, m.held) && m.Users() == old(m.Users()) + granted
  {
    hide Address, Mapped, Seen, Shared, InRegion, NoDuplicates, Lists, RewiredMemory.View;
    handed, granted := [], 0;
    NoneListed();
    var i := 0;
    while i < |ops|
      invariant 0 <= i <= |ops| && m.Valid() && Lists(handed, m.held) && m.Users() == old(m.Users()) + granted
    {
      match ops[i] {
        case Acquire =>
          ghost var held := m.held;
          var ok, a := m.AcquireBuffer();
          if ok {
            ListsMore(handed, held, a);
            handed := handed + [a];
          }
        case Release(user, which) =>
          if which < |handed| {
            ghost var held := m.held;
            ListsLess(handed, held, which);
            HeldAbove(m.instance.start, m.instance.size, m.Users(), m.Extents(), m.buffers, held, handed[which]);
            var ok := m.SwapAndRelease(Address(m.instance.start, m.instance.size, user), handed[which]);
            if ok {
              handed := handed[..which] + handed[which + 1..];
            }
          }
        case Grow(extents) =>
          var ok := m.Extend(extents);
          granted := granted + if ok then extents else 0;
        case Cut(extents) =>
          var ok := m.Shrink(extents);
          granted := granted - if ok then extents else 0;
      }
      i := i + 1;
    }
  }

  lemma NoneListed()
    ensures Lists([], {})
  {
  }

  /** A buffer that is released twice is on the list of free buffers twice. */
  method ReleasedTwice() returns (m: BufferedRewiredMemory, buffer: nat)
    ensures !m.Valid() && |m.buffers| == 5 && m.Extents() - m.Users() == 4 && m.buffers[3] == m.buffers[4] == buffer
  {
    hide Shared, Mapped, Seen;
    m := new BufferedRewiredMemory(1, 0, 1, 100);
    var ok;
    ok, buffer := m.AcquireBuffer();
    HeldOne(m, buffer);
    ok := m.SwapAndRelease(0, buffer);
    ok := m.SwapAndRelease(0, buffer);
  }

  lemma HeldOne(m: BufferedRewiredMemory, b: nat)
    requires m.Valid() && m.held == {b}
    ensures InRegion(m.instance.start, m.instance.size, m.Users(), m.Extents(), b) && |m.buffers| + 1 == m.Extents() - m.Users()
  {
    hide InRegion;
    assert b in m.held;
  }
}
