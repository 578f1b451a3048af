/** RewiredMemory: extents of virtual memory that exchange the physical extents behind them. The system
    calls that map memory are taken to succeed. */
module Rewiring {
  import opened Permutations
  import Powers

  type Extent = seq<int>

  function Address(start: nat, size: nat, i: nat): (a: nat) {
    start + i * size
  }

  /** Extents lie behind each other. */
  lemma AddressOrder(start: nat, size: nat, i: nat, j: nat)
    requires 0 < size
    ensures i < j <==> Address(start, size, i) < Address(start, size, j)
    ensures i == j <==> Address(start, size, i) == Address(start, size, j)
  {
    if i < j {
      Powers.MulLe(i + 1, j, size);
      assert (i + 1) * size == i * size + size;
    } else if j < i {
      Powers.MulLe(j + 1, i, size);
      assert (j + 1) * size == j * size + size;
    }
  }

  lemma AddressNext(start: nat, size: nat, i: nat)
    ensures Address(start, size, i + 1) == Address(start, size, i) + size
  {
    assert (i + 1) * size == i * size + size;
  }

  /** The translation map is a bijection between virtual and physical extents. */
  ghost predicate Mapped(translation: seq<nat>, physical: seq<Extent>) {
    Permutes(translation, |physical|)
  }

  /** What is read through the virtual addresses. */
  ghost function Seen(translation: seq<nat>, physical: seq<Extent>): (v: seq<Extent>)
    requires Mapped(translation, physical)
    ensures |v| == |translation| == |physical| && forall i | 0 <= i < |v| :: translation[i] < |physical| && v[i] == physical[translation[i]]
  {
    seq(|translation|, i requires 0 <= i < |translation| => physical[translation[i]])
  }

  lemma SeenSwap(t: seq<nat>, p: seq<Extent>, i: nat, j: nat)
    requires Mapped(t, p) && i < |t| && j < |t|
    ensures var t' := t[i := t[j]][j := t[i]];
            Mapped(t', p) && Seen(t', p) == Seen(t, p)[i := Seen(t, p)[j]][j := Seen(t, p)[i]]
  {
  }

  lemma SeenMore(t: seq<nat>, p: seq<Extent>, m: nat, q: seq<Extent>)
    requires Mapped(t, p) && |q| == m
    ensures var t' := t + seq(m, k => |t| + k);
            Mapped(t', p + q) && Seen(t', p + q) == Seen(t, p) + q
  {
    var t' := t + seq(m, k => |t| + k);
    assert Permutes(t', |p| + m);
  }

  /** A store reaches no other extent: this is where the map must be one-to-one. */
  lemma SeenStore(t: seq<nat>, p: seq<Extent>, i: nat, data: Extent)
    requires Mapped(t, p) && i < |t|
    ensures t[i] < |p| && Mapped(t, p[t[i] := data]) && Seen(t, p[t[i] := data]) == Seen(t, p)[i := data]
  {
    var v, w := Seen(t, p)[i := data], Seen(t, p[t[i] := data]);
    forall k | 0 <= k < |t| ensures v[k] == w[k] {
      assert k < i ==> t[k] != t[i];
      assert i < k ==> t[i] != t[k];
    }
  }

  function Fresh(extents: nat, size: nat): (e: seq<Extent>)
    ensures |e| == extents
  {
    seq(extents, _ => seq(size, _ => 0))
  }

  class RewiredMemory {
    const size: nat
    const start: nat
    const maxMemory: nat
    var translation: seq<nat>
    var physical: seq<Extent>

    ghost predicate Valid()
      reads this
    {
      0 < size && Mapped(translation, physical) && |translation| * size <= maxMemory
    }

    ghost function View(): (v: seq<Extent>)
      requires Valid()
      reads this
      ensures |v| == |translation|
    {
      Seen(translation, physical)
    }

    constructor (size: nat, start: nat, extents: nat, maxMemory: nat)
      requires 0 < size && 0 < extents && extents * size <= maxMemory
      ensures Valid() && this.size == size && this.start == start && this.maxMemory == maxMemory
      ensures View() == Fresh(extents, size)
    {
      this.size, this.start, this.maxMemory := size, start, maxMemory;
      translation := seq(extents, i => i);
      physical := Fresh(extents, size);
      new;
      assert Permutes(translation, extents);
    }

    predicate IsValidAddress(a: nat)
      reads this
      requires 0 < size
    {
      start <= a < Address(start, size, |translation|) && (a - start) % size == 0
    }

    /** swap: two extents exchange their physical extents, and so what is read through them; every
        other extent is left alone. Bad addresses are refused. */
    method Swap(a: nat, b: nat) returns (ok: bool)
      requires Valid()
      modifies this
      ensures Valid() && physical == old(physical) && |translation| == old(|translation|)
      ensures ok <==> old(IsValidAddress(a)) && old(IsValidAddress(b)) && a != b
      ensures !ok ==> translation == old(translation)
      ensures ok ==> var i, j := (a - start) / size, (b - start) / size;
                     0 <= i < |translation| && 0 <= j < |translation| && View() == old(View())[i := old(View())[j]][j := old(View())[i]]
    {
      hide Address, Mapped, Seen;
      ok := false;
      if IsValidAddress(a) && IsValidAddress(b) && a != b {
        IndexOf(start, size, |translation|, a);
        IndexOf(start, size, |translation|, b);
        var off1, off2 := (a - start) / size, (b - start) / size;
        SeenSwap(translation, physical, off1, off2);
        var page1, page2 := translation[off1], translation[off2];
        translation := translation[off1 := page2];
        translation := translation[off2 := page1];
        ok := true;
      }
    }

    /** extend: more extents behind the existing ones, mapped to new physical extents. */
    method Extend(extents: nat) returns (ok: bool)
      requires Valid()
      modifies this
      ensures Valid() && (ok <==> extents == 0 || (old(|translation|) + extents) * size <= maxMemory)
      ensures !ok ==> translation == old(translation) && physical == old(physical)
      ensures ok ==> View() == old(View()) + Fresh(extents, size)
    {
      hide Mapped, Seen;
      Distribute(|translation|, extents, size);
      if extents == 0 {
        assert View() + Fresh(0, size) == View();
        return true;
      }
      if |translation| * size + extents * size > maxMemory {
        return false;
      }
      SeenMore(translation, physical, extents, Fresh(extents, size));
      var first, i := |translation|, 0;
      ghost var t := translation;
      physical := physical + Fresh(extents, size);
      while i < extents
        invariant 0 <= i <= extents && translation == t + seq(i, k => first + k)
        modifies this`translation
      {
        translation := translation + [first + i];
        i := i + 1;
      }
      assert translation == t + seq(extents, k => |t| + k);
      assert |translation| == |t| + extents;
      assert |translation| * size == (|t| + extents) * size;
      ok := true;
    }

    /** A store by the user through a virtual address. */
    method Store(i: nat, data: Extent)
      requires Valid() && i < |translation|
      modifies this`physical
      ensures Valid() && View() == old(View())[i := data]
    {
      hide Mapped, Seen;
      SeenStore(translation, physical, i, data);
      physical := physical[translation[i] := data];
    }
  }

  lemma Distribute(n: nat, m: nat, size: nat)
    ensures (n + m) * size == n * size + m * size
  {
  }

  lemma IndexOf(start: nat, size: nat, n: nat, a: nat)
    requires 0 < size && start <= a < Address(start, size, n) && (a - start) % size == 0
    ensures 0 <= (a - start) / size < n && a == Address(start, size, (a - start) / size)
  {
    var i := (a - start) / size;
    assert a - start == i * size;
    AddressOrder(start, size, i, n);
  }
}
