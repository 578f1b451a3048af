/** CByteArray: an array of integers of a fixed width in bytes, little endian. */
module ByteArrays {
  import opened Options
  import opened Sequences
  import opened Layout
  import opened Powers

  function Pow256(k: nat): (n: nat)
    ensures 1 <= n
  {
    if k == 0 then 1 else 256 * Pow256(k - 1)
  }

  /** What 64-bit two's complement makes of an integer. */
  function Unsigned(v: int): (n: nat) {
    v % Pow256(8)
  }

  function Signed(n: nat): (v: int) {
    if n < Pow256(8) / 2 then n else n - Pow256(8)
  }

  ghost predicate Int64(v: int) {
    -(Pow256(8) / 2) <= v < Pow256(8) / 2
  }

  /** Byte `i` of the little-endian representation. */
  function ByteOf(n: nat, i: nat): (b: nat)
    ensures b < 256
  {
    n / Pow256(i) % 256
  }

  ghost predicate Bytes(s: seq<nat>) {
    forall i | 0 <= i < |s| :: s[i] < 256
  }

  /** The number a sequence of bytes stands for. */
  function Number(s: seq<nat>): (n: nat) {
    if s == [] then 0 else Number(s[..|s| - 1]) + s[|s| - 1] * Pow256(|s| - 1)
  }

  lemma {:induction false} NumberBound(s: seq<nat>)
    requires Bytes(s)
    ensures Number(s) < Pow256(|s|)
  {
    if s != [] {
      var n := |s| - 1;
      NumberBound(s[..n]);
      MulLe(s[n], 255, Pow256(n));
    }
  }

  /** Splitting off the top byte. */
  lemma TopByte(n: nat, w: nat)
    ensures n % Pow256(w + 1) == n % Pow256(w) + ByteOf(n, w) * Pow256(w)
  {
    hide Pow256;
    PowStep(w);
    DigitSplit(n, Pow256(w), n / Pow256(w), n % Pow256(w));
  }

  lemma PowStep(w: nat)
    ensures Pow256(w + 1) == 256 * Pow256(w)
  {
  }

  lemma DigitSplit(n: nat, p: nat, q: nat, r: nat)
    requires 0 < p && q == n / p && r == n % p
    ensures n % (256 * p) == r + q % 256 * p
  {
    var a, b := q / 256, q % 256;
    Distribute(a, b, p);
    assert n == q * p + r;
    MulLe(b, 255, p);
    DivUnique(n, 256 * p, a, b * p + r);
  }

  lemma Distribute(a: nat, b: nat, p: nat)
    ensures (256 * a + b) * p == a * (256 * p) + b * p
  {
  }

  /** The first `w` bytes of a number make the number modulo 256^w. */
  lemma {:induction false} FirstBytes(n: nat, s: seq<nat>)
    requires forall i | 0 <= i < |s| :: s[i] == ByteOf(n, i)
    ensures Number(s) == n % Pow256(|s|)
  {
    if s != [] {
      var w := |s| - 1;
      FirstBytes(n, s[..w]);
      TopByte(n, w);
    }
  }

  /** What comes back for a value stored in `w` bytes. */
  function Kept(w: nat, v: int): (r: int) {
    if w == 8 then Signed(Unsigned(v) % Pow256(8)) else Unsigned(v) % Pow256(w)
  }

  lemma {:induction false} PowLe(i: nat, j: nat)
    requires i <= j
    ensures Pow256(i) <= Pow256(j)
  {
    if i < j {
      PowLe(i, j - 1);
    }
  }

  /** A 64-bit value survives storage in `w` bytes exactly when it is not negative and needs no more
      than `w` bytes, or has all eight. */
  lemma RoundTrip(w: nat, v: int)
    requires 1 <= w <= 8 && Int64(v)
    ensures Kept(w, v) == v <==> w == 8 || 0 <= v < Pow256(w)
  {
    var p := Pow256(8);
    assert p == 0x1_0000_0000_0000_0000;
    assert v % 0x1_0000_0000_0000_0000 == if 0 <= v then v else v + 0x1_0000_0000_0000_0000;
    if w == 8 {
      DivUnique(Unsigned(v), p, 0, Unsigned(v));
    } else {
      PowLe(w, 7);
      assert Pow256(7) == 0x100_0000_0000_0000;
      if 0 <= v < Pow256(w) {
        DivUnique(v, Pow256(w), 0, v);
      }
    }
  }

  /** ceil(log256(value)): the width the constructor for a given capacity picks; the doubles of the
      source are exact logarithms here. */
  function Width(value: nat): (w: nat)
    requires 1 <= value
    decreases value
  {
    if value == 1 then 0 else 1 + Width((value + 255) / 256)
  }

  /** The width is the least one that can tell `value` numbers apart. */
  lemma {:induction false} WidthLeast(value: nat, w: nat)
    requires 1 <= value
    ensures value <= Pow256(Width(value))
    ensures value <= Pow256(w) ==> Width(value) <= w
    decreases value
  {
    if value != 1 {
      WidthLeast((value + 255) / 256, if w == 0 then 0 else w - 1);
    }
  }

  /** The value itself fits in the width computed for it exactly when it is not a power of 256. */
  lemma WidthHolds(value: nat)
    requires 1 <= value
    ensures value < Pow256(Width(value)) <==> forall k: nat :: value != Pow256(k)
  {
    WidthLeast(value, 0);
    if value < Pow256(Width(value)) {
      forall k: nat ensures value != Pow256(k) {
        WidthLeast(value, k);
        if value == Pow256(k) {
          PowLe(Width(value), k);
        }
      }
    }
  }

  class CByteArray {
    const width: nat
    const capacity: nat
    const bytes: array<nat>

    ghost predicate Valid()
      reads bytes
    {
      1 <= width <= 8 && bytes.Length == Base(capacity, width) && Bytes(bytes[..])
    }

    /** The values of the array. */
    ghost function Values(): (s: seq<int>)
      requires Valid()
      reads bytes
      ensures |s| == capacity
    {
      ValuesOf(bytes[..], width, capacity)
    }

    constructor (width: nat, capacity: nat)
      requires 1 <= width <= 8
      ensures Valid() && this.width == width && this.capacity == capacity && fresh(bytes)
    {
      this.width, this.capacity := width, capacity;
      bytes := new nat[Base(capacity, width)](_ => 0);
    }

    /** What the source's constructor does: other widths than one to eight bytes are refused. */
    static method Create(width: nat, capacity: nat) returns (r: CByteArray?)
      ensures r == null <==> !(1 <= width <= 8)
      ensures r != null ==> fresh(r) && fresh(r.bytes) && r.Valid() && r.width == width && r.capacity == capacity
    {
      if width <= 0 || width > 8 {
        return null;
      }
      r := new CByteArray(width, capacity);
    }

    /** get_value_at */
    method Get(index: nat) returns (v: int)
      requires Valid() && index < capacity
      ensures v == Values()[index]
    {
      Inside(bytes.Length, width, capacity, index);
      var base := Base(index, width);
      var n, i := 0, 0;
      while i < width
        invariant 0 <= i <= width && n == Number(bytes[..][base..base + i])
      {
        assert bytes[..][base..base + (i + 1)][..i] == bytes[..][base..base + i];
        n := n + bytes[base + i] * Pow256(i);
        i := i + 1;
      }
      v := if width == 8 then Signed(n) else n;
    }

    /** set_value_at: the value goes to its place as far as it fits, and its neighbours keep theirs. */
    method Set(index: nat, v: int)
      requires Valid() && index < capacity
      modifies bytes
      ensures Valid() && Values() == old(Values())[index := Kept(width, v)]
    {
      Inside(bytes.Length, width, capacity, index);
      ghost var was := bytes[..];
      var base, u := Base(index, width), Unsigned(v);
      var i := 0;
      while i < width
        invariant 0 <= i <= width
        invariant forall p | 0 <= p < bytes.Length && !(base <= p < base + i) :: bytes[p] == was[p]
        invariant forall p | base <= p < base + i :: bytes[p] == ByteOf(u, p - base)
      {
        bytes[base + i] := ByteOf(u, i);
        i := i + 1;
      }
      forall p | 0 <= p < bytes.Length ensures bytes[p] < 256 {
      }
      Written(was, bytes[..], width, capacity, index, v);
    }
  }

  /** The value of element `i`. */
  ghost function ValueAt(s: seq<nat>, w: nat, i: nat): (v: int)
    requires Base(i, w) + w <= |s|
  {
    if w == 8 then Signed(Number(s[Base(i, w)..Base(i, w) + w])) else Number(s[Base(i, w)..Base(i, w) + w])
  }

  ghost function ValuesOf(s: seq<nat>, w: nat, capacity: nat): (vs: seq<int>)
    requires |s| == Base(capacity, w)
    ensures |vs| == capacity
  {
    seq(capacity, i requires 0 <= i < capacity => Inside(|s|, w, capacity, i); ValueAt(s, w, i))
  }

  /** What is stored can be stored again. */
  lemma Storable(s: seq<nat>, w: nat, i: nat)
    requires 1 <= w <= 8 && Bytes(s) && Base(i, w) + w <= |s|
    ensures Kept(w, ValueAt(s, w, i)) == ValueAt(s, w, i) && Int64(ValueAt(s, w, i))
  {
    hide Number, Base;
    var v := ValueAt(s, w, i);
    NumberBound(s[Base(i, w)..Base(i, w) + w]);
    assert Pow256(8) == 0x1_0000_0000_0000_0000;
    if w < 8 {
      PowLe(w, 7);
      assert Pow256(7) == 0x100_0000_0000_0000;
    }
    RoundTrip(w, v);
  }

  lemma Inside(n: nat, w: nat, capacity: nat, i: nat)
    requires n == Base(capacity, w) && i < capacity
    ensures Base(i, w) + w == Base(i + 1, w) <= n
  {
    BaseLe(i + 1, capacity, w);
  }

  lemma Written(was: seq<nat>, now: seq<nat>, w: nat, capacity: nat, index: nat, v: int)
    requires 1 <= w <= 8 && |was| == |now| == Base(capacity, w) && index < capacity
    requires forall p | 0 <= p < |now| && !(Base(index, w) <= p < Base(index, w) + w) :: now[p] == was[p]
    requires forall p | Base(index, w) <= p < Base(index, w) + w && p < |now| :: now[p] == ByteOf(Unsigned(v), p - Base(index, w))
    ensures ValuesOf(now, w, capacity) == ValuesOf(was, w, capacity)[index := Kept(w, v)]
  {
    hide Base, ValueAt, ValuesOf, Kept, ByteOf, Unsigned;
    forall i | 0 <= i < capacity
      ensures ValuesOf(now, w, capacity)[i] == if i == index then Kept(w, v) else ValuesOf(was, w, capacity)[i]
    {
      ValueIs(was, w, capacity, i);
      ValueIs(now, w, capacity, i);
      if i == index {
        WrittenHere(now, w, i, v);
      } else {
        Apart(|was|, w, capacity, index, i);
        Elsewhere(was, now, w, i);
      }
    }
  }

  lemma ValueIs(s: seq<nat>, w: nat, capacity: nat, i: nat)
    requires |s| == Base(capacity, w) && i < capacity
    ensures Base(i, w) + w <= |s| && ValuesOf(s, w, capacity)[i] == ValueAt(s, w, i)
  {
    hide Base, ValueAt;
    Inside(|s|, w, capacity, i);
  }

  lemma Apart(n: nat, w: nat, capacity: nat, index: nat, i: nat)
    requires n == Base(capacity, w) && index < capacity && i < capacity && i != index
    ensures Base(i, w) + w <= Base(index, w) || Base(index, w) + w <= Base(i, w)
  {
  }

  lemma WrittenHere(now: seq<nat>, w: nat, i: nat, v: int)
    requires 1 <= w <= 8 && Base(i, w) + w <= |now|
    requires forall p | Base(i, w) <= p < Base(i, w) + w :: now[p] == ByteOf(Unsigned(v), p - Base(i, w))
    ensures ValueAt(now, w, i) == Kept(w, v)
  {
    hide Number, Pow256, ByteOf, Unsigned;
    FirstBytes(Unsigned(v), now[Base(i, w)..Base(i, w) + w]);
  }

  lemma Elsewhere(was: seq<nat>, now: seq<nat>, w: nat, i: nat)
    requires |was| == |now| && Base(i, w) + w <= |was|
    requires forall p | Base(i, w) <= p < Base(i, w) + w :: now[p] == was[p]
    ensures ValueAt(now, w, i) == ValueAt(was, w, i)
  {
    assert now[Base(i, w)..Base(i, w) + w] == was[Base(i, w)..Base(i, w) + w];
  }

  /** Two arrays of one width, one behind the other. */
  lemma ValuesJoin(a: seq<nat>, b: seq<nat>, w: nat, m: nat, n: nat)
    requires |a| == Base(m, w) && |b| == Base(n, w)
    ensures |a + b| == Base(m + n, w) && ValuesOf(a + b, w, m + n) == ValuesOf(a, w, m) + ValuesOf(b, w, n)
  {
    hide Base, ValueAt;
    BaseSum(m, n, w);
    forall i | 0 <= i < m + n ensures ValuesOf(a + b, w, m + n)[i] == (ValuesOf(a, w, m) + ValuesOf(b, w, n))[i] {
      Inside(|a + b|, w, m + n, i);
      if i < m {
        Inside(|a|, w, m, i);
        SameValue(a + b, a, w, i, i);
      } else {
        Inside(|b|, w, n, i - m);
        BaseSum(m, i - m, w);
        SameValue(a + b, b, w, i, i - m);
      }
    }
  }

  lemma SameValue(s: seq<nat>, t: seq<nat>, w: nat, i: nat, j: nat)
    requires Base(i, w) + w <= |s| && Base(j, w) + w <= |t|
    requires s[Base(i, w)..Base(i, w) + w] == t[Base(j, w)..Base(j, w) + w]
    ensures ValueAt(s, w, i) == ValueAt(t, w, j)
  {
  }

  /** One sequence after the other. */
  ghost function Concat<T>(vs: seq<seq<T>>): (s: seq<T>) {
    if vs == [] then [] else Concat(vs[..|vs| - 1]) + vs[|vs| - 1]
  }

  /** The arrays, a missing one counting as empty, hold these values. */
  ghost predicate Hold(arrays: seq<CByteArray?>, vs: seq<seq<int>>)
    reads set a: CByteArray? | a in arrays && a != null :: a.bytes
  {
    |vs| == |arrays| && forall i | 0 <= i < |arrays| ::
      if arrays[i] == null then vs[i] == [] else arrays[i].Valid() && vs[i] == arrays[i].Values()
  }

  /** The common width of the arrays that are there, and their number of elements; None when two
      widths differ. */
  method Measure(arrays: seq<CByteArray?>) returns (r: Option<(nat, nat)>)
    requires forall i | 0 <= i < |arrays| :: arrays[i] != null ==> 1 <= arrays[i].width <= 8
    ensures r.Some? ==> forall i | 0 <= i < |arrays| :: arrays[i] != null ==> arrays[i].width == r.value.0
    ensures r.Some? ==> r.value.0 <= 8 && (r.value.0 == 0 ==> forall i | 0 <= i < |arrays| :: arrays[i] == null)
    ensures r == None ==> exists i, j :: 0 <= i < |arrays| && 0 <= j < |arrays| && arrays[i] != null && arrays[j] != null && arrays[i].width != arrays[j].width
    ensures r.Some? ==> r.value.1 == Capacities(arrays)
  {
    var width, capacity, i := 0, 0, 0;
    ghost var seen := 0;
    while i < |arrays|
      invariant 0 <= i <= |arrays| && capacity == Capacities(arrays[..i])
      invariant forall j | 0 <= j < i :: arrays[j] != null ==> arrays[j].width == width
      invariant width <= 8 && (width == 0 ==> forall j | 0 <= j < i :: arrays[j] == null)
      invariant width != 0 ==> 0 <= seen < i && arrays[seen] != null && arrays[seen].width == width
    {
      assert arrays[..i + 1][..i] == arrays[..i];
      if arrays[i] != null {
        capacity := capacity + arrays[i].capacity;
        if !(width == 0 || width == arrays[i].width) {
          return None;
        }
        width := arrays[i].width;
        seen := i;
      }
      i := i + 1;
    }
    assert arrays[..i] == arrays;
    r := Some((width, capacity));
  }

  function Capacities(arrays: seq<CByteArray?>): (n: nat) {
    if arrays == [] then 0 else
      Capacities(arrays[..|arrays| - 1]) + (if arrays[|arrays| - 1] == null then 0 else arrays[|arrays| - 1].capacity)
  }

  lemma {:induction false} CapacitiesPrefix(arrays: seq<CByteArray?>, i: nat)
    requires i <= |arrays|
    ensures Capacities(arrays[..i]) <= Capacities(arrays)
    decreases |arrays|
  {
    if i < |arrays| {
      CapacitiesPrefix(arrays[..|arrays| - 1], i);
      assert arrays[..|arrays| - 1][..i] == arrays[..i];
    } else {
      assert arrays[..i] == arrays;
    }
  }

  /** merge: one array with the values of all, in order; refused when two widths differ. */
  method Merge(arrays: seq<CByteArray?>, ghost vs: seq<seq<int>>) returns (r: CByteArray?)
    requires Hold(arrays, vs)
    ensures r == null <==> exists i, j :: 0 <= i < |arrays| && 0 <= j < |arrays| && arrays[i] != null && arrays[j] != null && arrays[i].width != arrays[j].width
    ensures r != null ==> fresh(r) && fresh(r.bytes) && r.Valid() && r.Values() == Concat(vs)
    ensures r != null ==> forall i | 0 <= i < |arrays| :: arrays[i] != null ==> arrays[i].width == r.width
  {
    var measure := Measure(arrays);
    match measure
    case None => r := null;
    case Some(m) =>
      r := new CByteArray(if m.0 == 0 then 1 else m.0, m.1);
      MergeInto(r, arrays, vs);
  }

  method MergeInto(r: CByteArray, arrays: seq<CByteArray?>, ghost vs: seq<seq<int>>)
    requires Hold(arrays, vs) && r.Valid() && r.capacity == Capacities(arrays)
    requires forall i | 0 <= i < |arrays| :: arrays[i] != null ==> arrays[i].bytes != r.bytes && arrays[i].width == r.width
    modifies r.bytes
    ensures r.Valid() && r.Values() == Concat(vs)
  {
    hide Base, ValuesOf, ValueAt, Bytes, Hold;
    assert |vs| == |arrays| && forall a | a in arrays && a != null :: a.bytes != r.bytes by {
      SameCount(arrays, vs);
    }
    var i, destination := 0, 0;
    ghost var done: nat := 0;
    NoValues(r.bytes[..0], r.width);
    while i < |arrays|
      invariant 0 <= i <= |arrays| && done == Capacities(arrays[..i]) && destination == Base(done, r.width)
      invariant r.Valid() && destination <= r.bytes.Length && Hold(arrays, vs)
      invariant ValuesOf(r.bytes[..destination], r.width, done) == Concat(vs[..i])
    {
      assert arrays[..i + 1][..i] == arrays[..i] && vs[..i + 1][..i] == vs[..i];
      if arrays[i] != null {
        CapacitiesPrefix(arrays, i + 1);
        HoldAt(arrays, vs, i);
        AppendBytes(r, destination, done, arrays[i]);
        destination := destination + arrays[i].bytes.Length;
        done := done + arrays[i].capacity;
      } else {
        HoldAt(arrays, vs, i);
        assert Concat(vs[..i]) + [] == Concat(vs[..i]);
      }
      i := i + 1;
    }
    assert arrays[..i] == arrays && vs[..i] == vs && r.bytes[..destination] == r.bytes[..];
  }

  lemma SameCount(arrays: seq<CByteArray?>, vs: seq<seq<int>>)
    requires Hold(arrays, vs)
    ensures |vs| == |arrays|
  {
  }

  lemma HoldAt(arrays: seq<CByteArray?>, vs: seq<seq<int>>, i: nat)
    requires Hold(arrays, vs) && i < |arrays| == |vs|
    ensures if arrays[i] == null then vs[i] == [] else arrays[i].Valid() && vs[i] == arrays[i].Values()
  {
  }

  lemma NoValues(s: seq<nat>, w: nat)
    requires s == []
    ensures Base(0, w) == 0 && ValuesOf(s, w, 0) == []
  {
  }

  /** One array's bytes behind those already there. */
  method AppendBytes(r: CByteArray, destination: nat, ghost done: nat, a: CByteArray)
    requires r.Valid() && a.Valid() && a.bytes != r.bytes && a.width == r.width
    requires destination == Base(done, r.width) && done + a.capacity <= r.capacity && destination <= r.bytes.Length
    modifies r.bytes
    ensures r.Valid() && destination + a.bytes.Length == Base(done + a.capacity, r.width) <= r.bytes.Length
    ensures ValuesOf(r.bytes[..destination + a.bytes.Length], r.width, done + a.capacity)
            == ValuesOf(old(r.bytes[..destination]), r.width, done) + a.Values()
  {
    hide Base;
    BaseSum(done, a.capacity, r.width);
    BaseLe(done + a.capacity, r.capacity, r.width);
    ghost var before := r.bytes[..destination];
    CopyBytes(r.bytes, destination, a.bytes);
    ValuesJoin(before, a.bytes[..], r.width, done, a.capacity);
    assert r.bytes[..destination + a.bytes.Length] == before + a.bytes[..];
  }

  method CopyBytes(dst: array<nat>, d: nat, src: array<nat>)
    requires dst != src && d + src.Length <= dst.Length && Bytes(dst[..]) && Bytes(src[..])
    modifies dst
    ensures dst[..] == Splice(old(dst[..]), d, src[..]) && Bytes(dst[..])
  {
    var i := 0;
    while i < src.Length
      invariant 0 <= i <= src.Length
      invariant forall p | 0 <= p < dst.Length :: dst[p] == if d <= p < d + i then src[p - d] else old(dst[p])
    {
      dst[d + i] := src[i];
      i := i + 1;
    }
    forall p | 0 <= p < dst.Length ensures dst[p] < 256 {
    }
  }
}
