/** The cascaded bitmap allocator: a 16-way tree of bitsets whose upper levels say which subtrees
    still have a free bit. */
module BitAlloc {
  import opened Prelude
  import opened Blocks

  /** Bits of a tree with `depth` levels above the leaves. */
  function Capacity(depth: nat): (c: nat)
    ensures c > 0
  {
    if depth == 0 then 16 else Span(16, Capacity(depth - 1))
  }

  /** The least set bit, or the number of bits when none is set. */
  function TrailingZeros(bits: seq<bool>): (i: nat)
    ensures i <= |bits| && (i < |bits| ==> bits[i])
    ensures forall j :: 0 <= j < i ==> !bits[j]
  {
    if bits == [] || bits[0] then 0
    else
      assert forall j :: 0 < j < |bits| ==> bits[j] == bits[1..][j - 1];
      1 + TrailingZeros(bits[1..])
  }

  class Node {
    /** 0 for the 16-bit leaf, and one more for every level above it. */
    const depth: nat
    /** At a leaf, which bits are free; above, which subtrees have a free bit. */
    var bits: seq<bool>
    const sub: seq<Node>
    ghost const repr: set<Node>

    /** The tree is a tree: every level has 16 subtrees that share nothing. */
    ghost predicate Shape()
      decreases depth
    {
      && this in repr
      && |sub| == (if depth == 0 then 0 else 16)
      && (forall i :: 0 <= i < |sub| ==>
            && sub[i].depth == depth - 1
            && sub[i] in sub[i].repr && sub[i].repr <= repr && this !in sub[i].repr
            && sub[i].Shape())
      && (forall i, j :: 0 <= i < j < |sub| ==> sub[i].repr !! sub[j].repr)
    }

    predicate IsEmpty()
      reads this
    {
      forall i :: 0 <= i < |bits| ==> !bits[i]
    }

    /** Every summary bit is set exactly when its subtree has a free bit. */
    ghost predicate Valid()
      reads this, repr
      decreases depth
    {
      && Shape() && |bits| == 16
      && (forall i :: 0 <= i < |sub| ==> sub[i].Valid() && (bits[i] <==> !sub[i].IsEmpty()))
    }

    function Cap(): (c: nat)
      ensures c > 0
    {
      Capacity(depth)
    }

    /** Whether bit `k` is free. */
    ghost predicate Test(k: nat)
      requires Valid() && k < Cap()
      reads this, repr
      decreases depth
    {
      if depth == 0 then bits[k]
      else
        var c := Capacity(depth - 1);
        IndexBelow(k, 16, c);
        sub[Quot(k, c)].Test(Rem(k, c))
    }

    /** Bit `k` exists and is free. */
    ghost predicate Free(k: nat)
      requires Valid()
      reads this, repr
    {
      k < Cap() && Test(k)
    }

    /** Bit `x` of subtree `i`, counted in the whole tree. */
    ghost function Index(i: nat, x: nat): nat
      requires depth > 0
    {
      Span(i, Capacity(depth - 1)) + x
    }

    lemma IndexFree(i: nat, x: nat)
      requires Valid() && depth > 0 && i < 16 && x < Capacity(depth - 1)
      ensures Index(i, x) < Cap() && Free(Index(i, x)) == sub[i].Free(x)
      ensures Quot(Index(i, x), Capacity(depth - 1)) == i && Rem(Index(i, x), Capacity(depth - 1)) == x
    {
      var c := Capacity(depth - 1);
      SpanStep(i, 16, c);
      IndexOfSpan(Index(i, x), i, c, x);
    }

    /** Every bit lies in one subtree. */
    lemma Split(k: nat) returns (i: nat, x: nat)
      requires Valid() && depth > 0 && k < Cap()
      ensures i < 16 && x < Capacity(depth - 1) && k == Index(i, x)
      ensures i == Quot(k, Capacity(depth - 1)) && x == Rem(k, Capacity(depth - 1))
      ensures Free(k) == sub[i].Free(x)
    {
      var c := Capacity(depth - 1);
      i, x := Quot(k, c), Rem(k, c);
      IndexBelow(k, 16, c);
      DivSpan(k, c);
      IndexFree(i, x);
    }

    /** The root's bits alone tell whether anything is free. */
    lemma {:induction false} EmptyMeansNoneFree()
      requires Valid()
      ensures IsEmpty() <==> forall k: nat :: !Free(k)
      decreases depth
    {
      if depth > 0 {
        forall i | 0 <= i < 16 ensures sub[i].IsEmpty() <==> forall x: nat :: !sub[i].Free(x) {
          sub[i].EmptyMeansNoneFree();
        }
        if IsEmpty() {
          forall k: nat ensures !Free(k) {
            if k < Cap() { var i, x := Split(k); }
          }
        } else {
          var i :| 0 <= i < 16 && bits[i];
          var x: nat :| sub[i].Free(x);
          IndexFree(i, x);
        }
      } else {
        assert forall k: nat :: Free(k) <==> k < |bits| && bits[k];
      }
    }

    /** A tree that is not empty has a least free bit. */
    lemma Least() returns (m: nat)
      requires Valid() && !IsEmpty()
      ensures Free(m) && forall k: nat :: k < m ==> !Free(k)
    {
      EmptyMeansNoneFree();
      m :| Free(m);
      while exists k: nat :: k < m && Free(k)
        invariant Free(m)
        decreases m
      {
        var k: nat :| k < m && Free(k);
        m := k;
      }
    }

    /** The least free bit of the first subtree that has any is the least free bit. */
    lemma LeastOverall(i: nat, x: nat)
      requires Valid() && depth > 0 && i < 16
      requires sub[i].Free(x) && forall y: nat :: y < x ==> !sub[i].Free(y)
      requires forall j :: 0 <= j < i ==> !bits[j]
      ensures Free(Index(i, x)) && forall k: nat :: k < Index(i, x) ==> !Free(k)
    {
      hide Quot, Rem, Span, Capacity, Node.Test;
      var c := Capacity(depth - 1);
      IndexFree(i, x);
      forall k: nat | k < Index(i, x) ensures !Free(k) {
        var q, y := Split(k);
        if i < q { SpanStep(i, q, c); }
        sub[q].EmptyMeansNoneFree();
      }
    }

    /** One subtree has changed, and its summary bit has been set from it: the tree is valid again,
        and the bits outside that subtree are what they were. */
    twostate lemma AfterSub(i: nat)
      requires depth > 0 && i < 16 && old(Valid())
      requires forall j :: 0 <= j < 16 && j != i ==> unchanged(sub[j].repr)
      requires sub[i].Valid() && bits == old(bits)[i := !sub[i].IsEmpty()]
      ensures Valid()
      ensures forall j, x: nat :: 0 <= j < 16 && x < Capacity(depth - 1) ==>
        Free(Index(j, x)) == if j == i then sub[i].Free(x) else old(Free(Index(j, x)))
    {
      forall j | 0 <= j < 16 ensures sub[j].Valid() && (bits[j] <==> !sub[j].IsEmpty()) {
        if j != i { assert old(sub[j].Valid()); }
      }
      forall j, x: nat | 0 <= j < 16 && x < Capacity(depth - 1)
        ensures Free(Index(j, x)) == if j == i then sub[i].Free(x) else old(Free(Index(j, x)))
      {
        IndexFree(j, x);
      }
    }

    /** Takes the least free bit; nothing changes when there is none. */
    method Alloc() returns (r: Option<nat>)
      requires Valid()
      modifies repr
      ensures Valid()
      ensures r.None? <==> forall k: nat :: !old(Free(k))
      ensures r.Some? ==> old(Free(r.value)) && forall k: nat :: k < r.value ==> !old(Free(k))
      ensures forall k: nat :: Free(k) == (old(Free(k)) && r != Some(k))
      decreases depth, 2
    {
      EmptyMeansNoneFree();
      if depth == 0 {
        var i := TrailingZeros(bits);
        if i < 16 {
          bits := bits[i := false];
          r := Some(i);
        } else {
          r := None;
        }
      } else if !IsEmpty() {
        var i := TrailingZeros(bits);
        r := AllocIn(i);
      } else {
        r := None;
      }
    }

    /** Takes the least free bit of subtree `i`, the first one that has any. */
    method AllocIn(i: nat) returns (r: Option<nat>)
      requires Valid() && depth > 0 && i < 16 && bits[i]
      requires forall j :: 0 <= j < i ==> !bits[j]
      modifies repr
      ensures Valid()
      ensures r.Some? && old(Free(r.value)) && forall k: nat :: k < r.value ==> !old(Free(k))
      ensures forall k: nat :: Free(k) == (old(Free(k)) && r != Some(k))
      decreases depth, 1
    {
      hide Quot, Rem, Capacity, Node.Test;
      assert !sub[i].IsEmpty();
      ghost var m := sub[i].Least();
      LeastOverall(i, m);
      var x := TakeLeast(i, m);
      r := Some(Span(i, Capacity(depth - 1)) + x);
    }

    /** Takes the least free bit `m` of subtree `i`. */
    method TakeLeast(i: nat, ghost m: nat) returns (x: nat)
      requires Valid() && depth > 0 && i < 16
      requires sub[i].Free(m) && forall y: nat :: y < m ==> !sub[i].Free(y)
      modifies repr
      ensures Valid() && x == m
      ensures forall k: nat :: Free(k) == (old(Free(k)) && k != Index(i, m))
      decreases depth, 0
    {
      hide Quot, Rem, Capacity;
      ghost var was := iset k: nat | Free(k);
      forall y: nat | y < Capacity(depth - 1) ensures sub[i].Free(y) == (Index(i, y) in was) {
        IndexFree(i, y);
      }
      var r := sub[i].Alloc();
      bits := bits[i := !sub[i].IsEmpty()];
      AfterSub(i);
      OneTaken(i, m, was);
      x := r.value;
    }

    /** Bit `m` of subtree `i` is taken, and all others are as in `was`. */
    lemma OneTaken(i: nat, m: nat, was: iset<nat>)
      requires Valid() && depth > 0 && i < 16 && m < Capacity(depth - 1)
      requires forall j, x: nat :: 0 <= j < 16 && x < Capacity(depth - 1) ==>
        Free(Index(j, x)) == (Index(j, x) in was && !(j == i && x == m))
      requires forall k: nat :: k in was ==> k < Cap()
      ensures forall k: nat :: Free(k) == (k in was && k != Index(i, m))
    {
      forall k: nat ensures Free(k) == (k in was && k != Index(i, m)) {
        if k < Cap() {
          var q, y := Split(k);
          IndexFree(i, m);
        }
      }
    }

    /** Frees one allocated bit. */
    method Dealloc(key: nat)
      requires Valid() && key < Cap() && !Free(key)
      modifies repr
      ensures Valid()
      ensures forall k: nat :: Free(k) == (old(Free(k)) || k == key)
      decreases depth
    {
      if depth == 0 {
        bits := bits[key := true];
      } else {
        var c := Capacity(depth - 1);
        ghost var i', x' := Split(key);
        var i := Quot(key, c);
        sub[i].Dealloc(Rem(key, c));
        sub[i].EmptyMeansNoneFree();
        bits := bits[i := true];
        AfterSub(i);
        forall k: nat ensures Free(k) == (old(Free(k)) || k == key) {
          if k < Cap() { var q, y := Split(k); }
        }
      }
    }

    /** Marks the bits of a range free. */
    method Insert(start: nat, end: nat)
      requires Valid() && end <= Cap() && IsRange(depth, start, end)
      modifies repr
      ensures Valid()
      ensures forall k: nat :: Free(k) == (old(Free(k)) || start <= k < end)
    {
      ForRange(start, end, true);
    }

    /** Marks the bits of a range allocated. */
    method Remove(start: nat, end: nat)
      requires Valid() && end <= Cap() && IsRange(depth, start, end)
      modifies repr
      ensures Valid()
      ensures forall k: nat :: Free(k) == (old(Free(k)) && !(start <= k < end))
    {
      ForRange(start, end, false);
    }

    /** Gives every bit of the range the value `free`, subtree by subtree. */
    method ForRange(start: nat, end: nat, free: bool)
      requires Valid() && end <= Cap() && IsRange(depth, start, end)
      modifies repr
      ensures Valid()
      ensures forall k: nat :: Free(k) == if start <= k < end then free else old(Free(k))
      decreases depth, 2
    {
      if depth == 0 {
        bits := bits[..start] + Repeat(free, end - start) + bits[end..];
      } else {
        IndexBelow(end - 1, 16, Capacity(depth - 1));
        ForSubtrees(start, end, free);
      }
    }

    method ForSubtrees(start: nat, end: nat, free: bool)
      requires Valid() && depth > 0 && end <= Cap() && IsRange(depth, start, end)
      requires Quot(end - 1, Capacity(depth - 1)) < 16
      modifies repr
      ensures Valid()
      ensures forall k: nat :: Free(k) == if start <= k < end then free else old(Free(k))
      decreases depth, 1
    {
      var c := Capacity(depth - 1);
      var last := Quot(end - 1, c);
      var i := Quot(start, c);
      BlockOrder(start, end, c);
      BlockStep(end, c);
      forall k: nat | start <= k ensures i <= Quot(k, c) { BlockOrder(start, k, c); }
      forall k: nat | k < end ensures Quot(k, c) <= last { BlockOrder(k, end - 1, c); }
      while i <= last
        invariant Quot(start, c) <= i <= last + 1
        invariant Valid()
        invariant forall k: nat :: k < Cap() ==>
          Free(k) == if start <= k < end && Quot(k, c) < i then free else old(Free(k))
      {
        RangeIn(i, start, end, free);
        i := i + 1;
      }
    }

    /** The part of the range that lies in subtree `i`. */
    method RangeIn(i: nat, start: nat, end: nat, free: bool)
      requires Valid() && depth > 0 && end <= Cap() && IsRange(depth, start, end) && i < 16
      requires Quot(start, Capacity(depth - 1)) <= i <= Quot(end - 1, Capacity(depth - 1))
      modifies repr
      ensures Valid()
      ensures forall k: nat :: k < Cap() ==>
        Free(k) == if start <= k < end && Quot(k, Capacity(depth - 1)) == i then free else old(Free(k))
      decreases depth, 0
    {
      var c := Capacity(depth - 1);
      PartIsRange(depth, start, end, i, c);
      sub[i].ForRange(PartBegin(start, i, c), PartEnd(end, i, c), free);
      bits := bits[i := !sub[i].IsEmpty()];
      AfterSub(i);
      forall k: nat | k < Cap()
        ensures Free(k) == if start <= k < end && Quot(k, c) == i then free else old(Free(k))
      {
        var q, y := Split(k);
        if q == i { PartIsExact(start, end, i, c, y); }
      }
    }

    /** The least free bit from `key` on. */
    method Next(key: nat) returns (r: Option<nat>)
      requires Valid()
      ensures r.None? ==> forall k: nat :: key <= k ==> !Free(k)
      ensures r.Some? ==> key <= r.value && Free(r.value)
      ensures r.Some? ==> forall k: nat :: key <= k < r.value ==> !Free(k)
      decreases depth
    {
      if depth == 0 {
        var i := key;
        while i < 16
          invariant forall k: nat :: key <= k < i ==> !Free(k)
        {
          if bits[i] {
            return Some(i);
          }
          i := i + 1;
        }
        r := None;
      } else {
        hide Capacity, Quot, Rem;
        var c := Capacity(depth - 1);
        var idx := Quot(key, c);
        var i := idx;
        forall k: nat | key <= k ensures idx <= Quot(k, c) { BlockOrder(key, k, c); }
        while i < 16
          invariant idx <= i
          invariant forall k: nat :: key <= k < Cap() && Quot(k, c) < i ==> !Free(k)
          decreases 16 - i
        {
          var from := if i == idx then Rem(key, c) else 0;
          if bits[i] {
            var x := sub[i].Next(from);
            if x.Some? {
              r := Some(Span(i, c) + x.value);
              FirstInBlock(key, i, from, x.value);
              return;
            }
          } else {
            sub[i].EmptyMeansNoneFree();
          }
          NoneInBlock(key, i, from);
          i := i + 1;
        }
        forall k: nat | key <= k ensures !Free(k) {
          if k < Cap() { IndexBelow(k, 16, c); }
        }
        r := None;
      }
    }

    /** Block `i` has nothing free from the key on. */
    lemma NoneInBlock(key: nat, i: nat, from: nat)
      requires Valid() && depth > 0 && i < 16 && Quot(key, Capacity(depth - 1)) <= i
      requires from == if Quot(key, Capacity(depth - 1)) == i then Rem(key, Capacity(depth - 1)) else 0
      requires forall y: nat :: from <= y ==> !sub[i].Free(y)
      ensures forall k: nat :: key <= k < Cap() && Quot(k, Capacity(depth - 1)) == i ==> !Free(k)
    {
      forall k: nat | key <= k < Cap() && Quot(k, Capacity(depth - 1)) == i ensures !Free(k) {
        var q, y := Split(k);
        FromBlock(key, i, Capacity(depth - 1), y);
      }
    }

    /** The first free bit of block `i` from the key on is the first one overall, when the blocks
        before have none. */
    lemma FirstInBlock(key: nat, i: nat, from: nat, x: nat)
      requires Valid() && depth > 0 && i < 16 && Quot(key, Capacity(depth - 1)) <= i
      requires from == if Quot(key, Capacity(depth - 1)) == i then Rem(key, Capacity(depth - 1)) else 0
      requires from <= x && sub[i].Free(x) && forall y: nat :: from <= y < x ==> !sub[i].Free(y)
      requires forall k: nat :: key <= k < Cap() && Quot(k, Capacity(depth - 1)) < i ==> !Free(k)
      ensures key <= Index(i, x) && Free(Index(i, x))
      ensures forall k: nat :: key <= k < Index(i, x) ==> !Free(k)
    {
      var c := Capacity(depth - 1);
      IndexFree(i, x);
      FromBlock(key, i, c, x);
      forall k: nat | key <= k < Index(i, x) ensures !Free(k) {
        var q, y := Split(k);
        BlockOrder(k, Index(i, x), c);
        if q == i { FromBlock(key, i, c, y); }
      }
    }

    /** `size` free bits in a row. */
    ghost predicate FreeRun(base: nat, size: nat)
      requires Valid()
      reads this, repr
    {
      forall k: nat :: base <= k < base + size ==> Free(k)
    }

    /** The least aligned base of a free run; none exactly when there is no such run, the run is to be
        empty, or the whole capacity is smaller than the alignment. */
    method FindContiguous(size: nat, alignLog2: nat) returns (r: Option<nat>)
      requires Valid()
      ensures r.None? <==>
        || size == 0 || Cap() < Pow2(alignLog2)
        || forall b: nat :: Aligned(b, Pow2(alignLog2)) ==> !FreeRun(b, size)
      ensures r.Some? ==> Aligned(r.value, Pow2(alignLog2)) && FreeRun(r.value, size)
      ensures r.Some? ==> forall b: nat :: b < r.value && Aligned(b, Pow2(alignLog2)) ==> !FreeRun(b, size)
    {
      hide Node.Test, Capacity, Pow2, AlignUp, Quot, Span, Node.Valid;
      var a := Pow2(alignLog2);
      EmptyMeansNoneFree();
      if Cap() < a || IsEmpty() {
        forall b: nat | IsEmpty() && size > 0 ensures !FreeRun(b, size) { assert !Free(b); }
        return None;
      }
      var base: nat := 0;
      var offset := base;
      while offset < Cap()
        invariant base <= offset && (size > 0 ==> offset < base + size) && Aligned(base, a)
        invariant forall k: nat :: base <= k < offset ==> Free(k)
        invariant size > 0 ==> forall b: nat :: b < base && Aligned(b, a) ==> !FreeRun(b, size)
        decreases Cap() - offset
      {
        var next := Next(offset);
        if next.None? {
          forall b: nat | base <= b && size > 0 ensures !FreeRun(b, size) { assert !Free(b + size - 1); }
          return None;
        }
        if next.value != offset {
          var base' := AlignUp(next.value, a);
          forall b: nat | base <= b < base' && Aligned(b, a) && size > 0 ensures !FreeRun(b, size) {
            AlignUpIsLeast(next.value, a, b);
            assert !Free(if b <= offset then offset else b);
          }
          AlignUpIsLeast(next.value, a, base');
          base := base';
          offset := base;
          continue;
        }
        offset := offset + 1;
        if offset - base == size {
          assert Aligned(base, a) && FreeRun(base, size);
          return Some(base);
        }
      }
      forall b: nat | base <= b && size > 0 ensures !FreeRun(b, size) { assert !Free(b + size - 1); }
      r := None;
    }

    /** Takes the run that `FindContiguous` finds, and no other bit. */
    method AllocContiguous(size: nat, alignLog2: nat) returns (r: Option<nat>)
      requires Valid()
      modifies repr
      ensures Valid()
      ensures r.None? <==>
        || size == 0 || Cap() < Pow2(alignLog2)
        || forall b: nat :: Aligned(b, Pow2(alignLog2)) ==> !old(FreeRun(b, size))
      ensures r.Some? ==> Aligned(r.value, Pow2(alignLog2)) && old(FreeRun(r.value, size))
      ensures r.Some? ==> forall b: nat :: b < r.value && Aligned(b, Pow2(alignLog2)) ==> !old(FreeRun(b, size))
      ensures forall k: nat :: Free(k) == (old(Free(k)) && (r.Some? ==> !(r.value <= k < r.value + size)))
    {
      r := FindContiguous(size, alignLog2);
      if r.Some? {
        assert Free(r.value + size - 1);
        Remove(r.value, r.value + size);
      }
    }

    /** A tree of its own over 16 subtrees that share nothing. */
    constructor (depth: nat, sub: seq<Node>, ghost nodes: set<Node>)
      requires |sub| == if depth == 0 then 0 else 16
      requires forall i :: 0 <= i < |sub| ==>
        sub[i].Valid() && sub[i].IsEmpty() && sub[i].depth == depth - 1 && sub[i].repr <= nodes
      requires forall i, j :: 0 <= i < j < |sub| ==> sub[i].repr !! sub[j].repr
      ensures Valid() && IsEmpty() && this.depth == depth && repr == nodes + {this}
    {
      this.depth, this.sub, this.repr := depth, sub, nodes + {this};
      this.bits := Repeat(false, 16);
    }

    /** The default tree: nothing is free. */
    static method Default(depth: nat) returns (n: Node)
      ensures n.Valid() && fresh(n.repr) && n.depth == depth
      ensures forall k: nat :: !n.Free(k)
      decreases depth
    {
      var children: seq<Node> := [];
      ghost var nodes: set<Node> := {};
      while depth > 0 && |children| < 16
        invariant |children| <= (if depth == 0 then 0 else 16) && fresh(nodes)
        invariant forall i :: 0 <= i < |children| ==>
          children[i].Valid() && children[i].IsEmpty() && children[i].depth == depth - 1 && children[i].repr <= nodes
        invariant forall i, j :: 0 <= i < j < |children| ==> children[i].repr !! children[j].repr
      {
        var c := Default(depth - 1);
        c.EmptyMeansNoneFree();
        children := children + [c];
        nodes := nodes + c.repr;
      }
      n := new Node(depth, children, nodes);
      n.EmptyMeansNoneFree();
    }
  }

  function Pow2(n: nat): (r: nat)
    ensures r > 0
  {
    if n == 0 then 1 else 2 * Pow2(n - 1)
  }

  /** Shifting by one doubles, and shifting on multiplies. */
  lemma {:induction false} ShiftsCompose(m: nat, n: nat)
    ensures Pow2(0) == 1 && Pow2(1) == 2 && Pow2(m + n) == Pow2(m) * Pow2(n)
  {
    assert Pow2(1) == 2 * Pow2(0);
    if m > 0 {
      ShiftsCompose(m - 1, n);
      Associate(2, Pow2(m - 1), Pow2(n));
    }
  }

  lemma Associate(a: nat, b: nat, c: nat)
    ensures (a * b) * c == a * (b * c)
  {
  }

  /** Every level has sixteen times as many bits as the one below. */
  lemma {:induction false} CapacityExactly(depth: nat)
    ensures Capacity(0) == 16 && Capacity(depth) == Pow2(4 * (depth + 1))
  {
    ShiftsCompose(4, 4 * depth);
    ShiftsCompose(2, 2);
    ShiftsCompose(1, 1);
    if depth > 0 {
      CapacityExactly(depth - 1);
      SpanIsProduct(16, Capacity(depth - 1));
    }
  }

  predicate Aligned(b: nat, a: nat)
    requires a > 0
  {
    Rem(b, a) == 0
  }

  /** The shifts `(((n - 1) >> log) + 1) << log` for `a` = two to the `log`. */
  function AlignUp(n: nat, a: nat): nat
    requires a > 0 && n > 0
  {
    Span(Quot(n - 1, a) + 1, a)
  }

  /** The same by division. */
  lemma AlignmentByDivision(n: nat, a: nat)
    requires a > 0
    ensures Aligned(n, a) <==> n % a == 0
    ensures n > 0 ==> AlignUp(n, a) == ((n - 1) / a + 1) * a
  {
    QuotIsDivision(n, a);
    if n > 0 {
      QuotIsDivision(n - 1, a);
      SpanIsProduct((n - 1) / a + 1, a);
    }
  }

  lemma AlignUpIsLeast(n: nat, a: nat, b: nat)
    requires a > 0 && n > 0
    ensures AlignUp(n, a) >= n && Aligned(AlignUp(n, a), a)
    ensures Aligned(b, a) && b >= n ==> b >= AlignUp(n, a)
  {
    DivSpan(n - 1, a);
    IndexOfSpan(AlignUp(n, a), Quot(n - 1, a) + 1, a, 0);
    if Aligned(b, a) && b >= n {
      DivSpan(b, a);
      BlockOrder(n - 1, b, a);
      if Quot(n - 1, a) + 1 < Quot(b, a) { SpanStep(Quot(n - 1, a) + 1, Quot(b, a), a); }
    }
  }

  function Repeat(b: bool, n: nat): (r: seq<bool>)
    ensures |r| == n && forall i :: 0 <= i < n ==> r[i] == b
  {
    seq(n, _ => b)
  }

  /** Positions in order lie in blocks in order. */
  lemma {:induction false} BlockOrder(a: nat, b: nat, c: nat)
    requires c > 0 && a <= b
    ensures Quot(a, c) <= Quot(b, c)
  {
    if a >= c { BlockOrder(a - c, b - c, c); }
  }

  /** The offsets `begin..stop` at which a range meets block `i`. */
  function PartBegin(start: nat, i: nat, c: nat): nat
    requires c > 0
  {
    if Quot(start, c) == i then Rem(start, c) else 0
  }

  function PartEnd(end: nat, i: nat, c: nat): nat
    requires c > 0
  {
    if Quot(end, c) == i then Rem(end, c) else c
  }

  /** The ranges that `insert` and `remove` take. Of the empty ones these are those behind the first bit at
      a boundary of leaves, for a tree that has levels above the leaves: others end in a subtraction
      below zero or in a refused bit range. */
  predicate IsRange(depth: nat, start: nat, end: nat) {
    start < end || (start == end && depth > 0 && start > 0 && start % 16 == 0)
  }

  lemma {:induction false} SpanOfLeaves(n: nat, c: nat)
    requires c % 16 == 0
    ensures Span(n, c) % 16 == 0
  {
    if n > 0 { SpanOfLeaves(n - 1, c); }
  }

  lemma {:induction false} CapacityInLeaves(depth: nat)
    ensures Capacity(depth) % 16 == 0
  {
    if depth > 0 {
      CapacityInLeaves(depth - 1);
      SpanOfLeaves(16, Capacity(depth - 1));
    }
  }

  lemma BlockStep(n: nat, c: nat)
    requires c > 0 && n > 0
    ensures Quot(n, c) <= Quot(n - 1, c) + 1 && (Rem(n, c) == 0 ==> Quot(n - 1, c) < Quot(n, c))
  {
    DivSpan(n, c);
    DivSpan(n - 1, c);
    if Quot(n - 1, c) + 1 < Quot(n, c) { SpanStep(Quot(n - 1, c) + 1, Quot(n, c), c); }
    if Quot(n, c) < Quot(n - 1, c) { SpanStep(Quot(n, c), Quot(n - 1, c), c); }
  }

  lemma LeafBoundary(a: nat, b: nat)
    requires a % 16 == 0 && (a + b) % 16 == 0
    ensures b % 16 == 0 && (0 < b ==> 16 <= b)
  {
  }

  lemma EmptyPart(depth: nat, start: nat, i: nat, c: nat)
    requires depth > 0 && c == Capacity(depth - 1) && start > 0 && start % 16 == 0
    requires Quot(start, c) <= i <= Quot(start - 1, c)
    ensures i == Quot(start, c) && IsRange(depth - 1, Rem(start, c), Rem(start, c))
  {
    assert depth == 1 ==> c == 16;
    BlockStep(start, c);
    BlockOrder(start - 1, start, c);
    DivSpan(start, c);
    CapacityInLeaves(depth - 1);
    SpanOfLeaves(Quot(start, c), c);
    LeafBoundary(Span(Quot(start, c), c), Rem(start, c));
    hide Quot, Rem, Span, Capacity;
  }

  lemma PartIsRange(depth: nat, start: nat, end: nat, i: nat, c: nat)
    requires depth > 0 && c == Capacity(depth - 1) && IsRange(depth, start, end)
    requires Quot(start, c) <= i <= Quot(end - 1, c)
    ensures PartEnd(end, i, c) <= c && IsRange(depth - 1, PartBegin(start, i, c), PartEnd(end, i, c))
  {
    if start == end {
      EmptyPart(depth, start, i, c);
      hide Quot, Rem, Span, Capacity;
    } else {
      hide Capacity;
      DivSpan(start, c);
      DivSpan(end, c);
      DivSpan(end - 1, c);
      BlockOrder(end - 1, end, c);
      if i < Quot(end - 1, c) { SpanStep(i, Quot(end - 1, c), c); }
    }
  }

  lemma PartIsExact(start: nat, end: nat, i: nat, c: nat, y: nat)
    requires c > 0 && start <= end && end > 0 && Quot(start, c) <= i <= Quot(end - 1, c) && y < c
    ensures start <= Span(i, c) + y < end <==> PartBegin(start, i, c) <= y < PartEnd(end, i, c)
  {
    FromBlock(start, i, c, y);
    DivSpan(end, c);
    BlockOrder(end - 1, end, c);
    if i < Quot(end, c) { SpanStep(i, Quot(end, c), c); }
  }

  /** Where block `i` starts to be at or after the key. */
  lemma FromBlock(key: nat, i: nat, c: nat, y: nat)
    requires c > 0 && Quot(key, c) <= i && y < c
    ensures key <= Span(i, c) + y <==> (if Quot(key, c) == i then Rem(key, c) else 0) <= y
  {
    DivSpan(key, c);
    if Quot(key, c) < i { SpanStep(Quot(key, c), i, c); }
  }
}
