/** Whole runs of the bitmap allocator, against a plain set of free indices. */
module BitAllocRuns {
  import opened Prelude
  import opened BitAlloc

  datatype Op =
    | Alloc
    | AllocContiguous(size: nat, alignLog2: nat)
    | Dealloc(key: nat)
    | Insert(start: nat, end: nat)
    | Remove(start: nat, end: nat)
    | Next(key: nat)

  // ---------- the plain set ----------

  ghost predicate IsLeast(free: set<nat>, key: nat, m: nat) {
    m in free && key <= m && forall k :: k in free && key <= k ==> m <= k
  }

  ghost function LeastFrom(free: set<nat>, key: nat): Option<nat> {
    if exists m :: IsLeast(free, key, m) then
      var m :| IsLeast(free, key, m);
      Some(m)
    else None
  }

  ghost predicate IsRun(free: set<nat>, b: nat, size: nat) {
    forall k: nat :: b <= k < b + size ==> k in free
  }

  ghost predicate IsFirstRun(free: set<nat>, size: nat, a: nat, b: nat)
    requires a > 0
  {
    Aligned(b, a) && IsRun(free, b, size) && forall c: nat :: c < b && Aligned(c, a) ==> !IsRun(free, c, size)
  }

  ghost function FirstRun(cap: nat, free: set<nat>, size: nat, a: nat): Option<nat>
    requires a > 0
  {
    if a <= cap && exists b :: IsFirstRun(free, size, a, b) then
      var b :| IsFirstRun(free, size, a, b);
      Some(b)
    else None
  }

  ghost function Range(start: nat, end: nat): (r: set<nat>)
    ensures forall k: nat :: k in r <==> start <= k < end
  {
    if start >= end then {} else Range(start, end - 1) + {end - 1}
  }

  /** What the source asserts, or must be given, of an operation. */
  ghost predicate Legal(depth: nat, free: set<nat>, op: Op) {
    var cap := Capacity(depth);
    match op
    case Dealloc(key) => key < cap && key !in free
    case Insert(start, end) => end <= cap && IsRange(depth, start, end)
    case Remove(start, end) => end <= cap && IsRange(depth, start, end)
    case _ => true
  }

  /** What an operation answers, and the free indices after it. */
  ghost function Reply(cap: nat, free: set<nat>, op: Op): Option<nat> {
    match op
    case Alloc => LeastFrom(free, 0)
    case AllocContiguous(size, alignLog2) => if size == 0 then None else FirstRun(cap, free, size, Pow2(alignLog2))
    case Next(key) => LeastFrom(free, key)
    case _ => None
  }

  ghost function After(cap: nat, free: set<nat>, op: Op): set<nat> {
    var r := Reply(cap, free, op);
    match op
    case Alloc => if r.Some? then free - {r.value} else free
    case AllocContiguous(size, _) => if r.Some? then free - Range(r.value, r.value + size) else free
    case Dealloc(key) => free + {key}
    case Insert(start, end) => free + Range(start, end)
    case Remove(start, end) => free - Range(start, end)
    case Next(_) => free
  }

  ghost predicate LegalRun(depth: nat, free: set<nat>, ops: seq<Op>)
    decreases |ops|
  {
    ops != [] ==> Legal(depth, free, ops[0]) && LegalRun(depth, After(Capacity(depth), free, ops[0]), ops[1..])
  }

  ghost function Replies(cap: nat, free: set<nat>, ops: seq<Op>): seq<Option<nat>>
    decreases |ops|
  {
    if ops == [] then [] else [Reply(cap, free, ops[0])] + Replies(cap, After(cap, free, ops[0]), ops[1..])
  }

  ghost function Final(cap: nat, free: set<nat>, ops: seq<Op>): set<nat>
    decreases |ops|
  {
    if ops == [] then free else Final(cap, After(cap, free, ops[0]), ops[1..])
  }

  // ---------- the tree ----------

  ghost function FreeSet(tree: Node): (s: set<nat>)
    requires tree.Valid()
    reads tree, tree.repr
    ensures forall k: nat :: k in s <==> tree.Free(k)
  {
    set k: nat | k < tree.Cap() && tree.Free(k) :: k
  }

  lemma LeastIs(free: set<nat>, key: nat, r: Option<nat>)
    requires r.Some? ==> IsLeast(free, key, r.value)
    requires r.None? ==> forall k :: k in free ==> k < key
    ensures LeastFrom(free, key) == r
  {
    if r.Some? {
      forall m | IsLeast(free, key, m) ensures m == r.value {
      }
    }
  }

  lemma FirstRunIs(cap: nat, free: set<nat>, size: nat, a: nat, r: Option<nat>)
    requires a > 0 && (r.Some? ==> a <= cap && IsFirstRun(free, size, a, r.value))
    requires r.None? ==> cap < a || forall b: nat :: Aligned(b, a) ==> !IsRun(free, b, size)
    ensures FirstRun(cap, free, size, a) == r
  {
    if r.Some? {
      forall b: nat | IsFirstRun(free, size, a, b) ensures b == r.value {
        assert Aligned(b, a) && Aligned(r.value, a);
      }
    }
  }

  /** One operation answers, and changes the free indices, as it would on the plain set. */
  method Perform(tree: Node, op: Op) returns (r: Option<nat>)
    requires tree.Valid() && Legal(tree.depth, FreeSet(tree), op)
    modifies tree.repr
    ensures tree.Valid()
    ensures r == Reply(tree.Cap(), old(FreeSet(tree)), op)
    ensures FreeSet(tree) == After(tree.Cap(), old(FreeSet(tree)), op)
  {
    ghost var free := FreeSet(tree);
    r := None;
    match op
    case Alloc =>
      r := tree.Alloc();
      LeastIs(free, 0, r);
    case AllocContiguous(size, alignLog2) =>
      ghost var a := Pow2(alignLog2);
      assert forall b: nat :: tree.FreeRun(b, size) <==> IsRun(free, b, size);
      r := tree.AllocContiguous(size, alignLog2);
      if size > 0 { FirstRunIs(tree.Cap(), free, size, a, r); }
    case Dealloc(key) => tree.Dealloc(key);
    case Insert(start, end) => tree.Insert(start, end);
    case Remove(start, end) => tree.Remove(start, end);
    case Next(key) =>
      r := tree.Next(key);
      assert forall k :: k in free ==> tree.Free(k);
      LeastIs(free, key, r);
  }

  /** A tree of any depth, in any run, cannot be told from a plain set of free indices. */
  method Run(tree: Node, ops: seq<Op>) returns (replies: seq<Option<nat>>)
    requires tree.Valid() && LegalRun(tree.depth, FreeSet(tree), ops)
    modifies tree.repr
    ensures tree.Valid()
    ensures replies == Replies(tree.Cap(), old(FreeSet(tree)), ops)
    ensures FreeSet(tree) == Final(tree.Cap(), old(FreeSet(tree)), ops)
  {
    hide After, Reply, Legal;
    replies := [];
    ghost var free := FreeSet(tree);
    assert ops[0..] == ops;
    for i := 0 to |ops|
      invariant tree.Valid() && LegalRun(tree.depth, FreeSet(tree), ops[i..])
      invariant Replies(tree.Cap(), free, ops) == replies + Replies(tree.Cap(), FreeSet(tree), ops[i..])
      invariant Final(tree.Cap(), free, ops) == Final(tree.Cap(), FreeSet(tree), ops[i..])
    {
      assert ops[i..][1..] == ops[i + 1..] && ops[i..][0] == ops[i];
      var r := Perform(tree, ops[i]);
      replies := replies + [r];
    }
  }
}
