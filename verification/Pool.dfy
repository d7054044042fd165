/**
 The size-class buffer pool. Its classes, then every run of Get and Put by callers who return
 only what they hold, then the mutable pool and codec.Encode over it.
 */
module Pool {
  import opened Wrappers
  import opened Wire
  import opened Encoding
  import Marshal

  // ---- the size classes ----------------------------------------------------------

  const DEFAULT_CLASSES: seq<int64> := [0x100, 0x400, 0x1000, 0x4000, 0x1_0000, 0x4_0000, 0x10_0000]

  ghost predicate Increasing(cs: seq<int>) {
    forall i, j :: 0 <= i < j < |cs| ==> cs[i] < cs[j]
  }

  ghost predicate Ascending(cs: seq<int>) {
    forall i, j :: 0 <= i < j < |cs| ==> cs[i] <= cs[j]
  }

  ghost predicate Positive(cs: seq<int>) {
    forall i :: 0 <= i < |cs| ==> cs[i] > 0
  }

  /** The same elements, however often. */
  ghost predicate SameElements(r: seq<int64>, s: seq<int64>) {
    forall x :: x in r <==> x in s
  }

  lemma AscendingCons(x: int64, s: seq<int64>)
    requires Ascending(s) && forall y :: y in s ==> x <= y
    ensures Ascending([x] + s)
  {
    forall i, j | 0 <= i < j < |s| + 1
      ensures ([x] + s)[i] <= ([x] + s)[j]
    {
      assert ([x] + s)[j] == s[j - 1] && s[j - 1] in s;
      assert i > 0 ==> ([x] + s)[i] == s[i - 1];
    }
  }

  lemma LeastFirst(s: seq<int64>)
    requires Ascending(s) && s != []
    ensures Ascending(s[1..]) && forall y :: y in s ==> s[0] <= y
  {
  }

  function Insert(x: int64, s: seq<int64>): (r: seq<int64>)
    requires Ascending(s)
    ensures Ascending(r) && SameElements(r, [x] + s)
  {
    hide Ascending;
    if s == [] then AscendingCons(x, s); [x] + s
    else
      LeastFirst(s);
      if x <= s[0] then AscendingCons(x, s); [x] + s
      else
        var rest := Insert(x, s[1..]);
        assert s == [s[0]] + s[1..];
        assert forall y :: y in rest ==> y == x || y in s;
        AscendingCons(s[0], rest);
        [s[0]] + rest
  }

  /** sort.Ints; what matters of it here is the order and the elements. */
  function SortInts(s: seq<int64>): (r: seq<int64>)
    ensures Ascending(r) && SameElements(r, s)
  {
    if s == [] then []
    else
      assert s == [s[0]] + s[1..];
      Insert(s[0], SortInts(s[1..]))
  }

  datatype Built = Classes(cs: seq<int64>) | Panic(bad: int64)

  /** `out` lists the elements of the ascending `s` once each. */
  ghost predicate Deduped(out: seq<int64>, s: seq<int64>) {
    Increasing(out) && Positive(out) && SameElements(out, s) && |out| <= |s| &&
    (s != [] ==> out != [] && out[|out| - 1] == s[|s| - 1])
  }

  lemma DedupeStep(out: seq<int64>, s: seq<int64>, c: int64)
    requires Deduped(out, s) && Ascending(s + [c]) && c > 0
    ensures Deduped(if s == [] || c != s[|s| - 1] then out + [c] else out, s + [c])
  {
    assert s != [] ==> (s + [c])[|s| - 1] <= (s + [c])[|s|];
    assert s == [] ==> out == [];
  }

  /**
   The classes NewBuffers works with: exactly the given ones, or the defaults when none is given,
   without repetition and in increasing order; a panic on the least one if it is not positive.
   The loop compacts the sorted array in place: what it still has to read, it has not overwritten.
   */
  method BuildClasses(given: seq<int64>) returns (r: Built)
    ensures var cs := if given == [] then DEFAULT_CLASSES else given;
      match r
      case Classes(out) => out != [] && Increasing(out) && Positive(out) && SameElements(out, cs)
      case Panic(bad) => bad <= 0 && bad in cs && forall x :: x in cs ==> bad <= x
  {
    hide Deduped, SortInts;
    var s := SortInts(if given == [] then DEFAULT_CLASSES else given);
    var a := new int64[|s|](i requires 0 <= i < |s| => s[i]);
    var k := 0;
    NothingDeduped();
    for i := 0 to a.Length
      invariant k <= i
      invariant forall j :: 0 <= j < a.Length && j >= i - 1 ==> a[j] == s[j]
      invariant Deduped(a[..k], s[..i])
    {
      var c := a[i];
      if c <= 0 {
        PanicsOnTheLeast(a[..k], s, i);
        return Panic(c);
      }
      assert s[..i + 1] == s[..i] + [c];
      DedupeStep(a[..k], s[..i], c);
      if i == 0 || c != a[i - 1] {
        ghost var before := a[..k];
        a[k] := c;
        assert a[..k + 1] == before + [c];
        k := k + 1;
      }
    }
    assert s[..|s|] == s;
    NotEmpty(s, given);
    DedupedClasses(a[..k], s);
    return Classes(a[..k]);
  }

  /** There is only one such list of classes. */
  lemma {:induction false} IncreasingUnique(a: seq<int64>, b: seq<int64>)
    requires Increasing(a) && Increasing(b) && SameElements(a, b)
    ensures a == b
    decreases |a|
  {
    assert b != [] ==> b[0] in b;
    if a != [] {
      assert a[0] in a;
      var n, m := |a| - 1, |b| - 1;
      assert a[n] in a && b[m] in b;
      assert a[n] == b[m];
      assert SameElements(a[..n], b[..m]) by {
        DropLast(a, b);
      }
      IncreasingUnique(a[..n], b[..m]);
    }
  }

  lemma DropLast(a: seq<int64>, b: seq<int64>)
    requires Increasing(a) && Increasing(b) && SameElements(a, b) && a != [] && b != []
    requires a[|a| - 1] == b[|b| - 1]
    ensures SameElements(a[..|a| - 1], b[..|b| - 1])
  {
    var n, m := |a| - 1, |b| - 1;
    assert forall x :: x in a[..n] <==> x in a && x != a[n];
    assert forall x :: x in b[..m] <==> x in b && x != b[m];
  }

  /** With no classes given, they are 256 bytes to 1 MiB in steps of four. */
  lemma DefaultClasses(out: seq<int64>)
    requires Increasing(out) && SameElements(out, DEFAULT_CLASSES)
    ensures out == [256, 1024, 4096, 16384, 65536, 262144, 1048576]
  {
    IncreasingUnique(out, [256, 1024, 4096, 16384, 65536, 262144, 1048576]);
  }

  lemma NotEmpty(s: seq<int64>, given: seq<int64>)
    requires SameElements(s, if given == [] then DEFAULT_CLASSES else given)
    ensures s != []
  {
    var cs := if given == [] then DEFAULT_CLASSES else given;
    assert cs[0] in cs;
  }

  lemma NothingDeduped()
    ensures Deduped([], [])
  {
  }

  lemma DedupedClasses(out: seq<int64>, s: seq<int64>)
    requires Deduped(out, s) && s != []
    ensures out != [] && Increasing(out) && Positive(out) && SameElements(out, s)
  {
  }

  lemma PanicsOnTheLeast(out: seq<int64>, s: seq<int64>, i: nat)
    requires i < |s| && Ascending(s) && Deduped(out, s[..i]) && s[i] <= 0
    ensures s[i] in s && forall x :: x in s ==> s[i] <= x
  {
  }

  /** sort.SearchInts: the first class of at least `n` bytes, or their number. */
  function Search(cs: seq<int>, n: int): (i: nat)
    ensures i <= |cs| && (forall j :: 0 <= j < i ==> cs[j] < n) && (i < |cs| ==> n <= cs[i])
  {
    if cs == [] || n <= cs[0] then 0 else 1 + Search(cs[1..], n)
  }

  /** The capacity Get promises: the least class that fits, or exactly `n` above the top. */
  ghost predicate RightCapacity(cs: seq<int>, n: nat, cap: nat) {
    if exists c :: c in cs && n <= c then cap in cs && n <= cap && forall c :: c in cs && n <= c ==> cap <= c
    else cap == n
  }

  lemma SearchIsRight(cs: seq<int>, n: nat)
    requires Increasing(cs)
    ensures RightCapacity(cs, n, if Search(cs, n) < |cs| then cs[Search(cs, n)] else n)
  {
    var i := Search(cs, n);
    assert i < |cs| ==> cs[i] in cs;
    forall c | c in cs && n <= c
      ensures i < |cs| && cs[i] <= c
    {
      var j :| 0 <= j < |cs| && cs[j] == c;
    }
  }

  lemma SearchFindsClasses(cs: seq<int>, c: int)
    requires Increasing(cs)
    ensures c in cs <==> Search(cs, c) < |cs| && cs[Search(cs, c)] == c
  {
    if c in cs {
      var j :| 0 <= j < |cs| && cs[j] == c;
      assert Search(cs, c) == j;
    }
  }

  // ---- every run -----------------------------------------------------------------

  /** A slice header: its backing array, length and capacity. */
  datatype Header<A> = Header(arr: A, len: nat, cap: nat)

  /**
   `H` are *[]byte pointers and `A` backing arrays. `gets`, `puts` (non-nil), `accepted` and
   `discarded` are history; the other numbers are the pool's own counters.
   */
  datatype State<H(==), A> = State(
    classes: seq<int>, pools: seq<set<H>>, held: set<H>, headers: map<H, Header<A>>,
    hits: seq<nat>, misses: seq<nat>, drops: seq<nat>, oversizeMiss: nat, oversizeDrop: nat,
    gets: nat, puts: nat, accepted: nat, discarded: nat)

  /**
   Get is a hit on the pointer sync.Pool picks, or a miss with a newly allocated one; sync.Pool
   may miss at any time and may discard what it holds. A caller may point a held header at the
   same array with any length and capacity, or at an array nobody else has.
   */
  datatype Step<H, A> =
    | Hit(n: nat, p: H)
    | Miss(n: nat, p: H, arr: A)
    | Put(p: H)
    | PutNil
    | Discard(i: nat, p: H)
    | Rewrite(p: H, h: Header<A>)

  function NewPool<H, A>(cs: seq<int>): State<H, A> {
    var zeros := seq(|cs|, _ => 0);
    State(cs, seq(|cs|, _ => {}), {}, map[], zeros, zeros, zeros, 0, 0, 0, 0, 0, 0)
  }

  ghost predicate Unused<H, A>(s: State<H, A>, arr: A) {
    forall q :: q in s.headers ==> s.headers[q].arr != arr
  }

  ghost predicate Shaped<H, A>(s: State<H, A>) {
    |s.classes| == |s.pools| == |s.hits| == |s.misses| == |s.drops| > 0 && s.held <= s.headers.Keys
  }

  ghost predicate Enabled<H, A>(s: State<H, A>, st: Step<H, A>) {
    Shaped(s) &&
    match st
    case Hit(n, p) => Search(s.classes, n) < |s.classes| && p in s.pools[Search(s.classes, n)] && p in s.headers
    case Miss(_, p, arr) => p !in s.headers && Unused(s, arr)
    case Put(p) => p in s.held
    case PutNil => true
    case Discard(i, p) => i < |s.pools| && p in s.pools[i]
    case Rewrite(p, h) =>
      p in s.held && h.len <= h.cap && (forall q :: q in s.headers && q != p ==> s.headers[q].arr != h.arr)
  }

  function Bump(counts: seq<nat>, i: nat): seq<nat>
    requires i < |counts|
  {
    counts[i := counts[i] + 1]
  }

  ghost function Apply<H, A>(s: State<H, A>, st: Step<H, A>): State<H, A>
    requires Enabled(s, st)
  {
    match st
    case Hit(n, p) =>
      var i := Search(s.classes, n);
      s.(pools := s.pools[i := s.pools[i] - {p}], held := s.held + {p},
         headers := s.headers[p := s.headers[p].(len := n)], hits := Bump(s.hits, i), gets := s.gets + 1)
    case Miss(n, p, arr) =>
      var i := Search(s.classes, n);
      var s1 := s.(held := s.held + {p}, gets := s.gets + 1,
                   headers := s.headers[p := Header(arr, n, if i < |s.classes| then s.classes[i] as nat else n)]);
      if i < |s.classes| then s1.(misses := Bump(s.misses, i)) else s1.(oversizeMiss := s.oversizeMiss + 1)
    case Put(p) =>
      var c := s.headers[p].cap;
      var i := Search(s.classes, c);
      var s1 := s.(held := s.held - {p}, puts := s.puts + 1);
      if i == |s.classes| then s1.(oversizeDrop := s.oversizeDrop + 1, headers := s.headers - {p})
      else if s.classes[i] != c then s1.(drops := Bump(s.drops, i), headers := s.headers - {p})
      else s1.(pools := s.pools[i := s.pools[i] + {p}], headers := s.headers[p := s.headers[p].(len := 0)],
               accepted := s.accepted + 1)
    case PutNil => s
    case Discard(i, p) =>
      s.(pools := s.pools[i := s.pools[i] - {p}], headers := s.headers - {p}, discarded := s.discarded + 1)
    case Rewrite(p, h) => s.(headers := s.headers[p := h])
  }

  function Sum(counts: seq<nat>): nat {
    if counts == [] then 0 else counts[0] + Sum(counts[1..])
  }

  function Pooled<H>(pools: seq<set<H>>): nat {
    if pools == [] then 0 else |pools[0]| + Pooled(pools[1..])
  }

  lemma {:induction false} SumUpdate(counts: seq<nat>, i: nat, x: nat)
    requires i < |counts|
    ensures Sum(counts[i := x]) == Sum(counts) - counts[i] + x
  {
    var t := counts[i := x];
    if i == 0 {
      assert t[1..] == counts[1..];
    } else {
      assert t[1..] == counts[1..][i - 1 := x];
      SumUpdate(counts[1..], i - 1, x);
    }
  }

  lemma {:induction false} PooledUpdate<H>(pools: seq<set<H>>, i: nat, x: set<H>)
    requires i < |pools|
    ensures Pooled(pools[i := x]) == Pooled(pools) - |pools[i]| + |x|
  {
    var t := pools[i := x];
    if i == 0 {
      assert t[1..] == pools[1..];
    } else {
      assert t[1..] == pools[1..][i - 1 := x];
      PooledUpdate(pools[1..], i - 1, x);
    }
  }

  lemma {:induction false} Zeros(n: nat)
    ensures Sum(seq(n, _ => 0)) == 0
  {
    if n > 0 {
      assert seq(n, _ => 0)[1..] == seq(n - 1, _ => 0);
      Zeros(n - 1);
    }
  }

  lemma {:induction false} NonePooled<H>(n: nat)
    ensures Pooled(seq<set<H>>(n, _ => {})) == 0
  {
    if n > 0 {
      assert seq<set<H>>(n, _ => {})[1..] == seq<set<H>>(n - 1, _ => {});
      NonePooled<H>(n - 1);
    }
  }

  /** Every pooled buffer is empty, of exactly its class's capacity, and nobody holds it. */
  ghost predicate PoolsExact<H, A>(s: State<H, A>)
    requires Shaped(s)
  {
    forall i, p :: 0 <= i < |s.pools| && p in s.pools[i] ==> Exact(s, i, p)
  }

  ghost predicate Exact<H, A>(s: State<H, A>, i: nat, p: H)
    requires i < |s.classes|
  {
    p in s.headers && p !in s.held && s.headers[p].cap == s.classes[i] && s.headers[p].len == 0
  }

  ghost predicate InSomePool<H, A>(s: State<H, A>, p: H) {
    exists i :: 0 <= i < |s.pools| && p in s.pools[i]
  }

  /** Every known buffer is held or pooled, and no two share a backing array. */
  ghost predicate Owned<H, A>(s: State<H, A>) {
    (forall p :: p in s.headers ==> p in s.held || InSomePool(s, p)) &&
    (forall p :: p in s.headers ==> s.headers[p].len <= s.headers[p].cap) &&
    (forall p, q :: p in s.headers && q in s.headers && p != q ==> s.headers[p].arr != s.headers[q].arr)
  }

  /** Every Get is a hit or a miss, every Put a drop or a return, every return still pooled, reused or discarded. */
  ghost predicate Conserved<H, A>(s: State<H, A>) {
    Sum(s.hits) + Sum(s.misses) + s.oversizeMiss == s.gets &&
    Sum(s.drops) + s.oversizeDrop + s.accepted == s.puts &&
    Sum(s.hits) + s.discarded + Pooled(s.pools) == s.accepted
  }

  ghost predicate Inv<H, A>(s: State<H, A>) {
    Shaped(s) && Increasing(s.classes) && Positive(s.classes) && PoolsExact(s) && Owned(s) && Conserved(s)
  }

  lemma NewPoolSatisfiesInv<H, A>(cs: seq<int>)
    requires cs != [] && Increasing(cs) && Positive(cs)
    ensures Inv(NewPool<H, A>(cs))
  {
    Zeros(|cs|);
    NonePooled<H>(|cs|);
  }

  /** A pointer in one pool is in no other: the classes differ. */
  lemma ExactOnce<H, A>(s: State<H, A>, i: nat, j: nat, p: H)
    requires Shaped(s) && Increasing(s.classes) && PoolsExact(s) && i < |s.pools| && j < |s.pools|
    requires p in s.pools[i] && i != j
    ensures p !in s.pools[j]
  {
    assert Exact(s, i, p);
    assert p in s.pools[j] ==> Exact(s, j, p);
  }

  lemma StepKeepsExact<H, A>(s: State<H, A>, st: Step<H, A>)
    requires Inv(s) && Enabled(s, st)
    ensures Shaped(Apply(s, st)) && PoolsExact(Apply(s, st))
  {
    hide Conserved, Sum, Pooled, Owned;
    var t := Apply(s, st);
    forall i, p | 0 <= i < |t.pools| && p in t.pools[i]
      ensures Exact(t, i, p)
    {
      if p in s.pools[i] {
        assert Exact(s, i, p);
        match st
        case Hit(n, q) =>
          if i != Search(s.classes, n) {
            ExactOnce(s, Search(s.classes, n), i, q);
          }
        case Discard(k, q) =>
          if i != k {
            ExactOnce(s, k, i, q);
          }
        case _ =>
      }
    }
  }

  lemma StepKeepsOwned<H, A>(s: State<H, A>, st: Step<H, A>)
    requires Inv(s) && Enabled(s, st)
    ensures Owned(Apply(s, st))
  {
    hide Inv, Enabled, Apply, InSomePool;
    StepKeepsPlaced(s, st);
    StepKeepsLengths(s, st);
    StepKeepsApart(s, st);
  }

  lemma StepKeepsApart<H, A>(s: State<H, A>, st: Step<H, A>)
    requires Inv(s) && Enabled(s, st)
    ensures var t := Apply(s, st);
      forall p, q :: p in t.headers && q in t.headers && p != q ==> t.headers[p].arr != t.headers[q].arr
  {
    hide Conserved, InSomePool, PoolsExact, Search, Positive, Increasing;
    var t := Apply(s, st);
    forall p, q | p in t.headers && q in t.headers && p != q
      ensures t.headers[p].arr != t.headers[q].arr
    {
      assert p in s.headers && q in s.headers ==> s.headers[p].arr != s.headers[q].arr;
    }
  }

  lemma StepKeepsLengths<H, A>(s: State<H, A>, st: Step<H, A>)
    requires Inv(s) && Enabled(s, st)
    ensures var t := Apply(s, st); forall p :: p in t.headers ==> t.headers[p].len <= t.headers[p].cap
  {
    hide Conserved, InSomePool, PoolsExact, Search, Positive, Increasing;
    if st.Hit? || st.Miss? {
      LengthFits(s, st);
    }
  }

  lemma LengthFits<H, A>(s: State<H, A>, st: Step<H, A>)
    requires Inv(s) && Enabled(s, st) && (st.Hit? || st.Miss?)
    ensures Apply(s, st).headers[st.p].len <= Apply(s, st).headers[st.p].cap
  {
    hide Conserved, Sum, Pooled, Owned;
    if st.Hit? {
      assert Exact(s, Search(s.classes, st.n), st.p);
    }
  }

  lemma StepKeepsPlaced<H, A>(s: State<H, A>, st: Step<H, A>)
    requires Inv(s) && Enabled(s, st)
    ensures var t := Apply(s, st); forall p :: p in t.headers ==> p in t.held || InSomePool(t, p)
  {
    hide Conserved, Sum, Pooled, PoolsExact, Positive, Increasing;
    var t := Apply(s, st);
    forall p | p in t.headers && p !in t.held
      ensures InSomePool(t, p)
    {
      if p in s.headers && InSomePool(s, p) {
        var i :| 0 <= i < |s.pools| && p in s.pools[i];
        assert p in t.pools[i];
      } else {
        assert p in t.pools[Search(s.classes, s.headers[p].cap)];
      }
    }
  }

  lemma HeldIsNotPooled<H, A>(s: State<H, A>, p: H, i: nat)
    requires Shaped(s) && PoolsExact(s) && p in s.held && i < |s.pools|
    ensures p !in s.pools[i]
  {
    assert p in s.pools[i] ==> Exact(s, i, p);
  }

  lemma HitConserves<H, A>(s: State<H, A>, n: nat, p: H)
    requires Conserved(s) && Enabled(s, Hit(n, p))
    ensures Conserved(Apply(s, Hit(n, p)))
  {
    hide Sum, Pooled, Search;
    var i := Search(s.classes, n);
    SumUpdate(s.hits, i, s.hits[i] + 1);
    PooledUpdate(s.pools, i, s.pools[i] - {p});
  }

  lemma MissConserves<H, A>(s: State<H, A>, n: nat, p: H, arr: A)
    requires Conserved(s) && Enabled(s, Miss(n, p, arr))
    ensures Conserved(Apply(s, Miss(n, p, arr)))
  {
    hide Sum, Pooled;
    var i := Search(s.classes, n);
    if i < |s.classes| {
      SumUpdate(s.misses, i, s.misses[i] + 1);
    }
  }

  lemma PutConserves<H, A>(s: State<H, A>, p: H)
    requires Conserved(s) && Shaped(s) && PoolsExact(s) && Enabled(s, Put(p))
    ensures Conserved(Apply(s, Put(p)))
  {
    hide Sum, Pooled, PoolsExact;
    var i := Search(s.classes, s.headers[p].cap);
    if i < |s.classes| {
      if s.classes[i] != s.headers[p].cap {
        SumUpdate(s.drops, i, s.drops[i] + 1);
      } else {
        HeldIsNotPooled(s, p, i);
        PooledUpdate(s.pools, i, s.pools[i] + {p});
      }
    }
  }

  lemma StepConserves<H, A>(s: State<H, A>, st: Step<H, A>)
    requires Inv(s) && Enabled(s, st)
    ensures Conserved(Apply(s, st))
  {
    hide Sum, Pooled, Owned, PoolsExact, Increasing, Positive, Search;
    match st
    case Hit(n, p) => HitConserves(s, n, p);
    case Miss(n, p, arr) => MissConserves(s, n, p, arr);
    case Put(p) => PutConserves(s, p);
    case Discard(i, p) => PooledUpdate(s.pools, i, s.pools[i] - {p});
    case _ =>
  }

  lemma StepKeepsInv<H, A>(s: State<H, A>, st: Step<H, A>)
    requires Inv(s) && Enabled(s, st)
    ensures Inv(Apply(s, st))
  {
    StepKeepsExact(s, st);
    StepKeepsOwned(s, st);
    StepConserves(s, st);
  }

  ghost predicate Run<H, A>(ss: seq<State<H, A>>, sts: seq<Step<H, A>>, cs: seq<int>) {
    |ss| == |sts| + 1 && ss[0] == NewPool(cs) && cs != [] && Increasing(cs) && Positive(cs) &&
    forall i :: 0 <= i < |sts| ==> Enabled(ss[i], sts[i]) && ss[i + 1] == Apply(ss[i], sts[i])
  }

  lemma {:induction false} RunKeepsInv<H, A>(ss: seq<State<H, A>>, sts: seq<Step<H, A>>, cs: seq<int>, n: nat)
    requires Run(ss, sts, cs) && n < |ss|
    ensures Inv(ss[n]) && ss[n].classes == cs
    decreases n
  {
    if n == 0 {
      NewPoolSatisfiesInv<H, A>(cs);
    } else {
      RunKeepsInv(ss, sts, cs, n - 1);
      assert Enabled(ss[n - 1], sts[n - 1]) && ss[n] == Apply(ss[n - 1], sts[n - 1]);
      StepKeepsInv(ss[n - 1], sts[n - 1]);
    }
  }

  /**
   At every moment of every run: pooled buffers are of exact capacity, no pointer and no backing
   array is both held and pooled, held twice or pooled twice, and the counters account for every call.
   */
  lemma PoolSafety<H, A>(ss: seq<State<H, A>>, sts: seq<Step<H, A>>, cs: seq<int>, n: nat)
    requires Run(ss, sts, cs) && n < |ss|
    ensures var s := ss[n]; Shaped(s) && PoolsExact(s) && Conserved(s)
    ensures var s := ss[n]; forall i, j, p :: 0 <= i < j < |s.pools| && p in s.pools[i] ==> p !in s.pools[j]
    ensures var s := ss[n]; forall p, q :: p in s.held && (q in s.held || InSomePool(s, q)) && p != q ==>
      s.headers[p].arr != s.headers[q].arr
    ensures var s := ss[n]; forall p, q :: InSomePool(s, p) && InSomePool(s, q) && p != q ==>
      s.headers[p].arr != s.headers[q].arr
  {
    hide Conserved, Enabled;
    RunKeepsInv(ss, sts, cs, n);
    var s := ss[n];
    forall i, j, p | 0 <= i < j < |s.pools| && p in s.pools[i]
      ensures p !in s.pools[j]
    {
      ExactOnce(s, i, j, p);
    }
    assert forall i, p :: 0 <= i < |s.pools| && p in s.pools[i] ==> Exact(s, i, p);
    assert forall p :: InSomePool(s, p) ==> p in s.headers && p !in s.held;
  }

  /** What a Get hands out in any run: length `n`, the right capacity, and nobody else's array. */
  lemma GetHandsOut<H, A>(ss: seq<State<H, A>>, sts: seq<Step<H, A>>, cs: seq<int>, n: nat)
    requires Run(ss, sts, cs) && n < |sts| && (sts[n].Hit? || sts[n].Miss?)
    ensures var (s, t, p) := (ss[n], ss[n + 1], sts[n].p);
      && p !in s.held && t.held == s.held + {p} && t.headers[p].len == sts[n].n
      && RightCapacity(cs, sts[n].n, t.headers[p].cap)
      && forall q :: q in s.held ==> t.headers[q] == s.headers[q] && t.headers[p].arr != s.headers[q].arr
  {
    hide Conserved, Sum, Pooled, RightCapacity;
    RunKeepsInv(ss, sts, cs, n);
    RunKeepsInv(ss, sts, cs, n + 1);
    assert Enabled(ss[n], sts[n]) && ss[n + 1] == Apply(ss[n], sts[n]);
    SearchIsRight(cs, sts[n].n);
  }

  /** A Put is accepted exactly when the capacity is a class; otherwise one drop is counted. */
  lemma PutAccepts<H, A>(s: State<H, A>, p: H)
    requires Inv(s) && Enabled(s, Put(p))
    ensures var t := Apply(s, Put(p));
      && p !in t.held && (InSomePool(t, p) <==> s.headers[p].cap in s.classes)
      && t.accepted - s.accepted == (if s.headers[p].cap in s.classes then 1 else 0)
      && Sum(t.drops) + t.oversizeDrop - Sum(s.drops) - s.oversizeDrop ==
           (if s.headers[p].cap in s.classes then 0 else 1)
      && (t.oversizeDrop > s.oversizeDrop <==> forall c :: c in s.classes ==> c < s.headers[p].cap)
  {
    hide Sum, Pooled;
    var t := Apply(s, Put(p));
    var c := s.headers[p].cap;
    var i := Search(s.classes, c);
    SearchFindsClasses(s.classes, c);
    StepConserves(s, Put(p));
    if c in s.classes {
      assert p in t.pools[i];
    }
    if i < |s.classes| {
      assert s.classes[i] in s.classes;
    }
  }

  /** Class `i` is the least that holds `n` bytes. */
  predicate Serves(cs: seq<int>, n: nat, i: nat) {
    i < |cs| && n <= cs[i] && forall j :: 0 <= j < i ==> cs[j] < n
  }

  /** One counter of one class goes up by one, or none does. */
  predicate CountsAt(after: seq<nat>, before: seq<nat>, cs: seq<int>, n: nat, counted: bool) {
    |after| == |before| == |cs| &&
    forall i :: 0 <= i < |cs| ==> after[i] == before[i] + if counted && Serves(cs, n, i) then 1 else 0
  }

  /**
   Which counter each call moves: a hit or a miss that of the least class that fits, a drop that of
   the least class above the capacity; what no class holds is counted as oversize.
   */
  lemma CountersMean<H, A>(s: State<H, A>, st: Step<H, A>)
    requires Inv(s) && Enabled(s, st)
    ensures var t := Apply(s, st);
      var n := match st case Hit(n, _) => n case Miss(n, _, _) => n case Put(p) => s.headers[p].cap case _ => 0;
      var over := forall c :: c in s.classes ==> c < n;
      && CountsAt(t.hits, s.hits, s.classes, n, st.Hit?)
      && CountsAt(t.misses, s.misses, s.classes, n, st.Miss?)
      && CountsAt(t.drops, s.drops, s.classes, n, st.Put? && n !in s.classes)
      && t.oversizeMiss == s.oversizeMiss + (if st.Miss? && over then 1 else 0)
      && t.oversizeDrop == s.oversizeDrop + (if st.Put? && over then 1 else 0)
  {
    hide Owned, PoolsExact, Conserved, Search, CountsAt, Positive;
    var n := match st case Hit(n, _) => n case Miss(n, _, _) => n case Put(p) => s.headers[p].cap case _ => 0;
    ServesSearch(s.classes, n);
    SearchFindsClasses(s.classes, n);
    Bumped(s.hits, s.classes, n);
    Bumped(s.misses, s.classes, n);
    Bumped(s.drops, s.classes, n);
  }

  lemma Bumped(counts: seq<nat>, cs: seq<int>, n: nat)
    requires Increasing(cs) && |counts| == |cs|
    ensures CountsAt(counts, counts, cs, n, false)
    ensures if Search(cs, n) < |cs| then CountsAt(Bump(counts, Search(cs, n)), counts, cs, n, true)
            else CountsAt(counts, counts, cs, n, true)
  {
    hide Search;
    ServesSearch(cs, n);
  }

  lemma ServesSearch(cs: seq<int>, n: nat)
    requires Increasing(cs)
    ensures forall i :: 0 <= i ==> (Serves(cs, n, i) <==> i == Search(cs, n) < |cs|)
    ensures Search(cs, n) <= |cs| && (Search(cs, n) == |cs| <==> forall c :: c in cs ==> c < n)
  {
    var k := Search(cs, n);
    if k < |cs| {
      assert cs[k] in cs;
    }
  }

  // ---- the object ----------------------------------------------------------------

  /** A *[]byte whose slice starts at the beginning of its backing array. */
  class SliceRef {
    var data: array<byte>
    var len: nat

    constructor (data: array<byte>, len: nat)
      ensures this.data == data && this.len == len
    {
      this.data, this.len := data, len;
    }
  }

  datatype ClassStat = ClassStat(size: int, hits: nat, misses: nat, drops: nat)

  class Buffers {
    const classes: seq<int64>
    var pools: seq<set<SliceRef>>
    var hits: seq<nat>
    var misses: seq<nat>
    var drops: seq<nat>
    var oversizeMiss: nat
    var oversizeDrop: nat
    ghost var held: set<SliceRef>
    ghost var known: set<SliceRef>
    ghost var gets: nat
    ghost var puts: nat
    ghost var accepted: nat
    ghost var discarded: nat

    ghost function View(): State<SliceRef, array<byte>>
      reads this, known
    {
      State(classes, pools, held, map p | p in known :: Header(p.data, p.len, p.data.Length),
            hits, misses, drops, oversizeMiss, oversizeDrop, gets, puts, accepted, discarded)
    }

    constructor (classes: seq<int64>)
      requires classes != [] && Increasing(classes) && Positive(classes)
      ensures this.classes == classes && View() == NewPool(classes) && Inv(View())
    {
      NewPoolSatisfiesInv<SliceRef, array<byte>>(classes);
      this.classes := classes;
      pools := seq(|classes|, _ => {});
      hits, misses, drops := seq(|classes|, _ => 0), seq(|classes|, _ => 0), seq(|classes|, _ => 0);
      oversizeMiss, oversizeDrop := 0, 0;
      held, known, gets, puts, accepted, discarded := {}, {}, 0, 0, 0, 0;
    }

    /** `pick` is what the class's sync.Pool answers. */
    method Get(n: nat, pick: Option<SliceRef>) returns (p: SliceRef)
      requires Inv(View())
      requires pick.Some? ==> Search(classes, n) < |classes| && pick.value in pools[Search(classes, n)]
      modifies this, if pick.Some? then {pick.value} else {}
      ensures (pick == Some(p) && p.data == old(pick.value.data)) || (pick.None? && fresh(p) && fresh(p.data))
      ensures var st := if pick.Some? then Hit(n, p) else Miss(n, p, p.data);
        Enabled(old(View()), st) && View() == Apply(old(View()), st)
      ensures Inv(View()) && p in held && p.len == n && RightCapacity(classes, n, p.data.Length)
    {
      hide Inv, RightCapacity, Search, Enabled, Apply;
      ghost var s := View();
      AtGet(s, n);
      var i := Search(classes, n);
      if pick.Some? {
        p := pick.value;
        Reuse(n, i, p);
      } else {
        p := Allocate(n, i);
      }
    }

    /** A hit: a pooled buffer resliced to `n` bytes. */
    method Reuse(n: nat, i: nat, p: SliceRef)
      requires Inv(View()) && i == Search(classes, n) < |pools| && p in pools[i]
      modifies this`pools, this`hits, this`held, this`gets, p`len
      ensures p.len == n && p in held && i < |classes| && p.data.Length == classes[i]
      ensures Enabled(old(View()), Hit(n, p)) && View() == Apply(old(View()), Hit(n, p)) && Inv(View())
    {
      hide Inv, Search, Enabled, Apply;
      ghost var s := View();
      AtGet(s, n);
      hits := hits[i := hits[i] + 1];
      pools := pools[i := pools[i] - {p}];
      p.len := n;
      held, gets := held + {p}, gets + 1;
      assert View().headers == s.headers[p := s.headers[p].(len := n)];
      AtHit(s, n, p, View());
    }

    /** A miss: a new buffer of the class's capacity, or of exactly `n` bytes above the top. */
    method Allocate(n: nat, i: nat) returns (p: SliceRef)
      requires Inv(View()) && i == Search(classes, n)
      modifies this`misses, this`oversizeMiss, this`held, this`known, this`gets
      ensures fresh(p) && fresh(p.data) && p.len == n && p in held
      ensures p.data.Length == if i < |classes| then classes[i] else n
      ensures Enabled(old(View()), Miss(n, p, p.data))
      ensures View() == Apply(old(View()), Miss(n, p, p.data)) && Inv(View())
    {
      hide Inv, Search, Enabled, Apply;
      ghost var s := View();
      AtGet(s, n);
      p := Make(n, if i == |classes| then n else classes[i]);
      if i == |classes| {
        oversizeMiss := oversizeMiss + 1;
      } else {
        misses := misses[i := misses[i] + 1];
      }
      AtMiss(s, n, p, p.data, View());
    }

    /** make([]byte, n, cap). */
    method Make(n: nat, cap: nat) returns (p: SliceRef)
      modifies this`held, this`known, this`gets
      ensures fresh(p) && fresh(p.data) && p.len == n && p.data.Length == cap
      ensures View() ==
        old(View()).(held := held, gets := gets, headers := old(View()).headers[p := Header(p.data, n, cap)])
      ensures held == old(held) + {p} && gets == old(gets) + 1 && known == old(known) + {p}
    {
      var data := new byte[cap];
      p := new SliceRef(data, n);
      held, known, gets := held + {p}, known + {p}, gets + 1;
    }

    /** `None` is the nil pointer. */
    method Put(returned: Option<SliceRef>)
      requires Inv(View()) && (returned.Some? ==> returned.value in held)
      modifies this, if returned.Some? then {returned.value} else {}
      ensures Inv(View())
      ensures View() == Apply(old(View()), if returned.None? then PutNil else Step.Put(returned.value))
    {
      hide Inv, Search, Enabled, Apply;
      ghost var s := View();
      if returned.None? {
        AtPutNil(s);
        return;
      }
      var p := returned.value;
      var c := p.data.Length;
      var i := Search(classes, c);
      AtPut(s, p);
      if i == |classes| || classes[i] != c {
        Drop(i, p);
      } else {
        Accept(i, p);
      }
    }

    /** Not exactly a class: counted against the next class up, or as oversize, and forgotten. */
    method Drop(i: nat, p: SliceRef)
      requires Inv(View()) && p in held && i == Search(classes, p.data.Length)
      requires i < |classes| ==> classes[i] != p.data.Length
      modifies this`drops, this`oversizeDrop, this`held, this`known, this`puts
      ensures View() == Apply(old(View()), Step.Put(p)) && Inv(View())
    {
      hide Inv, Search, Enabled, Apply;
      ghost var s := View();
      AtPut(s, p);
      var c := p.data.Length;
      if c > 0 && c > classes[|classes| - 1] {
        oversizeDrop := oversizeDrop + 1;
      } else {
        drops := drops[i := drops[i] + 1];
      }
      held, known, puts := held - {p}, known - {p}, puts + 1;
      assert View().headers == s.headers - {p};
      AtDrop(s, p, View());
    }

    /** Exactly a class: emptied and pooled. */
    method Accept(i: nat, p: SliceRef)
      requires Inv(View()) && p in held
      requires i == Search(classes, p.data.Length) < |classes| && classes[i] == p.data.Length
      modifies this`pools, this`held, this`puts, this`accepted, p`len
      ensures View() == Apply(old(View()), Step.Put(p)) && Inv(View())
    {
      hide Inv, Search, Enabled, Apply;
      ghost var s := View();
      AtPut(s, p);
      p.len := 0;
      pools := pools[i := pools[i] + {p}];
      held, puts, accepted := held - {p}, puts + 1, accepted + 1;
      assert View().headers == s.headers[p := s.headers[p].(len := 0)];
      AtReturn(s, p, View());
    }

    /** The collector may empty a sync.Pool at any time. */
    method Discard(i: nat, p: SliceRef)
      requires Inv(View()) && i < |pools| && p in pools[i]
      modifies this
      ensures Inv(View()) && View() == Apply(old(View()), Step.Discard(i, p))
    {
      hide Conserved, Owned, Sum, Pooled;
      ghost var s := View();
      StepKeepsInv(s, Step.Discard(i, p));
      known := known - {p};
      pools := pools[i := pools[i] - {p}];
      discarded := discarded + 1;
      assert View().headers == Apply(s, Step.Discard(i, p)).headers;
    }

    /** Stats totals: every Get is a hit or a miss; every non-nil Put that was not accepted is a drop. */
    method Stats() returns (hit: nat, miss: nat, drop: nat, perClass: seq<ClassStat>)
      requires Inv(View())
      ensures hit + miss == gets && drop + accepted == puts && hit <= accepted
      ensures hit == Sum(hits) && miss == Sum(misses) + oversizeMiss && drop == Sum(drops) + oversizeDrop
      ensures |perClass| == |classes|
      ensures forall i :: 0 <= i < |classes| ==> perClass[i] == ClassStat(classes[i], hits[i], misses[i], drops[i])
    {
      hide PoolsExact, Owned, Pooled;
      hit, miss, drop, perClass := 0, 0, 0, [];
      for i := 0 to |classes|
        invariant hit + Sum(hits[i..]) == Sum(hits)
        invariant miss + Sum(misses[i..]) == Sum(misses)
        invariant drop + Sum(drops[i..]) == Sum(drops)
        invariant |perClass| == i
        invariant forall j :: 0 <= j < i ==> perClass[j] == ClassStat(classes[j], hits[j], misses[j], drops[j])
      {
        perClass := perClass + [ClassStat(classes[i], hits[i], misses[i], drops[i])];
        hit, miss, drop := hit + hits[i], miss + misses[i], drop + drops[i];
        assert hits[i..][1..] == hits[i + 1..] && misses[i..][1..] == misses[i + 1..];
        assert drops[i..][1..] == drops[i + 1..];
      }
      miss := miss + oversizeMiss;
      drop := drop + oversizeDrop;
    }
  }

  lemma AtGet<H, A>(s: State<H, A>, n: nat)
    requires Inv(s)
    ensures Shaped(s) && Search(s.classes, n) <= |s.classes|
    ensures var i := Search(s.classes, n);
      (i < |s.classes| ==> s.classes[i] >= n && s.pools[i] <= s.headers.Keys) &&
      RightCapacity(s.classes, n, if i < |s.classes| then s.classes[i] else n)
  {
    SearchIsRight(s.classes, n);
  }

  lemma AtHit<H, A>(s: State<H, A>, n: nat, p: H, t: State<H, A>)
    requires var i := Search(s.classes, n);
      && Inv(s) && i < |s.classes| == |s.pools| == |s.hits| && p in s.pools[i] && p in s.headers
      && t == s.(pools := s.pools[i := s.pools[i] - {p}], held := s.held + {p}, gets := s.gets + 1,
                 headers := s.headers[p := s.headers[p].(len := n)], hits := Bump(s.hits, i))
    ensures Enabled(s, Hit(n, p)) && t == Apply(s, Hit(n, p)) && Inv(t)
    ensures t.headers[p].cap == s.classes[Search(s.classes, n)]
  {
    assert Exact(s, Search(s.classes, n), p);
    StepKeepsInv(s, Hit(n, p));
  }

  lemma AtMiss<H, A>(s: State<H, A>, n: nat, p: H, arr: A, t: State<H, A>)
    requires Inv(s) && p !in s.headers && Unused(s, arr)
    requires var i := Search(s.classes, n);
      if i < |s.classes| then
        |s.misses| == |s.classes| && s.classes[i] >= 0 && t ==
          s.(held := s.held + {p}, gets := s.gets + 1, misses := Bump(s.misses, i),
             headers := s.headers[p := Header(arr, n, s.classes[i])])
      else t == s.(held := s.held + {p}, gets := s.gets + 1, oversizeMiss := s.oversizeMiss + 1,
                   headers := s.headers[p := Header(arr, n, n)])
    ensures Enabled(s, Miss(n, p, arr)) && t == Apply(s, Miss(n, p, arr)) && Inv(t)
  {
    StepKeepsInv(s, Miss(n, p, arr));
  }

  lemma AtPutNil<H, A>(s: State<H, A>)
    requires Inv(s)
    ensures Enabled(s, PutNil) && Apply(s, PutNil) == s
  {
  }

  lemma AtPut<H, A>(s: State<H, A>, p: H)
    requires Inv(s) && p in s.held
    ensures Shaped(s) && Enabled(s, Put(p))
    ensures Search(s.classes, s.headers[p].cap) <= |s.classes| && s.classes[|s.classes| - 1] > 0
    ensures Search(s.classes, s.headers[p].cap) == |s.classes| <==> s.headers[p].cap > s.classes[|s.classes| - 1]
  {
  }

  lemma AtDrop<H, A>(s: State<H, A>, p: H, t: State<H, A>)
    requires Inv(s) && Shaped(s) && p in s.held
    requires var i := Search(s.classes, s.headers[p].cap);
      if i == |s.classes| then
        t == s.(held := s.held - {p}, puts := s.puts + 1, headers := s.headers - {p},
                oversizeDrop := s.oversizeDrop + 1)
      else
        s.classes[i] != s.headers[p].cap &&
        t == s.(held := s.held - {p}, puts := s.puts + 1, headers := s.headers - {p}, drops := Bump(s.drops, i))
    ensures Enabled(s, Put(p)) && t == Apply(s, Put(p)) && Inv(t)
  {
    StepKeepsInv(s, Put(p));
  }

  lemma AtReturn<H, A>(s: State<H, A>, p: H, t: State<H, A>)
    requires Inv(s) && Shaped(s) && p in s.held
    requires var i := Search(s.classes, s.headers[p].cap);
      && i < |s.classes| && s.classes[i] == s.headers[p].cap
      && t == s.(held := s.held - {p}, puts := s.puts + 1, accepted := s.accepted + 1,
                 pools := s.pools[i := s.pools[i] + {p}], headers := s.headers[p := s.headers[p].(len := 0)])
    ensures Enabled(s, Put(p)) && t == Apply(s, Put(p)) && Inv(t)
  {
    StepKeepsInv(s, Put(p));
  }

  /** `None` is the panic on a non-positive class. */
  method NewBuffers(given: seq<int64>) returns (r: Option<Buffers>)
    ensures var cs := if given == [] then DEFAULT_CLASSES else given;
      && (r.None? <==> exists c :: c in cs && c <= 0)
      && (r.Some? ==> fresh(r.value) && SameElements(r.value.classes, cs) &&
                      r.value.View() == NewPool(r.value.classes) && Inv(r.value.View()))
  {
    hide Inv, NewPool;
    var b := BuildClasses(given);
    if b.Panic? {
      return None;
    }
    assert forall c :: c in b.cs ==> c > 0;
    var pool := new Buffers(b.cs);
    return Some(pool);
  }

  // ---- codec.Encode --------------------------------------------------------------

  /** What codec.VT is asked to encode; a message without the generated methods only has a proto.Size. */
  datatype Payload = Generated(schema: Schema, m: Msg) | Foreign(size: nat)

  ghost predicate Encodable(x: Payload) {
    x.Generated? ==> WellTyped(x.schema, x.m)
  }

  /** The length of the encoding; it does not depend on the order maps are visited in. */
  ghost function HintOf(ord: Order, x: Payload): nat
    requires ValidOrder(ord) && Encodable(x)
  {
    if x.Foreign? then x.size else |Encoding.Encode(ord, [], x.schema, x.m)|
  }

  /**
   Encode with the VT codec. The buffer SizeHint asks for is the one returned: MarshalAppend never
   grows it, so its capacity is still a class and its Put will be accepted unless the encoding is
   above the top class. On an error the buffer goes straight back.
   */
  method EncodeVT(bp: Buffers, hinting: Order, sizing: Order, writing: Order, x: Payload, pick: Option<SliceRef>)
      returns (r: Option<SliceRef>)
    requires Inv(bp.View()) && Encodable(x) && ValidOrder(hinting) && ValidOrder(sizing) && ValidOrder(writing)
    requires HintOf(writing, x) < TWO63
    requires pick.Some? ==>
      var i := Search(bp.classes, HintOf(writing, x)); i < |bp.classes| && pick.value in bp.pools[i]
    modifies bp, if pick.Some? then {pick.value, pick.value.data} else {}
    ensures Inv(bp.View()) && bp.gets == old(bp.gets) + 1
    ensures r.None? <==> x.Foreign?
    ensures r.None? ==> bp.held == old(bp.held) && bp.puts == old(bp.puts) + 1
    ensures r.Some? ==>
      && bp.held == old(bp.held) + {r.value} && r.value !in old(bp.held) && bp.puts == old(bp.puts)
      && r.value.len <= r.value.data.Length
      && r.value.data[..r.value.len] == Encoding.Encode(writing, [], x.schema, x.m)
      && RightCapacity(bp.classes, r.value.len, r.value.data.Length)
    ensures pick.Some? && r.Some? ==> r == pick && r.value.data == old(pick.value.data)
  {
    hide Inv, RightCapacity, Search, Encoding.Encode, WellTyped, Apply, Enabled;
    var hint;
    if x.Generated? {
      hint := Marshal.SizeVT(hinting, [], x.schema, x.m);
      LengthIsOneNumber(hinting, writing, x.schema, x.m);
    } else {
      hint := x.size;
    }
    ghost var s := bp.View();
    var buf := bp.Get(hint, pick);
    ghost var t := bp.View();
    AfterGet(s, if pick.Some? then Hit(hint, buf) else Miss(hint, buf, buf.data), t);
    if x.Foreign? {
      bp.Put(Some(buf));
      AtPut(t, buf);
      AfterPut(t, buf, bp.View());
      return None;
    }
    CapacityIsInt64(bp.classes, hint, buf.data.Length);
    MarshalInto(sizing, writing, buf, x.schema, x.m);
    assert buf.len == hint && bp.View() == t;
    return Some(buf);
  }

  /** MarshalAppend into the empty slice of a buffer with room, assigned back to the buffer. */
  method MarshalInto(sizing: Order, writing: Order, buf: SliceRef, schema: Schema, m: Msg)
    requires ValidOrder(sizing) && ValidOrder(writing) && WellTyped(schema, m)
    requires |Encoding.Encode(writing, [], schema, m)| <= buf.data.Length < TWO63
    modifies buf, buf.data
    ensures buf.data == old(buf.data) && buf.len == |Encoding.Encode(writing, [], schema, m)| <= buf.data.Length
    ensures buf.data[..buf.len] == Encoding.Encode(writing, [], schema, m)
  {
    hide Encoding.Encode, WellTyped;
    var dst := Marshal.Slice(buf.data, 0);
    var out := Marshal.MarshalAppend(sizing, writing, dst, schema, m);
    buf.data, buf.len := out.data, out.len;
  }

  lemma LengthIsOneNumber(a: Order, b: Order, schema: Schema, m: Msg)
    requires ValidOrder(a) && ValidOrder(b) && WellTyped(schema, m)
    ensures |Encoding.Encode(a, [], schema, m)| == |Encoding.Encode(b, [], schema, m)|
  {
    Marshal.LengthIsOrderFree(a, b, [], schema, m, 0);
    Marshal.EncodeIsFrom(a, [], schema, m);
    Marshal.EncodeIsFrom(b, [], schema, m);
  }

  lemma AfterGet<H, A>(s: State<H, A>, st: Step<H, A>, t: State<H, A>)
    requires Inv(s) && Enabled(s, st) && (st.Hit? || st.Miss?) && t == Apply(s, st)
    ensures t.held == s.held + {st.p} && st.p !in s.held && t.gets == s.gets + 1 && t.puts == s.puts
    ensures st.p in t.headers && t.headers[st.p].len <= t.headers[st.p].cap
  {
    hide Conserved, Owned;
    if st.Hit? {
      assert Exact(s, Search(s.classes, st.n), st.p);
    }
  }

  lemma AfterPut<H, A>(s: State<H, A>, p: H, t: State<H, A>)
    requires Inv(s) && p in s.held && Enabled(s, Put(p)) && t == Apply(s, Put(p))
    ensures t.held == s.held - {p} && t.gets == s.gets && t.puts == s.puts + 1
  {
    hide Inv, Search;
  }

  lemma CapacityIsInt64(cs: seq<int64>, n: nat, cap: nat)
    requires RightCapacity(cs, n, cap) && n < TWO63
    ensures n <= cap < TWO63
  {
    if cap in cs {
      var i :| 0 <= i < |cs| && cs[i] == cap;
    }
  }
}
