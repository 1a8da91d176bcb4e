/** What the heap of the best-fit allocator is, independently of how it is linked: a sequence
    of chunks measured in 32-byte units, and the set of blocks that are live in it. */
module Chunks {
  import opened Base
  import opened Bits

  datatype Chunk = Chunk(start: nat, size: nat, free: bool) {
    function End(): nat { start + size }
  }

  /** A live block: a chunk in use, as its owner sees it. */
  datatype Block = Block(start: nat, size: nat)

  /** cs tiles [lo, hi) with chunks of positive size, and no two adjacent chunks are free. */
  ghost predicate Tiling(cs: seq<Chunk>, lo: nat, hi: nat) {
    && (cs == [] ==> lo == hi)
    && (cs != [] ==> cs[0].start == lo && cs[|cs| - 1].End() == hi)
    && (forall i :: 0 <= i < |cs| ==> cs[i].size > 0)
    && (forall i, j :: 0 <= i && j == i + 1 && j < |cs| ==>
          cs[i].End() == cs[j].start && !(cs[i].free && cs[j].free))
  }

  /** Every chunk in use starts on a page boundary (a page is `page` units). */
  ghost predicate Aligned(cs: seq<Chunk>, page: nat)
    requires page > 0
  {
    forall i :: 0 <= i < |cs| && !cs[i].free ==> cs[i].start % page == 0
  }

  ghost predicate Canonical(cs: seq<Chunk>, lo: nat, hi: nat, page: nat)
    requires page > 0
  {
    Tiling(cs, lo, hi) && Aligned(cs, page)
  }

  function Inserted<T>(ns: seq<T>, k: nat, x: T): seq<T>
    requires k <= |ns|
  {
    ns[..k] + [x] + ns[k..]
  }

  function Removed<T>(ns: seq<T>, k: nat): seq<T>
    requires k < |ns|
  {
    ns[..k] + ns[k + 1..]
  }

  function BlockOf(c: Chunk): set<Block> {
    if c.free then {} else {Block(c.start, c.size)}
  }

  function Live(cs: seq<Chunk>): set<Block> {
    if cs == [] then {} else BlockOf(cs[0]) + Live(cs[1..])
  }

  /** [s, s+n) is a page-aligned run inside the heap that touches no live block. */
  ghost predicate FreeRun(live: set<Block>, heap: nat, page: nat, n: nat, s: nat)
    requires page > 0
  {
    s % page == 0 && s + n <= heap && forall b :: b in live ==> b.start + b.size <= s || s + n <= b.start
  }

  /** Units from `start` up to the next page boundary. */
  function Padding(start: nat, page: nat): nat
    requires page > 0
  {
    if start % page == 0 then 0 else page - start % page
  }

  /** Units a free chunk must hold for a request of n units. */
  predicate Fits(c: Chunk, n: nat, page: nat)
    requires page > 0
  {
    c.free && c.size >= n + Padding(c.start, page)
  }

  // ---- Padding ----

  /** Padding reaches a page boundary, and no boundary lies before that. */
  lemma PaddingIsLeast(start: nat, page: nat)
    requires page > 0
    ensures Padding(start, page) < page
    ensures (start + Padding(start, page)) % page == 0
    ensures forall s :: start <= s && s % page == 0 ==> start + Padding(start, page) <= s
  {
    var q, r, pad := start / page, start % page, Padding(start, page);
    assert start + pad == page * (q + if r == 0 then 0 else 1);
    DivModUnique(start + pad, page, q + if r == 0 then 0 else 1, 0);
    forall s | start <= s && s % page == 0 ensures start + pad <= s {
      LeastReach(start, pad, page, s);
    }
  }

  lemma LeastReach(a: nat, r: nat, p: nat, s: nat)
    requires 0 <= r < p && (a + r) % p == 0 && a <= s && s % p == 0
    ensures a + r <= s
  {
    var x, y := (a + r) / p, s / p;
    assert p * (x - y) == p * x - p * y == a + r - s;
    if x - y >= 1 {
      MulMono(p, 1, x - y);
    } else {
      MulMono(p, x - y, 0);
    }
  }

  /** -start & (page-1), on a 32-bit word, is that padding. */
  lemma PaddingMask(start: nat, k: nat)
    requires start < WORD32 && k <= WORD_BITS
    ensures And(Neg(start), Pow2(k) - 1) == Padding(start, Pow2(k))
  {
    AndLowMask(Neg(start), k);
    WordIsPow2();
    Pow2Sum(k, WORD_BITS - k);
    NegMod(start, Pow2(k), Pow2(WORD_BITS - k));
  }

  lemma NegMod(a: nat, p: nat, m: nat)
    requires a < WORD32 && p > 0 && p * m == WORD32
    ensures Neg(a) % p == Padding(a, p)
  {
    var q, r := a / p, a % p;
    assert a == p * q + r;
    if a == 0 {
      DivModUnique(0, p, 0, 0);
    } else {
      assert p * (m - q) == p * m - p * q && p * (m - q - 1) == p * m - p * q - p;
      if r == 0 { DivModUnique(WORD32 - a, p, m - q, 0); } else { DivModUnique(WORD32 - a, p, m - q - 1, p - r); }
    }
  }

  // ---- Live blocks ----

  lemma {:induction false} LiveConcat(a: seq<Chunk>, b: seq<Chunk>)
    ensures Live(a + b) == Live(a) + Live(b)
  {
    if a == [] {
      assert a + b == b;
    } else {
      assert (a + b)[1..] == a[1..] + b;
      LiveConcat(a[1..], b);
    }
  }

  /** Membership in Live is being a chunk in use. */
  lemma {:induction false} LiveAt(cs: seq<Chunk>, i: nat)
    requires i < |cs| && !cs[i].free
    ensures Block(cs[i].start, cs[i].size) in Live(cs)
  {
    if i > 0 {
      LiveAt(cs[1..], i - 1);
    }
  }

  lemma {:induction false} LiveIndex(cs: seq<Chunk>, b: Block) returns (i: nat)
    requires b in Live(cs)
    ensures i < |cs| && cs[i] == Chunk(b.start, b.size, false)
  {
    if b in BlockOf(cs[0]) {
      i := 0;
    } else {
      i := LiveIndex(cs[1..], b);
      i := i + 1;
    }
  }

  /** Earlier chunks end before later ones start. */
  lemma {:induction false} Ordered(cs: seq<Chunk>, lo: nat, hi: nat, i: nat, j: nat)
    requires Tiling(cs, lo, hi) && i < j < |cs|
    ensures cs[i].End() <= cs[j].start
    decreases j
  {
    if i + 1 < j {
      Ordered(cs, lo, hi, i, j - 1);
      assert cs[j - 1].End() == cs[j].start;
    }
  }

  lemma InRange(cs: seq<Chunk>, lo: nat, hi: nat, i: nat)
    requires Tiling(cs, lo, hi) && i < |cs|
    ensures lo <= cs[i].start && cs[i].End() <= hi
  {
    if i > 0 { Ordered(cs, lo, hi, 0, i); }
    if i < |cs| - 1 { Ordered(cs, lo, hi, i, |cs| - 1); }
  }

  /** Live blocks are in bounds, page-aligned and pairwise disjoint. */
  lemma LiveBlocksDisjoint(cs: seq<Chunk>, heap: nat, page: nat, a: Block, b: Block)
    requires page > 0 && Canonical(cs, 0, heap, page)
    requires a in Live(cs) && b in Live(cs)
    ensures a.start % page == 0 && a.size > 0 && a.start + a.size <= heap
    ensures a == b || a.start + a.size <= b.start || b.start + b.size <= a.start
  {
    var i := LiveIndex(cs, a);
    var j := LiveIndex(cs, b);
    InRange(cs, 0, heap, i);
    if i < j { Ordered(cs, 0, heap, i, j); }
    if j < i { Ordered(cs, 0, heap, j, i); }
  }

  /** Every unit of the range lies in some chunk. */
  lemma Covered(cs: seq<Chunk>, lo: nat, hi: nat, u: nat) returns (i: nat)
    requires Tiling(cs, lo, hi) && lo <= u < hi
    ensures i < |cs| && cs[i].start <= u < cs[i].End()
  {
    i := 0;
    while cs[i].End() <= u
      invariant i < |cs| && cs[i].start <= u
      decreases |cs| - i
    {
      if i + 1 < |cs| { assert cs[i].End() == cs[i + 1].start; }
      i := i + 1;
    }
  }

  // ---- Canonical form ----

  lemma CanonicalTail(cs: seq<Chunk>, lo: nat, hi: nat, page: nat)
    requires page > 0 && Canonical(cs, lo, hi, page) && cs != []
    ensures Canonical(cs[1..], cs[0].End(), hi, page)
  {
    if |cs| > 1 { assert cs[0].End() == cs[1].start; }
    assert forall i :: 0 <= i < |cs[1..]| ==> cs[1..][i] == cs[i + 1];
  }

  /** Dropping the first chunk drops its block, and only that. */
  lemma LiveTail(cs: seq<Chunk>, lo: nat, hi: nat, page: nat)
    requires page > 0 && Canonical(cs, lo, hi, page) && cs != []
    ensures Live(cs[1..]) == (set b | b in Live(cs) && b.start != lo)
  {
    forall b | b in Live(cs[1..]) ensures b.start != lo {
      var i := LiveIndex(cs[1..], b);
      Ordered(cs, lo, hi, 0, i + 1);
    }
  }

  /** A chunk boundary of one tiling at which a block starts cannot fall inside a free chunk
      of another tiling with the same live blocks. */
  lemma FreeHeadAgrees(a: seq<Chunk>, b: seq<Chunk>, lo: nat, hi: nat, page: nat)
    requires page > 0 && Canonical(a, lo, hi, page) && Canonical(b, lo, hi, page)
    requires Live(a) == Live(b) && a != [] && b != [] && a[0].free
    ensures b[0].free && a[0].size >= b[0].size
  {
    if !b[0].free {
      LiveAt(b, 0);
      var i := LiveIndex(a, Block(b[0].start, b[0].size));
      if i > 0 { Ordered(a, lo, hi, 0, i); }
      assert false;
    }
    if a[0].size < b[0].size {
      InRange(b, lo, hi, 0);
      assert |a| > 1;
      assert a[0].End() == a[1].start && !a[1].free;
      LiveAt(a, 1);
      var j := LiveIndex(b, Block(a[1].start, a[1].size));
      if j > 0 { Ordered(b, lo, hi, 0, j); }
      assert false;
    }
  }

  /** The chunk sequence is determined by the range and the live blocks alone. */
  lemma {:induction false} CanonicalIsUnique(a: seq<Chunk>, b: seq<Chunk>, lo: nat, hi: nat, page: nat)
    requires page > 0 && Canonical(a, lo, hi, page) && Canonical(b, lo, hi, page)
    requires Live(a) == Live(b)
    ensures a == b
    decreases |a|
  {
    if a == [] || b == [] {
      if a != [] { InRange(a, lo, hi, 0); }
      if b != [] { InRange(b, lo, hi, 0); }
    } else {
      HeadAgrees(a, b, lo, hi, page);
      CanonicalTail(a, lo, hi, page);
      CanonicalTail(b, lo, hi, page);
      LiveTail(a, lo, hi, page);
      LiveTail(b, lo, hi, page);
      CanonicalIsUnique(a[1..], b[1..], a[0].End(), hi, page);
      assert a == [a[0]] + a[1..] && b == [b[0]] + b[1..];
    }
  }

  lemma HeadAgrees(a: seq<Chunk>, b: seq<Chunk>, lo: nat, hi: nat, page: nat)
    requires page > 0 && Canonical(a, lo, hi, page) && Canonical(b, lo, hi, page)
    requires Live(a) == Live(b) && a != [] && b != []
    ensures a[0] == b[0]
  {
    if a[0].free {
      FreeHeadAgrees(a, b, lo, hi, page);
      FreeHeadAgrees(b, a, lo, hi, page);
    } else {
      if b[0].free { FreeHeadAgrees(b, a, lo, hi, page); }
      LiveAt(a, 0);
      var i := LiveIndex(b, Block(a[0].start, a[0].size));
      if i > 0 { Ordered(b, lo, hi, 0, i); }
    }
  }

  // ---- Replacing a run of chunks ----

  /** Where chunk i starts, or the end of the range behind the last one. */
  function Border(cs: seq<Chunk>, hi: nat, i: nat): nat
    requires i <= |cs|
  {
    if i < |cs| then cs[i].start else hi
  }

  lemma CutBefore(cs: seq<Chunk>, lo: nat, hi: nat, page: nat, i: nat)
    requires page > 0 && Canonical(cs, lo, hi, page) && i <= |cs|
    ensures Canonical(cs[..i], lo, Border(cs, hi, i), page)
  {
    if 0 < i < |cs| { assert cs[i - 1].End() == cs[i].start; }
  }

  lemma CutBehind(cs: seq<Chunk>, lo: nat, hi: nat, page: nat, i: nat)
    requires page > 0 && Canonical(cs, lo, hi, page) && i <= |cs|
    ensures Canonical(cs[i..], Border(cs, hi, i), hi, page)
  {
    var r := cs[i..];
    assert forall x :: 0 <= x < |r| ==> r[x] == cs[i + x];
    forall x, y | 0 <= x && y == x + 1 && y < |r| ensures r[x].End() == r[y].start && !(r[x].free && r[y].free) {
      assert cs[i + x].End() == cs[i + y].start;
    }
  }

  /** Two canonical stretches that meet make one, unless two free chunks would meet. */
  lemma Join(a: seq<Chunk>, b: seq<Chunk>, lo: nat, mid: nat, hi: nat, page: nat)
    requires page > 0 && Canonical(a, lo, mid, page) && Canonical(b, mid, hi, page)
    requires a != [] && b != [] ==> !(a[|a| - 1].free && b[0].free)
    ensures Canonical(a + b, lo, hi, page)
  {
    if a == [] {
      assert a + b == b;
    } else if b == [] {
      assert a + b == a;
    } else {
      JoinTwo(a, b, lo, mid, hi);
      JoinAligned(a, b, page);
    }
  }

  lemma JoinTwo(a: seq<Chunk>, b: seq<Chunk>, lo: nat, mid: nat, hi: nat)
    requires a != [] && b != [] && Tiling(a, lo, mid) && Tiling(b, mid, hi) && !(a[|a| - 1].free && b[0].free)
    ensures Tiling(a + b, lo, hi)
  {
    var r := a + b;
    forall x, y | 0 <= x && y == x + 1 && y < |r| ensures r[x].End() == r[y].start && !(r[x].free && r[y].free) {
      if y < |a| {
        assert r[x] == a[x] && r[y] == a[y];
      } else if x >= |a| {
        assert r[x] == b[x - |a|] && r[y] == b[y - |a|];
      }
    }
  }

  lemma JoinAligned(a: seq<Chunk>, b: seq<Chunk>, page: nat)
    requires page > 0 && Aligned(a, page) && Aligned(b, page)
    ensures Aligned(a + b, page)
  {}

  /** Replacing chunks i..j by chunks ms that tile the same range keeps the form canonical
      when the new borders do not put two free chunks side by side. */
  lemma Replace(cs: seq<Chunk>, lo: nat, hi: nat, page: nat, i: nat, j: nat, ms: seq<Chunk>)
    requires page > 0 && Canonical(cs, lo, hi, page)
    requires i < j <= |cs| && ms != [] && Canonical(ms, cs[i].start, cs[j - 1].End(), page)
    requires i > 0 ==> !(cs[i - 1].free && ms[0].free)
    requires j < |cs| ==> !(ms[|ms| - 1].free && cs[j].free)
    ensures Canonical(cs[..i] + ms + cs[j..], lo, hi, page)
  {
    CutBefore(cs, lo, hi, page, i);
    CutBehind(cs, lo, hi, page, j);
    if j < |cs| { assert cs[j - 1].End() == cs[j].start; }
    Join(cs[..i], ms, lo, cs[i].start, cs[j - 1].End(), page);
    Join(cs[..i] + ms, cs[j..], lo, cs[j - 1].End(), hi, page);
  }

  lemma LiveThree(a: seq<Chunk>, b: seq<Chunk>, c: seq<Chunk>)
    ensures Live(a + b + c) == Live(a) + Live(b) + Live(c)
  {
    LiveConcat(a + b, c);
    LiveConcat(a, b);
  }

  lemma LiveCut(cs: seq<Chunk>, i: nat, j: nat)
    requires i <= j <= |cs|
    ensures Live(cs) == Live(cs[..i]) + Live(cs[i..j]) + Live(cs[j..])
  {
    assert cs == cs[..i] + cs[i..j] + cs[j..];
    LiveThree(cs[..i], cs[i..j], cs[j..]);
  }

  // ---- Allocation ----

  /** What carving n units out of free chunk c leaves: `pad` units of padding, the block, and
      the rest, the empty ones omitted. */
  function Pieces(c: Chunk, n: nat, pad: nat): seq<Chunk>
    requires c.size >= n + pad
  {
    (if pad > 0 then [Chunk(c.start, pad, true)] else [])
    + [Chunk(c.start + pad, n, false)]
    + (if c.size > n + pad then [Chunk(c.start + pad + n, c.size - n - pad, true)] else [])
  }

  /** The chunk sequence after carving n units out of chunk f. */
  function Carved(cs: seq<Chunk>, f: nat, n: nat, pad: nat): seq<Chunk>
    requires f < |cs| && cs[f].size >= n + pad
  {
    cs[..f] + Pieces(cs[f], n, pad) + cs[f + 1..]
  }

  /** One successful allocation of n units at s. */
  ghost predicate Allocated(cs: seq<Chunk>, cs': seq<Chunk>, heap: nat, page: nat, n: nat, s: nat)
    requires page > 0
  {
    && Canonical(cs', 0, heap, page)
    && FreeRun(Live(cs), heap, page, n, s)
    && Live(cs') == Live(cs) + {Block(s, n)}
  }

  /** One release of whatever block starts at s. */
  ghost predicate Released(cs: seq<Chunk>, cs': seq<Chunk>, heap: nat, page: nat, s: nat)
    requires page > 0
  {
    && Canonical(cs', 0, heap, page)
    && Live(cs') == set b | b in Live(cs) && b.start != s
  }

  lemma PiecesTile(c: Chunk, n: nat, pad: nat, page: nat)
    requires page > 0 && n > 0 && c.size >= n + pad && (c.start + pad) % page == 0
    ensures Canonical(Pieces(c, n, pad), c.start, c.End(), page)
    ensures Live(Pieces(c, n, pad)) == {Block(c.start + pad, n)}
  {
    var head: seq<Chunk> := if pad > 0 then [Chunk(c.start, pad, true)] else [];
    var rest: seq<Chunk> := if c.size > n + pad then [Chunk(c.start + pad + n, c.size - n - pad, true)] else [];
    LiveConcat(head + [Chunk(c.start + pad, n, false)], rest);
    LiveConcat(head, [Chunk(c.start + pad, n, false)]);
    assert Live(rest) == {} && Live(head) == {};
  }

  /** Carving a block out of a free chunk that fits is a correct allocation. */
  lemma CarveIsAllocation(cs: seq<Chunk>, heap: nat, page: nat, i: nat, n: nat)
    requires page > 0 && Canonical(cs, 0, heap, page)
    requires i < |cs| && n > 0 && Fits(cs[i], n, page)
    ensures Allocated(cs, Carved(cs, i, n, Padding(cs[i].start, page)), heap, page, n,
                      cs[i].start + Padding(cs[i].start, page))
  {
    var pad := Padding(cs[i].start, page);
    PaddingIsLeast(cs[i].start, page);
    PiecesTile(cs[i], n, pad, page);
    FitIsFreeRun(cs, heap, page, i, n);
    ReplaceFree(cs, heap, page, i, Pieces(cs[i], n, pad));
  }

  /** Replacing one free chunk by chunks that tile it adds exactly their blocks. */
  lemma ReplaceFree(cs: seq<Chunk>, heap: nat, page: nat, i: nat, ms: seq<Chunk>)
    requires page > 0 && Canonical(cs, 0, heap, page)
    requires i < |cs| && cs[i].free && ms != [] && Canonical(ms, cs[i].start, cs[i].End(), page)
    ensures Canonical(cs[..i] + ms + cs[i + 1..], 0, heap, page)
    ensures Live(cs[..i] + ms + cs[i + 1..]) == Live(cs) + Live(ms)
  {
    Replace(cs, 0, heap, page, i, i + 1, ms);
    ReplaceFreeLive(cs, i, ms);
  }

  lemma ReplaceFreeLive(cs: seq<Chunk>, i: nat, ms: seq<Chunk>)
    requires i < |cs| && cs[i].free
    ensures Live(cs[..i] + ms + cs[i + 1..]) == Live(cs) + Live(ms)
  {
    LiveThree(cs[..i], ms, cs[i + 1..]);
    LiveCut(cs, i, i + 1);
    FreeHasNoBlock(cs[i..i + 1]);
  }

  lemma FreeHasNoBlock(cs: seq<Chunk>)
    requires |cs| == 1 && cs[0].free
    ensures Live(cs) == {}
  {
    assert Live(cs[1..]) == {};
  }

  lemma FreeChunkUntouched(cs: seq<Chunk>, heap: nat, page: nat, i: nat)
    requires page > 0 && Canonical(cs, 0, heap, page) && i < |cs| && cs[i].free
    ensures forall b :: b in Live(cs) ==> b.start + b.size <= cs[i].start || cs[i].End() <= b.start
  {
    forall b | b in Live(cs) ensures b.start + b.size <= cs[i].start || cs[i].End() <= b.start {
      var j := LiveIndex(cs, b);
      if j < i { Ordered(cs, 0, heap, j, i); }
      if i < j { Ordered(cs, 0, heap, i, j); }
    }
  }

  lemma FitIsFreeRun(cs: seq<Chunk>, heap: nat, page: nat, i: nat, n: nat)
    requires page > 0 && Canonical(cs, 0, heap, page)
    requires i < |cs| && Fits(cs[i], n, page)
    ensures FreeRun(Live(cs), heap, page, n, cs[i].start + Padding(cs[i].start, page))
  {
    InRange(cs, 0, heap, i);
    PaddingIsLeast(cs[i].start, page);
    FreeChunkUntouched(cs, heap, page, i);
  }

  /** An aligned run of free units lies inside one free chunk, which then fits. */
  lemma FreeRunFits(cs: seq<Chunk>, heap: nat, page: nat, n: nat, s: nat) returns (i: nat)
    requires page > 0 && Canonical(cs, 0, heap, page)
    requires n > 0 && FreeRun(Live(cs), heap, page, n, s)
    ensures i < |cs| && Fits(cs[i], n, page)
  {
    i := Covered(cs, 0, heap, s);
    if !cs[i].free { LiveAt(cs, i); }
    if cs[i].End() < s + n {
      InRange(cs, 0, heap, i);
      assert i + 1 < |cs|;
      assert cs[i].End() == cs[i + 1].start && !cs[i + 1].free;
      LiveAt(cs, i + 1);
    }
    PaddingIsLeast(cs[i].start, page);
  }

  ghost predicate SomeChunkFits(cs: seq<Chunk>, n: nat, page: nat)
    requires page > 0
  {
    exists i :: 0 <= i < |cs| && Fits(cs[i], n, page)
  }

  ghost predicate SomeFreeRun(cs: seq<Chunk>, heap: nat, page: nat, n: nat)
    requires page > 0
  {
    exists s :: FreeRun(Live(cs), heap, page, n, s)
  }

  /** Some chunk fits exactly when some page-aligned run of n free units exists in the heap. */
  lemma FitIffFreeRun(cs: seq<Chunk>, heap: nat, page: nat, n: nat)
    requires page > 0 && Canonical(cs, 0, heap, page) && n > 0
    ensures SomeChunkFits(cs, n, page) <==> SomeFreeRun(cs, heap, page, n)
  {
    if SomeChunkFits(cs, n, page) {
      var i :| 0 <= i < |cs| && Fits(cs[i], n, page);
      InRange(cs, 0, heap, i);
      FitIsFreeRun(cs, heap, page, i, n);
    }
    if SomeFreeRun(cs, heap, page, n) {
      var s :| FreeRun(Live(cs), heap, page, n, s);
      var i := FreeRunFits(cs, heap, page, n, s);
    }
  }

  // ---- Release ----

  /** Chunks lo..hi melted into one free chunk. */
  function Melt(cs: seq<Chunk>, lo: nat, hi: nat): seq<Chunk>
    requires lo < hi <= |cs| && cs[lo].start <= cs[hi - 1].End()
  {
    cs[..lo] + [Chunk(cs[lo].start, cs[hi - 1].End() - cs[lo].start, true)] + cs[hi..]
  }

  /** Element i takes over the size of its successor, which goes. */
  function Absorbed(cs: seq<Chunk>, i: nat): seq<Chunk>
    requires i + 1 < |cs|
  {
    Removed(cs[i := cs[i].(size := cs[i].size + cs[i + 1].size)], i + 1)
  }

  /** What the chunks around a melted one are. */
  lemma MeltAt(cs: seq<Chunk>, heap: nat, lo: nat, hi: nat)
    requires Tiling(cs, 0, heap) && lo < hi <= |cs|
    ensures cs[lo].start <= cs[hi - 1].End() <= heap
    ensures |Melt(cs, lo, hi)| == |cs| - (hi - lo) + 1 && Melt(cs, lo, hi)[lo].free
    ensures Melt(cs, lo, hi)[lo].size > 0
    ensures hi < |cs| ==> Melt(cs, lo, hi)[lo + 1] == cs[hi] && cs[hi].size > 0
    ensures lo > 0 ==> Melt(cs, lo, hi)[lo - 1] == cs[lo - 1]
  {
    if lo < hi - 1 { Ordered(cs, 0, heap, lo, hi - 1); }
    InRange(cs, 0, heap, hi - 1);
  }

  /** Melting one chunk further down is absorbing it into the melted one. */
  lemma MeltDown(cs: seq<Chunk>, heap: nat, lo: nat, hi: nat)
    requires Tiling(cs, 0, heap) && lo < hi < |cs|
    ensures cs[lo].start <= cs[hi - 1].End() && cs[lo].start <= cs[hi].End() <= heap
    ensures var m := Melt(cs, lo, hi);
      lo + 1 < |m| && m[lo].size + m[lo + 1].size <= heap && Melt(cs, lo, hi + 1) == Absorbed(m, lo)
  {
    MeltAt(cs, heap, lo, hi);
    InRange(cs, 0, heap, hi);
    assert cs[hi - 1].End() == cs[hi].start;
  }

  /** Melting one chunk further up is absorbing the melted one into it. */
  lemma MeltUp(cs: seq<Chunk>, heap: nat, lo: nat, hi: nat)
    requires Tiling(cs, 0, heap) && 0 < lo < hi <= |cs| && cs[lo - 1].free
    ensures cs[lo].start <= cs[hi - 1].End() && cs[lo - 1].start <= cs[hi - 1].End() <= heap
    ensures var m := Melt(cs, lo, hi);
      lo < |m| && m[lo - 1].size + m[lo].size <= heap && Melt(cs, lo - 1, hi) == Absorbed(m, lo - 1)
  {
    MeltAt(cs, heap, lo, hi);
    assert cs[lo - 1].End() == cs[lo].start;
  }

  /** lo..hi holds chunk i and otherwise free chunks, and no free chunk is left just below. */
  ghost predicate MeltsBelow(cs: seq<Chunk>, lo: nat, i: nat, hi: nat) {
    && lo <= i < hi <= |cs| && cs[lo].start <= cs[hi - 1].End()
    && (forall x :: lo <= x < hi && x != i ==> cs[x].free)
    && (lo > 0 ==> !cs[lo - 1].free)
  }

  /** ... nor just above: these are the chunks a release melts together. */
  ghost predicate MeltsAround(cs: seq<Chunk>, lo: nat, i: nat, hi: nat) {
    MeltsBelow(cs, lo, i, hi) && (hi < |cs| ==> !cs[hi].free)
  }

  /** Releasing chunk i together with the free chunks next to it (lo..hi) is a correct release. */
  lemma MeltIsRelease(cs: seq<Chunk>, heap: nat, page: nat, lo: nat, i: nat, hi: nat)
    requires page > 0 && Canonical(cs, 0, heap, page)
    requires MeltsAround(cs, lo, i, hi)
    ensures cs[lo].start < cs[hi - 1].End()
    ensures Released(cs, Melt(cs, lo, hi), heap, page, cs[i].start)
  {
    MeltCanonical(cs, heap, page, lo, i, hi);
    MeltLive(cs, lo, hi);
    OutsideKept(cs, heap, lo, i, hi);
  }

  lemma MeltCanonical(cs: seq<Chunk>, heap: nat, page: nat, lo: nat, i: nat, hi: nat)
    requires page > 0 && Canonical(cs, 0, heap, page) && MeltsAround(cs, lo, i, hi)
    ensures cs[lo].start < cs[hi - 1].End() && Canonical(Melt(cs, lo, hi), 0, heap, page)
  {
    if lo < hi - 1 { Ordered(cs, 0, heap, lo, hi - 1); }
    Replace(cs, 0, heap, page, lo, hi, [Chunk(cs[lo].start, cs[hi - 1].End() - cs[lo].start, true)]);
  }

  lemma MeltLive(cs: seq<Chunk>, lo: nat, hi: nat)
    requires lo < hi <= |cs| && cs[lo].start <= cs[hi - 1].End()
    ensures Live(Melt(cs, lo, hi)) == Live(cs[..lo]) + Live(cs[hi..])
  {
    var m := [Chunk(cs[lo].start, cs[hi - 1].End() - cs[lo].start, true)];
    LiveThree(cs[..lo], m, cs[hi..]);
    FreeHasNoBlock(m);
  }

  lemma StartsBefore(cs: seq<Chunk>, heap: nat, lo: nat, i: nat, b: Block)
    requires Tiling(cs, 0, heap) && lo <= i < |cs| && b in Live(cs[..lo])
    ensures b.start != cs[i].start
  {
    var x := LiveIndex(cs[..lo], b);
    Ordered(cs, 0, heap, x, i);
  }

  lemma StartsBehind(cs: seq<Chunk>, heap: nat, i: nat, hi: nat, b: Block)
    requires Tiling(cs, 0, heap) && i < hi <= |cs| && b in Live(cs[hi..])
    ensures b.start != cs[i].start
  {
    var x := LiveIndex(cs[hi..], b);
    Ordered(cs, 0, heap, i, x + hi);
  }

  lemma StartsAt(cs: seq<Chunk>, lo: nat, i: nat, hi: nat, b: Block)
    requires lo <= i < hi <= |cs| && b in Live(cs[lo..hi])
    requires forall x :: lo <= x < hi && x != i ==> cs[x].free
    ensures b.start == cs[i].start
  {
    var x := LiveIndex(cs[lo..hi], b);
    assert !cs[lo + x].free;
  }

  lemma WithoutMiddle(all: set<Block>, before: set<Block>, middle: set<Block>, behind: set<Block>, s: nat)
    requires all == before + middle + behind
    requires forall b :: b in before ==> b.start != s
    requires forall b :: b in middle ==> b.start == s
    requires forall b :: b in behind ==> b.start != s
    ensures before + behind == set b | b in all && b.start != s
  {}

  /** Of the live blocks, only the one of chunk i starts where chunk i does. */
  lemma OutsideKept(cs: seq<Chunk>, heap: nat, lo: nat, i: nat, hi: nat)
    requires Tiling(cs, 0, heap)
    requires lo <= i < hi <= |cs|
    requires forall x :: lo <= x < hi && x != i ==> cs[x].free
    ensures Live(cs[..lo]) + Live(cs[hi..]) == set b | b in Live(cs) && b.start != cs[i].start
  {
    forall b | b in Live(cs[..lo]) ensures b.start != cs[i].start { StartsBefore(cs, heap, lo, i, b); }
    forall b | b in Live(cs[lo..hi]) ensures b.start == cs[i].start { StartsAt(cs, lo, i, hi, b); }
    forall b | b in Live(cs[hi..]) ensures b.start != cs[i].start { StartsBehind(cs, heap, i, hi, b); }
    LiveCut(cs, lo, hi);
    WithoutMiddle(Live(cs), Live(cs[..lo]), Live(cs[lo..hi]), Live(cs[hi..]), cs[i].start);
  }

  // ---- Histories ----

  /** Freeing what was just allocated restores the very same chunk sequence. */
  lemma ReleaseUndoesAllocation(cs: seq<Chunk>, cs1: seq<Chunk>, cs2: seq<Chunk>,
                                heap: nat, page: nat, n: nat, s: nat)
    requires page > 0 && n > 0 && Canonical(cs, 0, heap, page)
    requires Allocated(cs, cs1, heap, page, n, s) && Released(cs1, cs2, heap, page, s)
    ensures cs2 == cs
  {
    forall b | b in Live(cs) ensures b.start != s {
      LiveBlocksDisjoint(cs, heap, page, b, b);
    }
    CanonicalIsUnique(cs2, cs, 0, heap, page);
  }

  /** A release changes the heap exactly when some live block starts at the released offset. */
  lemma ReleaseIsNoopIff(cs: seq<Chunk>, cs': seq<Chunk>, heap: nat, page: nat, s: nat)
    requires page > 0 && Canonical(cs, 0, heap, page) && Released(cs, cs', heap, page, s)
    ensures cs' == cs <==> forall b :: b in Live(cs) ==> b.start != s
  {
    if forall b :: b in Live(cs) ==> b.start != s {
      assert Live(cs') == Live(cs);
      CanonicalIsUnique(cs', cs, 0, heap, page);
    }
  }

  /** The order of two releases does not matter. */
  lemma ReleasesCommute(cs: seq<Chunk>, a1: seq<Chunk>, a2: seq<Chunk>, b1: seq<Chunk>, b2: seq<Chunk>,
                        heap: nat, page: nat, s: nat, t: nat)
    requires page > 0 && Canonical(cs, 0, heap, page)
    requires Released(cs, a1, heap, page, s) && Released(a1, a2, heap, page, t)
    requires Released(cs, b1, heap, page, t) && Released(b1, b2, heap, page, s)
    ensures a2 == b2
  {
    CanonicalIsUnique(a2, b2, 0, heap, page);
  }

  datatype Op = Alloc(n: nat) | Release(t: nat)

  /** n units are carved out of chunk f, behind its padding. */
  ghost predicate CarvesAt(cs: seq<Chunk>, cs': seq<Chunk>, page: nat, n: nat, f: nat)
    requires page > 0
  {
    f < |cs| && Fits(cs[f], n, page) && cs' == Carved(cs, f, n, Padding(cs[f].start, page))
  }

  /** The chunk i that starts at t is melted with the free ones around it. */
  ghost predicate MeltsAt(cs: seq<Chunk>, cs': seq<Chunk>, t: nat, lo: nat, i: nat, hi: nat) {
    MeltsAround(cs, lo, i, hi) && cs[i].start == t && cs' == Melt(cs, lo, hi)
  }

  ghost predicate StartsChunk(cs: seq<Chunk>, s: nat) {
    exists i :: 0 <= i < |cs| && cs[i].start == s
  }

  /** What the code does to the chunks: it carves out of some chunk that fits, it melts the chunk found,
      or it does nothing. */
  ghost predicate Step(cs: seq<Chunk>, op: Op, cs': seq<Chunk>, page: nat)
    requires page > 0
  {
    match op
    case Alloc(n) =>
      if n == 0 || !SomeChunkFits(cs, n, page) then cs' == cs else exists f :: CarvesAt(cs, cs', page, n, f)
    case Release(t) =>
      if !StartsChunk(cs, t) then cs' == cs else exists lo, i, hi :: MeltsAt(cs, cs', t, lo, i, hi)
  }

  /** An allocation that is not refused adds one block in a free run. */
  lemma AllocStep(cs: seq<Chunk>, n: nat, cs': seq<Chunk>, heap: nat, page: nat)
    requires page > 0 && Canonical(cs, 0, heap, page) && Step(cs, Alloc(n), cs', page)
    ensures Canonical(cs', 0, heap, page)
    ensures if n == 0 || !SomeFreeRun(cs, heap, page, n) then cs' == cs
            else exists s :: Allocated(cs, cs', heap, page, n, s)
  {
    if n > 0 {
      FitIffFreeRun(cs, heap, page, n);
      if SomeChunkFits(cs, n, page) {
        var f :| CarvesAt(cs, cs', page, n, f);
        CarveIsAllocation(cs, heap, page, f, n);
      }
    }
  }

  lemma NothingReleased(cs: seq<Chunk>, s: nat)
    requires !StartsChunk(cs, s)
    ensures Live(cs) == set b | b in Live(cs) && b.start != s
  {
    forall b | b in Live(cs) ensures b.start != s {
      var i := LiveIndex(cs, b);
    }
  }

  /** The chunks a release of chunk i melts together: neighbours of free chunks are in use. */
  lemma RunAround(cs: seq<Chunk>, heap: nat, i: nat) returns (lo: nat, hi: nat)
    requires Tiling(cs, 0, heap) && i < |cs|
    ensures MeltsAround(cs, lo, i, hi)
  {
    lo := if i > 0 && cs[i - 1].free then i - 1 else i;
    hi := if i + 1 < |cs| && cs[i + 1].free then i + 2 else i + 1;
    assert lo > 0 ==> cs[lo - 1].End() == cs[lo].start;
    assert hi < |cs| ==> cs[hi - 1].End() == cs[hi].start;
    MeltAt(cs, heap, lo, hi);
  }

  /** Melting is the one way to release: the code's step and what a release promises are the same. */
  lemma ReleaseStepIff(cs: seq<Chunk>, t: nat, cs': seq<Chunk>, heap: nat, page: nat)
    requires page > 0 && Canonical(cs, 0, heap, page)
    ensures Step(cs, Release(t), cs', page) <==> Released(cs, cs', heap, page, t)
  {
    if !StartsChunk(cs, t) {
      NothingReleased(cs, t);
      if Released(cs, cs', heap, page, t) { CanonicalIsUnique(cs', cs, 0, heap, page); }
    } else {
      forall lo, i, hi | MeltsAt(cs, cs', t, lo, i, hi) ensures Released(cs, cs', heap, page, t) {
        MeltIsRelease(cs, heap, page, lo, i, hi);
      }
      var i :| 0 <= i < |cs| && cs[i].start == t;
      var lo, hi := RunAround(cs, heap, i);
      MeltIsRelease(cs, heap, page, lo, i, hi);
      if Released(cs, cs', heap, page, t) {
        CanonicalIsUnique(cs', Melt(cs, lo, hi), 0, heap, page);
        assert MeltsAt(cs, cs', t, lo, i, hi);
      }
    }
  }

  /** Carving is the one way to allocate where a chunk fits. */
  lemma AllocatedIsCarved(cs: seq<Chunk>, cs': seq<Chunk>, heap: nat, page: nat, n: nat, f: nat)
    requires page > 0 && n > 0 && Canonical(cs, 0, heap, page) && f < |cs| && Fits(cs[f], n, page)
    requires Allocated(cs, cs', heap, page, n, cs[f].start + Padding(cs[f].start, page))
    ensures CarvesAt(cs, cs', page, n, f)
  {
    CarveIsAllocation(cs, heap, page, f, n);
    CanonicalIsUnique(cs', Carved(cs, f, n, Padding(cs[f].start, page)), 0, heap, page);
  }

  /** trace is the run of the operations ops from the empty heap. */
  ghost predicate History(trace: seq<seq<Chunk>>, ops: seq<Op>, heap: nat, page: nat)
    requires page > 0
  {
    && heap > 0
    && |trace| == |ops| + 1
    && trace[0] == [Chunk(0, heap, true)]
    && forall i :: 0 <= i < |ops| ==> Step(trace[i], ops[i], trace[i + 1], page)
  }

  lemma {:induction false} HistoryIsCanonical(trace: seq<seq<Chunk>>, ops: seq<Op>, heap: nat, page: nat, i: nat)
    requires page > 0 && History(trace, ops, heap, page) && i < |trace|
    ensures Canonical(trace[i], 0, heap, page)
  {
    if i > 0 {
      HistoryIsCanonical(trace, ops, heap, page, i - 1);
      assert Step(trace[i - 1], ops[i - 1], trace[i], page);
      match ops[i - 1]
      case Alloc(n) => AllocStep(trace[i - 1], n, trace[i], heap, page);
      case Release(t) => ReleaseStepIff(trace[i - 1], t, trace[i], heap, page);
    }
  }

  /** Two histories that leave the same live blocks leave identical chunk sequences. */
  lemma HistoryIndependence(t1: seq<seq<Chunk>>, o1: seq<Op>, t2: seq<seq<Chunk>>, o2: seq<Op>, heap: nat, page: nat)
    requires page > 0 && History(t1, o1, heap, page) && History(t2, o2, heap, page)
    requires Live(t1[|o1|]) == Live(t2[|o2|])
    ensures t1[|o1|] == t2[|o2|]
  {
    HistoryIsCanonical(t1, o1, heap, page, |o1|);
    HistoryIsCanonical(t2, o2, heap, page, |o2|);
    CanonicalIsUnique(t1[|o1|], t2[|o2|], 0, heap, page);
  }

  /** Once no block is live, in whatever order they were freed, one free chunk covers the heap. */
  lemma AllFreedIsOneChunk(trace: seq<seq<Chunk>>, ops: seq<Op>, heap: nat, page: nat, i: nat)
    requires page > 0 && History(trace, ops, heap, page) && i < |trace|
    requires Live(trace[i]) == {}
    ensures trace[i] == [Chunk(0, heap, true)]
  {
    HistoryIsCanonical(trace, ops, heap, page, i);
    CanonicalIsUnique(trace[i], [Chunk(0, heap, true)], 0, heap, page);
  }

  /** trace is a run of releases at the given starts. */
  ghost predicate Releasing(trace: seq<seq<Chunk>>, starts: seq<nat>, page: nat)
    requires page > 0
  {
    |trace| == |starts| + 1 && forall i :: 0 <= i < |starts| ==> Step(trace[i], Release(starts[i]), trace[i + 1], page)
  }

  /** The live blocks after a run of releases are those whose start was never released. */
  lemma {:induction false} ReleasesSubtract(trace: seq<seq<Chunk>>, starts: seq<nat>, heap: nat, page: nat)
    requires page > 0 && Releasing(trace, starts, page) && Canonical(trace[0], 0, heap, page)
    ensures Canonical(trace[|starts|], 0, heap, page)
    ensures Live(trace[|starts|]) == set b | b in Live(trace[0]) && b.start !in starts
  {
    if starts != [] {
      var m := |starts| - 1;
      assert starts == starts[..m] + [starts[m]];
      forall i | 0 <= i < m ensures Step(trace[..m + 1][i], Release(starts[..m][i]), trace[..m + 1][i + 1], page) {
        assert Step(trace[i], Release(starts[i]), trace[i + 1], page);
      }
      ReleasesSubtract(trace[..m + 1], starts[..m], heap, page);
      assert Step(trace[m], Release(starts[m]), trace[m + 1], page);
      ReleaseStepIff(trace[m], starts[m], trace[m + 1], heap, page);
    }
  }

  /** Freeing every live block, in any order and with any other offsets in between, leaves
      one free chunk covering the heap. */
  lemma FreeEverything(trace: seq<seq<Chunk>>, starts: seq<nat>, heap: nat, page: nat)
    requires page > 0 && heap > 0 && Releasing(trace, starts, page) && Canonical(trace[0], 0, heap, page)
    requires forall b :: b in Live(trace[0]) ==> b.start in starts
    ensures trace[|starts|] == [Chunk(0, heap, true)]
  {
    ReleasesSubtract(trace, starts, heap, page);
    CanonicalIsUnique(trace[|starts|], [Chunk(0, heap, true)], 0, heap, page);
  }
}
