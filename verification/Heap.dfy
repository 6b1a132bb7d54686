/**
 tb_malloc and tb_free: next-fit allocation over a circular free list threaded through the free memory itself.
 `ptr` and `size` are the two fields of the header at each unit address; address 0 is the null pointer.
 */
module Heaps {
  import opened FreeList
  import opened Circles
  import opened Arenas
  import opened Folding
  import opened Seqs
  import opened Sets

  const NULL: nat := 0

  // ----- headers of live blocks -----

  lemma NodeApart(segs: seq<Seg>, b: Seg, i: nat)
    requires Canonical(segs) && i < |segs| && Apart(segs, b)
    ensures segs[i].at != b.at
  {
    if i > 0 && segs[i].at == b.at {
      UnitsOf(segs, i, b.at);
    }
  }

  /** A live block is not a node of the list. */
  lemma LiveNotNode(segs: seq<Seg>, live: map<nat, nat>, arena: set<nat>, top: nat, i: nat, c: nat)
    requires Safe(segs, live, arena, top) && i < |segs| && c in live
    ensures segs[i].at != c
  {
    HeldFact(segs, live, arena, top, c);
    NodeApart(segs, Seg(c, live[c]), i);
  }

  ghost predicate HeadersHold(ss: seq<nat>, live: map<nat, nat>) {
    forall b: nat {:trigger Held(b)} :: b in live ==> b < |ss| && ss[b] == live[b]
  }

  lemma HeaderFact(ss: seq<nat>, live: map<nat, nat>, b: nat)
    requires HeadersHold(ss, live) && b in live
    ensures b < |ss| && ss[b] == live[b]
  {
    assert Held(b);
  }

  lemma SplicedHeaders(ps: seq<nat>, ss: seq<nat>, ps': seq<nat>, ss': seq<nat>, segs: seq<Seg>, g: nat,
                       live: map<nat, nat>, arena: set<nat>, top: nat, b: nat)
    requires Safe(segs, live, arena, top) && b in live && g < |segs| && HeadersHold(ss, live)
    requires Spliced(ps, ss, ps', ss', segs, g, Seg(b, live[b]))
    ensures HeadersHold(ss', live - {b})
  {
    forall c: nat | c in live - {b} ensures c < |ss'| && ss'[c] == live[c] {
      HeaderFact(ss, live, c);
      LiveNotNode(segs, live, arena, top, g, c);
    }
  }

  lemma CutHeaders(ps: seq<nat>, ss: seq<nat>, ps': seq<nat>, ss': seq<nat>, segs: seq<Seg>, j: nat, n: nat,
                   live: map<nat, nat>, arena: set<nat>, top: nat)
    requires Safe(segs, live, arena, top) && 0 < j < |segs| && 0 < n <= segs[j].len && HeadersHold(ss, live)
    requires Chained(ps, ss, segs) && Cut(ps, ss, ps', ss', segs, j, n)
    ensures HeadersHold(ss', live[TakenFrom(segs, j, n).at := n])
  {
    var b := TakenFrom(segs, j, n);
    ChainFact(ps, ss, segs, j);
    var more := live[b.at := n];
    forall c: nat | c in more ensures c < |ss'| && ss'[c] == more[c] {
      if c != b.at {
        HeaderFact(ss, live, c);
        LiveNotNode(segs, live, arena, top, j, c);
      }
    }
  }

  // ----- the allocator's state -----

  /** The list from `base`, the node `freep` points to, the blocks handed out with their units, the units obtained. */
  datatype View = View(segs: seq<Seg>, f: nat, live: map<nat, nat>, arena: set<nat>)

  /** The headers in memory record the list and the live blocks; `freep` is node `f`, or null before the first call. */
  ghost predicate SoundParts(ps: seq<nat>, ss: seq<nat>, freep: nat, v: View) {
    && |ps| == |ss| && v.f < |v.segs| && Safe(v.segs, v.live, v.arena, |ss|)
    && (if freep == NULL then v.segs == [BASE_SEG] && v.live == map[] && v.arena == {}
        else freep == v.segs[v.f].at && Chained(ps, ss, v.segs) && HeadersHold(ss, v.live))
  }

  ghost predicate Sound(ps: seq<nat>, ss: seq<nat>, freep: nat, v: View) {
    forall z: nat {:trigger Opened(z)} :: SoundParts(ps, ss, freep, v)
  }

  lemma Open(ps: seq<nat>, ss: seq<nat>, freep: nat, v: View)
    requires Sound(ps, ss, freep, v)
    ensures SoundParts(ps, ss, freep, v)
  {
    assert Opened(0);
  }

  lemma Close(ps: seq<nat>, ss: seq<nat>, freep: nat, segs: seq<Seg>, f: nat, live: map<nat, nat>, arena: set<nat>)
    requires |ps| == |ss| && f < |segs| && Safe(segs, live, arena, |ss|)
    requires freep == segs[f].at != NULL && Chained(ps, ss, segs) && HeadersHold(ss, live)
    ensures Sound(ps, ss, freep, View(segs, f, live, arena))
  {}

  /** Block `b` is freed. */
  function Freed(v: View, b: nat): View
    requires v.segs != [] && b in v.live
  {
    var s := Seg(b, v.live[b]);
    View(Insert(v.segs, s), Gap(v.segs, b), v.live - {b}, v.arena)
  }

  /** `n` units of segment `j` are handed out. */
  function Taken(v: View, j: nat, n: nat): View
    requires 0 < j < |v.segs| && v.segs[j].len >= n
  {
    View(TakeAt(v.segs, j, n), j - 1, v.live[TakenFrom(v.segs, j, n).at := n], v.arena)
  }

  /** A region of `n` units comes from the kernel, a block of the allocator's own. */
  function Granted(v: View, b: nat, n: nat): View {
    View(v.segs, v.f, v.live[b := n], v.arena + UnitsAt(b, n))
  }

  lemma FreedSound(ps: seq<nat>, ss: seq<nat>, ps': seq<nat>, ss': seq<nat>, freep: nat, v: View, b: nat)
    requires Sound(ps, ss, freep, v) && freep != NULL && b in v.live && v.segs != []
    requires var g := Gap(v.segs, b); IsGap(v.segs, g, b) && Spliced(ps, ss, ps', ss', v.segs, g, Seg(b, v.live[b]))
    ensures v.segs[Gap(v.segs, b)].at != NULL
    ensures Sound(ps', ss', v.segs[Gap(v.segs, b)].at, Freed(v, b))
  {
    Open(ps, ss, freep, v);
    var g := Gap(v.segs, b);
    HeldFact(v.segs, v.live, v.arena, |ss|, b);
    SplicedChained(ps, ss, ps', ss', v.segs, g, Seg(b, v.live[b]));
    SplicedHeaders(ps, ss, ps', ss', v.segs, g, v.live, v.arena, |ss|, b);
    SafeFree(v.segs, v.live, v.arena, |ss|, b);
    assert g > 0 ==> v.segs[0].End() < v.segs[g].at;
  }

  lemma TakenSound(ps: seq<nat>, ss: seq<nat>, ps': seq<nat>, ss': seq<nat>, freep: nat, v: View, j: nat, n: nat)
    requires Sound(ps, ss, freep, v) && freep != NULL
    requires 0 < j < |v.segs| && 0 < n <= v.segs[j].len && Cut(ps, ss, ps', ss', v.segs, j, n)
    ensures v.segs[j - 1].at != NULL
    ensures Sound(ps', ss', v.segs[j - 1].at, Taken(v, j, n))
  {
    Open(ps, ss, freep, v);
    CutChained(ps, ss, ps', ss', v.segs, j, n);
    CutHeaders(ps, ss, ps', ss', v.segs, j, n, v.live, v.arena, |ss|);
    SafeTake(v.segs, v.live, v.arena, |ss|, j, n);
    TakeElem(v.segs, j, n, j - 1);
    assert j > 1 ==> v.segs[0].End() < v.segs[j - 1].at;
  }

  lemma NodesFit(ps: seq<nat>, ss: seq<nat>, freep: nat, v: View, j: nat, n: nat)
    requires Sound(ps, ss, freep, v) && freep != NULL
    requires 0 < j < |v.segs| && 0 < n <= v.segs[j].len
    ensures var p := v.segs[j].at;
      p < |ss| == |ps| && v.segs[j - 1].at < |ss| && ss[p] == v.segs[j].len && v.segs[j].End() <= |ss|
  {
    Open(ps, ss, freep, v);
    ChainFact(ps, ss, v.segs, j);
    ChainFact(ps, ss, v.segs, j - 1);
    SafeTake(v.segs, v.live, v.arena, |ss|, j, n);
  }

  lemma GrantedChain(ps: seq<nat>, ss: seq<nat>, segs: seq<Seg>, b: Seg)
    requires Canonical(segs) && Chained(ps, ss, segs) && Apart(segs, b) && b.at < |ss|
    ensures Chained(ps, ss[b.at := b.len], segs)
  {
    var ss' := ss[b.at := b.len];
    forall i: nat | i < |segs| ensures ChainedAt(ps, ss', segs, i) {
      ChainFact(ps, ss, segs, i);
      NodeApart(segs, b, i);
    }
  }

  lemma HeadersWith(ss: seq<nat>, live: map<nat, nat>, b: nat, n: nat)
    requires HeadersHold(ss, live) && b < |ss|
    ensures HeadersHold(ss[b := n], live[b := n])
  {
    var more := live[b := n];
    forall c: nat | c in more ensures c < |ss| && ss[b := n][c] == more[c] {
      if c != b {
        HeaderFact(ss, live, c);
      }
    }
  }

  lemma ArenaFits(v: View, top: nat)
    requires Safe(v.segs, v.live, v.arena, top)
    ensures |v.arena| <= top
  {
    SubsetSize(v.arena, Range(0, top));
  }

  lemma GrantedApart(v: View, b: nat, n: nat, top: nat)
    requires Safe(v.segs, v.live, v.arena, top) && b > BASE && n > 0 && b + n <= top && UnitsAt(b, n) !! v.arena
    ensures b !in v.live && Apart(v.segs, Seg(b, n)) && Safe(v.segs, v.live[b := n], v.arena + UnitsAt(b, n), top)
    ensures |v.arena| < |v.arena + UnitsAt(b, n)| <= top
  {
    SafeHold(v.segs, v.live, v.arena, top, b, n);
    HeldFact(v.segs, v.live[b := n], v.arena + UnitsAt(b, n), top, b);
    ArenaFits(Granted(v, b, n), top);
    assert |UnitsAt(b, n)| == n;
  }

  lemma GrantedSound(ps: seq<nat>, ss: seq<nat>, freep: nat, v: View, b: nat, n: nat)
    requires Sound(ps, ss, freep, v) && freep != NULL
    requires b > BASE && n > 0 && b + n <= |ss| && UnitsAt(b, n) !! v.arena
    ensures Sound(ps, ss[b := n], freep, Granted(v, b, n))
    ensures b !in v.live && Apart(v.segs, Seg(b, n)) && |v.arena| < |Granted(v, b, n).arena| <= |ss|
  {
    Open(ps, ss, freep, v);
    GrantedApart(v, b, n, |ss|);
    GrantedChain(ps, ss, v.segs, Seg(b, n));
    HeadersWith(ss, v.live, b, n);
    Close(ps, ss[b := n], freep, v.segs, v.f, v.live[b := n], v.arena + UnitsAt(b, n));
  }

  lemma StartSound(ps: seq<nat>, ss: seq<nat>, v: View)
    requires Sound(ps, ss, NULL, v) && |ps| == |ss| > BASE
    ensures Sound(ps[BASE := BASE], ss[BASE := 0], BASE, v)
  {
    Open(ps, ss, NULL, v);
    assert ChainedAt(ps[BASE := BASE], ss[BASE := 0], v.segs, 0);
  }

  lemma EmptySound(ps: seq<nat>, ss: seq<nat>)
    requires |ps| == |ss|
    ensures Sound(ps, ss, NULL, View([BASE_SEG], 0, map[], {}))
  {
    assert Units(Init([BASE_SEG])) == {};
  }

  /** No unit is lost: free and live units together are as many as tb_sbrk has granted. */
  lemma Conserved(ps: seq<nat>, ss: seq<nat>, freep: nat, v: View)
    requires Sound(ps, ss, freep, v)
    ensures |v.arena| == SumLen(v.segs) + LiveSum(v.live)
    ensures Canonical(v.segs) && LiveDisjoint(v.live) && LiveApart(v.live, Units(v.segs))
  {
    Open(ps, ss, freep, v);
    UnitsConserved(v.segs, v.live, v.arena, |ss|);
  }

  /** What a caller writes into a block of its own touches no header. */
  lemma PayloadApart(ps: seq<nat>, ss: seq<nat>, freep: nat, v: View, b: nat, a: nat, x: nat, y: nat)
    requires Sound(ps, ss, freep, v) && b in v.live && b < a < b + v.live[b] && |ps| == |ss|
    ensures a < |ss| && Sound(ps[a := x], ss[a := y], freep, v)
  {
    Open(ps, ss, freep, v);
    HeldFact(v.segs, v.live, v.arena, |ss|, b);
    var ps', ss' := ps[a := x], ss[a := y];
    forall i: nat | i < |v.segs| ensures ChainedAt(ps', ss', v.segs, i) {
      ChainFact(ps, ss, v.segs, i);
      UnitNotNode(v.segs, a, i);
    }
    forall c: nat | c in v.live ensures c < |ss| && ss'[c] == v.live[c] {
      HeaderFact(ss, v.live, c);
      PayloadNotHeader(v.live, b, a, c);
    }
  }

  lemma UnitNotNode(segs: seq<Seg>, a: nat, i: nat)
    requires Canonical(segs) && a > BASE && a !in Units(segs) && i < |segs|
    ensures segs[i].at != a
  {
    if i > 0 && segs[i].at == a {
      UnitsOf(segs, i, a);
    }
  }

  lemma PayloadNotHeader(live: map<nat, nat>, b: nat, a: nat, c: nat)
    requires LiveDisjoint(live) && LiveAbove(live) && b in live && c in live && b < a < b + live[b]
    ensures a != c
  {
    if c != b {
      AboveFact(live, c);
      DisjointFact(live, b, c);
      assert a in UnitsAt(b, live[b]) && c in UnitsAt(c, live[c]);
    }
  }

  // ----- the search of tb_free -----

  /** Steps from node `i` to node `g` around the circle. */
  function StepsTo(segs: seq<Seg>, i: nat, g: nat): nat
    requires i < |segs| && g < |segs|
  {
    if i <= g then g - i else g - i + |segs|
  }

  /** The two tests of the search loop, at a node and its successor. */
  predicate Stops(p: nat, next: nat, bp: nat) {
    (bp > p && bp < next) || (p >= next && (bp > p || bp < next))
  }

  /** The search stops at the gap and nowhere else. */
  lemma StopsAtGap(segs: seq<Seg>, i: nat, a: nat)
    requires Canonical(segs) && i < |segs| && a > BASE
    ensures Stops(segs[i].at, segs[Next(segs, i)].at, a) <==> IsGap(segs, i, a)
  {
    assert i + 1 < |segs| ==> segs[i].End() < segs[i + 1].at;
    assert i > 0 ==> segs[0].End() < segs[i].at;
  }

  lemma NearerGap(segs: seq<Seg>, i: nat, g: nat)
    requires i < |segs| && g < |segs| && i != g
    ensures StepsTo(segs, Next(segs, i), g) < StepsTo(segs, i, g)
  {}

  // ----- the lap around the circle -----

  /** The node `t` steps after node `f`. */
  function Pos(segs: seq<Seg>, f: nat, t: nat): (i: nat)
    requires f < |segs| && t <= |segs|
    ensures i < |segs|
  {
    if f + t < |segs| then f + t else f + t - |segs|
  }

  // A term to hang facts about lap positions on.
  ghost predicate Visited(t: nat) { true }

  /** None of the first `t` nodes after node `f` is large enough. */
  ghost predicate NoneFits(segs: seq<Seg>, f: nat, t: nat, n: nat)
    requires f < |segs| && t <= |segs|
  {
    forall s: nat {:trigger Visited(s)} :: 0 < s <= t ==> segs[Pos(segs, f, s)].len < n
  }

  /** The `t`-th node after node `f` is the first that is large enough. */
  ghost predicate FirstFit(segs: seq<Seg>, f: nat, t: nat, n: nat)
    requires f < |segs|
  {
    && 0 < t <= |segs| && segs[Pos(segs, f, t)].len >= n
    && NoneFits(segs, f, t - 1, n)
  }

  lemma NoneFitsStep(segs: seq<Seg>, f: nat, t: nat, n: nat)
    requires f < |segs| && 0 < t <= |segs| && NoneFits(segs, f, t - 1, n) && segs[Pos(segs, f, t)].len < n
    ensures NoneFits(segs, f, t, n)
  {
    forall s: nat | 0 < s <= t ensures segs[Pos(segs, f, s)].len < n {
      assert Visited(s);
    }
  }

  /** A whole lap visits every node. */
  lemma LapSeesAll(segs: seq<Seg>, f: nat, n: nat, i: nat)
    requires f < |segs| && i < |segs| && NoneFits(segs, f, |segs|, n)
    ensures segs[i].len < n
  {
    var s := if i > f then i - f else i - f + |segs|;
    assert Visited(s) && Pos(segs, f, s) == i;
  }

  /** The first fit is unique. */
  lemma FirstFitUnique(segs: seq<Seg>, f: nat, t: nat, u: nat, n: nat)
    requires f < |segs| && FirstFit(segs, f, t, n) && FirstFit(segs, f, u, n)
    ensures t == u
  {
    assert Visited(t) && Visited(u);
  }

  // ----- how many units a request asks for -----

  const U64: nat := 0x1_0000_0000_0000_0000
  const U32: nat := 0x1_0000_0000
  const HEADER: nat := 16

  /** The 64-bit sum of tb_malloc. */
  function UnitsFor(nbytes: nat): nat {
    (nbytes + HEADER - 1) % U64 / HEADER + 1
  }

  /** The payload holds the request exactly when the sum does not wrap. */
  lemma PayloadHolds(nbytes: nat)
    requires nbytes < U64
    ensures HEADER * (UnitsFor(nbytes) - 1) >= nbytes <==> nbytes <= U64 - HEADER
  {
    if nbytes > U64 - HEADER {
      assert (nbytes + HEADER - 1) % U64 == nbytes + HEADER - 1 - U64;
    }
  }

  /** The block is the smallest that holds its header and the request; a request that wraps gets the header alone. */
  lemma UnitsLeast(nbytes: nat)
    requires nbytes < U64
    ensures nbytes <= 0xFFFF_FFFF_FFFF_FFF0 ==> nbytes <= 16 * (UnitsFor(nbytes) - 1) < nbytes + 16
    ensures nbytes > 0xFFFF_FFFF_FFFF_FFF0 ==> UnitsFor(nbytes) == 1
  {
    if nbytes > 0xFFFF_FFFF_FFFF_FFF0 {
      assert (nbytes + HEADER - 1) % U64 == nbytes + HEADER - 1 - U64;
    }
  }

  /** A wrapped request yields a block of the header alone. */
  lemma PayloadWraps()
    ensures UnitsFor(U64 - 1) == 1
  {}

  /** morecore's request: the unit count cut to 32 bits, at least 4096. */
  function Asked(nunits: nat): (nu: nat)
    ensures 4096 <= nu < U32
    ensures nunits < U32 ==> nu >= nunits
  {
    var nu := nunits % U32;
    if nu < 4096 then 4096 else nu
  }

  /** The larger of 4096 and the request, after the cut. */
  lemma AskedIs(nunits: nat)
    ensures nunits < 0x1_0000_0000 ==> Asked(nunits) == if nunits <= 4096 then 4096 else nunits
    ensures nunits >= 0x1_0000_0000 ==>
      var low := nunits % 0x1_0000_0000; Asked(nunits) == if low <= 4096 then 4096 else low
  {}

  // ----- growth and the values it leaves -----

  /** No segment is large enough. */
  ghost predicate NoneLarge(segs: seq<Seg>, n: nat) {
    forall i: nat {:trigger Node(i)} :: i < |segs| ==> segs[i].len < n
  }

  /** The regions morecore brought in, each asked for only when no segment was large enough. */
  ghost predicate Grown(segs: seq<Seg>, got: seq<Seg>, n: nat)
    requires segs != []
  {
    got == [] ||
    (&& Grown(segs, Init(got), n)
     && NoneLarge(InsertAll(segs, Init(got)), n)
     && Last(got).len == Asked(n) && Apart(InsertAll(segs, Init(got)), Last(got)))
  }

  lemma GrownStep(segs: seq<Seg>, got: seq<Seg>, n: nat, b: Seg)
    requires segs != [] && Grown(segs, got, n) && NoneLarge(InsertAll(segs, got), n)
    requires b.len == Asked(n) && Apart(InsertAll(segs, got), b)
    ensures Grown(segs, got + [b], n) && InsertAll(segs, got + [b]) == Insert(InsertAll(segs, got), b)
    ensures Units(got + [b]) == Units(got) + UnitsAt(b.at, b.len)
  {
    assert Init(got + [b]) == got && Last(got + [b]) == b;
  }

  /** A region that came in is found, alone or merged. */
  lemma RoomAfter(segs: seq<Seg>, b: Seg, n: nat)
    requires segs != [] && b.len >= n
    ensures !NoneLarge(Insert(segs, b), n)
  {
    var g := Gap(segs, b.at);
    var k := if segs[g].End() == b.at then g else g + 1;
    assert k < |Insert(segs, b)| && Insert(segs, b)[k].len >= n;
    assert Node(k);
  }

  /** Below 2^32 units one region is enough. */
  lemma GrowsOnce(segs: seq<Seg>, got: seq<Seg>, n: nat)
    requires segs != [] && Grown(segs, got, n)
    ensures n < U32 ==> |got| <= 1
    ensures n < U32 && got != [] ==> !NoneLarge(InsertAll(segs, got), n)
  {
    if n < U32 && got != [] {
      RoomAfter(InsertAll(segs, Init(got)), Last(got), n);
      var less := Init(got);
      if less != [] {
        RoomAfter(InsertAll(segs, Init(less)), Last(less), n);
      }
    }
  }

  /** A region of `n` units above all segments and apart from them, with a unit between. */
  function RegionAbove(segs: seq<Seg>, n: nat): Seg
    requires segs != []
  {
    Seg(Last(segs).End() + 1, n)
  }

  lemma RegionAboveApart(segs: seq<Seg>, n: nat)
    requires Canonical(segs) && n > 0
    ensures var b := RegionAbove(segs, n);
      FreeList.Apart(segs, b) && Canonical(segs + [b]) && Insert(segs, b) == segs + [b]
  {
    var b := RegionAbove(segs, n);
    forall x | x in Units(segs) ensures x < b.at {
      var i := UnitsIn(segs, x);
      assert i < |segs| - 1 ==> segs[i].End() < Last(segs).at;
    }
    assert |segs| > 1 ==> segs[0].End() < Last(segs).at;
    assert Gap(segs, b.at) == |segs| - 1;
    forall i: nat | i < |segs| ensures segs[i].End() < b.at {
      assert i < |segs| - 1 ==> segs[i].End() < Last(segs).at;
    }
  }

  lemma NoneLargeAppend(segs: seq<Seg>, b: Seg, n: nat)
    requires NoneLarge(segs, n) && b.len < n
    ensures NoneLarge(segs + [b], n)
  {
    forall i: nat | i < |segs + [b]| ensures (segs + [b])[i].len < n {
      assert Node(i);
    }
  }

  /** One region more, which is of no use to a request of 2^32 units. */
  lemma GrowsMore(segs: seq<Seg>, got: seq<Seg>, n: nat) returns (b: Seg)
    requires segs != [] && Grown(segs, got, n) && n >= U32
    requires Canonical(InsertAll(segs, got)) && NoneLarge(InsertAll(segs, got), n)
    ensures Grown(segs, got + [b], n)
    ensures InsertAll(segs, got + [b]) == InsertAll(segs, got) + [b]
    ensures Canonical(InsertAll(segs, got + [b])) && NoneLarge(InsertAll(segs, got + [b]), n)
  {
    var all := InsertAll(segs, got);
    b := RegionAbove(all, Asked(n));
    RegionAboveApart(all, Asked(n));
    NoneLargeAppend(all, b, n);
    GrownStep(segs, got, n, b);
  }

  /** From 2^32 units on any number of regions may come in one after the other, and the request still fits nowhere. */
  lemma {:induction false} GrowsOften(segs: seq<Seg>, n: nat, k: nat) returns (got: seq<Seg>)
    requires Canonical(segs) && NoneLarge(segs, n) && n >= U32
    ensures |got| == k && Grown(segs, got, n)
    ensures Canonical(InsertAll(segs, got)) && NoneLarge(InsertAll(segs, got), n)
    ensures |InsertAll(segs, got)| == |segs| + k
  {
    got := [];
    if k > 0 {
      got := GrowsOften(segs, n, k - 1);
      var b := GrowsMore(segs, got, n);
      got := got + [b];
    }
  }

  /** No region comes in while a segment is large enough. */
  lemma {:induction false} GrowsWhenNeeded(segs: seq<Seg>, got: seq<Seg>, n: nat)
    requires segs != [] && Grown(segs, got, n) && !NoneLarge(segs, n)
    ensures got == []
  {
    if got != [] {
      GrowsWhenNeeded(segs, Init(got), n);
    }
  }

  /** One region at most is asked for exactly when the request is below 2^32 units or fits as it is. */
  lemma GrowsOnceExactly(segs: seq<Seg>, n: nat)
    requires Canonical(segs)
    ensures n < U32 || !NoneLarge(segs, n) <==> forall got: seq<Seg> :: Grown(segs, got, n) ==> |got| <= 1
  {
    if n < U32 || !NoneLarge(segs, n) {
      forall got: seq<Seg> | Grown(segs, got, n) ensures |got| <= 1 {
        GrowsOnce(segs, got, n);
        if !NoneLarge(segs, n) {
          GrowsWhenNeeded(segs, got, n);
        }
      }
    } else {
      var got := GrowsOften(segs, n, 2);
    }
  }

  lemma FullLap(segs: seq<Seg>, f: nat, n: nat)
    requires f < |segs| && NoneFits(segs, f, |segs|, n)
    ensures NoneLarge(segs, n)
  {
    forall i: nat | i < |segs| ensures segs[i].len < n {
      LapSeesAll(segs, f, n, i);
    }
  }

  /** The cursor of tb_malloc: `p` is the `t`-th node after `freep`, `prevp` the one before it, none earlier fits. */
  ghost predicate OnLap(segs: seq<Seg>, f: nat, t: nat, prevp: nat, p: nat, n: nat) {
    && f < |segs| && 0 < t <= |segs| && NoneFits(segs, f, t - 1, n)
    && prevp == segs[Pos(segs, f, t - 1)].at && p == segs[Pos(segs, f, t)].at
  }

  lemma LapStart(ps: seq<nat>, ss: seq<nat>, freep: nat, v: View, n: nat)
    requires Sound(ps, ss, freep, v) && freep != NULL
    ensures freep < |ps| && OnLap(v.segs, v.f, 1, freep, ps[freep], n)
  {
    Open(ps, ss, freep, v);
    ChainFact(ps, ss, v.segs, v.f);
  }

  /** At the cursor: what its size says, and whether the lap is over. */
  lemma LapAt(ps: seq<nat>, ss: seq<nat>, freep: nat, v: View, t: nat, prevp: nat, p: nat, n: nat)
    requires Sound(ps, ss, freep, v) && freep != NULL && n > 0 && OnLap(v.segs, v.f, t, prevp, p, n)
    ensures p < |ps| == |ss| && ss[p] == v.segs[Pos(v.segs, v.f, t)].len
    ensures p == freep <==> t == |v.segs|
    ensures ss[p] >= n ==>
      var j := Pos(v.segs, v.f, t); j > 0 && prevp == v.segs[j - 1].at && FirstFit(v.segs, v.f, t, n)
    ensures ss[p] < n && t < |v.segs| ==> OnLap(v.segs, v.f, t + 1, p, ps[p], n)
    ensures ss[p] < n && t == |v.segs| ==> NoneLarge(v.segs, n)
  {
    Open(ps, ss, freep, v);
    var i := Pos(v.segs, v.f, t);
    ChainFact(ps, ss, v.segs, i);
    if ss[p] < n {
      NoneFitsStep(v.segs, v.f, t, n);
      if t == |v.segs| {
        FullLap(v.segs, v.f, n);
      }
    }
  }

  /** Where the last lap started, after regions `got` came in. */
  ghost function LapFrom(v: View, got: seq<Seg>): nat
    requires v.segs != []
  {
    if got == [] then v.f else Gap(InsertAll(v.segs, Init(got)), Last(got).at)
  }

  lemma LapFromStep(v: View, got: seq<Seg>, b: Seg)
    requires v.segs != []
    ensures LapFrom(v, got + [b]) == Gap(InsertAll(v.segs, got), b.at)
  {
    assert Init(got + [b]) == got && Last(got + [b]) == b;
  }

  /** State `v0` after regions `got` came in. */
  ghost function WithRegions(v0: View, got: seq<Seg>): View
    requires v0.segs != []
  {
    View(InsertAll(v0.segs, got), LapFrom(v0, got), v0.live, v0.arena + Units(got))
  }

  lemma WithRegionsStep(v0: View, got: seq<Seg>, b: Seg)
    requires v0.segs != []
    ensures var v, w := WithRegions(v0, got), WithRegions(v0, got + [b]);
      w == View(Insert(v.segs, b), Gap(v.segs, b.at), v.live, v.arena + UnitsAt(b.at, b.len))
  {
    LapFromStep(v0, got, b);
    assert Init(got + [b]) == got && Last(got + [b]) == b;
  }

  /** tb_malloc at work: state `v` is `v0` with regions `got`, and the cursor is on a lap of it. */
  ghost predicate Lapping(v0: View, n: nat, got: seq<Seg>, v: View, t: nat, prevp: nat, p: nat) {
    forall z: nat {:trigger Opened(z)} ::
      v0.segs != [] && Grown(v0.segs, got, n) && v == WithRegions(v0, got) && OnLap(v.segs, v.f, t, prevp, p, n)
  }

  lemma LapOpen(v0: View, n: nat, got: seq<Seg>, v: View, t: nat, prevp: nat, p: nat)
    requires Lapping(v0, n, got, v, t, prevp, p)
    ensures v0.segs != [] && Grown(v0.segs, got, n) && v == WithRegions(v0, got) && OnLap(v.segs, v.f, t, prevp, p, n)
  {
    assert Opened(0);
  }

  lemma LapBegins(ps: seq<nat>, ss: seq<nat>, freep: nat, v: View, n: nat)
    requires Sound(ps, ss, freep, v) && freep != NULL
    ensures freep < |ps| && Lapping(v, n, [], v, 1, freep, ps[freep])
  {
    Open(ps, ss, freep, v);
    LapStart(ps, ss, freep, v, n);
  }

  /** The next step of the lap. */
  lemma LapGoesOn(v0: View, n: nat, got: seq<Seg>, ps: seq<nat>, ss: seq<nat>, freep: nat, v: View,
                  t: nat, prevp: nat, p: nat)
    requires Sound(ps, ss, freep, v) && freep != NULL && n > 0 && Lapping(v0, n, got, v, t, prevp, p)
    ensures p < |ps| == |ss| && t <= |v.segs|
    ensures ss[p] < n && p != freep ==> t < |v.segs| && Lapping(v0, n, got, v, t + 1, p, ps[p])
  {
    LapOpen(v0, n, got, v, t, prevp, p);
    LapAt(ps, ss, freep, v, t, prevp, p, n);
  }

  /** A block that fits. */
  lemma LapFits(v0: View, n: nat, got: seq<Seg>, ps: seq<nat>, ss: seq<nat>, freep: nat, v: View,
                t: nat, prevp: nat, p: nat)
    requires Sound(ps, ss, freep, v) && freep != NULL && n > 0 && Lapping(v0, n, got, v, t, prevp, p)
    requires p < |ss| && ss[p] >= n
    ensures v.f < |v.segs| && FirstFit(v.segs, v.f, t, n)
    ensures var j := Pos(v.segs, v.f, t); j > 0 && v.segs[j].len >= n && prevp == v.segs[j - 1].at && p == v.segs[j].at
  {
    LapOpen(v0, n, got, v, t, prevp, p);
    LapAt(ps, ss, freep, v, t, prevp, p, n);
  }

  /** A lap that found nothing. */
  lemma LapFails(v0: View, n: nat, got: seq<Seg>, ps: seq<nat>, ss: seq<nat>, freep: nat, v: View, t: nat, prevp: nat)
    requires Sound(ps, ss, freep, v) && freep != NULL && n > 0 && Lapping(v0, n, got, v, t, prevp, freep)
    requires freep < |ss| && ss[freep] < n
    ensures NoneLarge(v.segs, n)
  {
    LapOpen(v0, n, got, v, t, prevp, freep);
    LapAt(ps, ss, freep, v, t, prevp, freep, n);
  }

  /** A new lap, after a region came in. */
  lemma LapAgain(v0: View, n: nat, got: seq<Seg>, v1: View, t: nat, prevp: nat, p: nat,
                 ps: seq<nat>, ss: seq<nat>, freep: nat, v: View, b: Seg)
    requires Lapping(v0, n, got, v1, t, prevp, p) && NoneLarge(v1.segs, n) && v1.segs != []
    requires b.len == Asked(n) && Apart(v1.segs, b)
    requires v == View(Insert(v1.segs, b), Gap(v1.segs, b.at), v1.live, v1.arena + UnitsAt(b.at, b.len))
    requires Sound(ps, ss, freep, v) && freep != NULL
    ensures freep < |ps| && Lapping(v0, n, got + [b], v, 1, freep, ps[freep])
  {
    LapOpen(v0, n, got, v1, t, prevp, p);
    GrownStep(v0.segs, got, n, b);
    WithRegionsStep(v0, got, b);
    LapStart(ps, ss, freep, v, n);
  }

  /**
   What tb_malloc did for `n` units in state `v0`. Regions `got` came in, each only when no segment was large enough;
   below 2^32 units there is at most one. On success the block is cut from the first segment that is large enough on
   the lap from `freep`; null leaves a list in which none is.
   */
  ghost predicate AllocatedParts(v0: View, n: nat, got: seq<Seg>, t: nat, ap: nat, v: View)
    requires v0.segs != []
  {
    var w := WithRegions(v0, got);
    && Grown(v0.segs, got, n)
    && (n < U32 ==> |got| <= 1 && (ap == NULL ==> got == []))
    && (if ap == NULL then v == w && NoneLarge(v.segs, n)
        else
          && w.f < |w.segs| && FirstFit(w.segs, w.f, t, n)
          && (var j := Pos(w.segs, w.f, t);
              j > 0 && v == Taken(w, j, n) && ap == TakenFrom(w.segs, j, n).at + 1))
  }

  ghost predicate Allocated(v0: View, n: nat, got: seq<Seg>, t: nat, ap: nat, v: View)
    requires v0.segs != []
  {
    forall z: nat {:trigger Opened(z)} :: AllocatedParts(v0, n, got, t, ap, v)
  }

  /** Null changes nothing below 2^32 units; a block of exactly `n` units comes from the first fit. */
  lemma AllocatedMeans(v0: View, n: nat, got: seq<Seg>, t: nat, ap: nat, v: View)
    requires v0.segs != [] && Allocated(v0, n, got, t, ap, v)
    ensures AllocatedParts(v0, n, got, t, ap, v)
    ensures ap == NULL && n < U32 ==> v == v0
    ensures ap != NULL ==> ap - 1 in v.live && v.live[ap - 1] == n
  {
    assert Opened(0);
  }

  /**
   Where the block comes from, `w` being the state after the regions that came in: the end of the first segment, counted
   from the one after `freep`, that is large enough. The segment keeps its place or, if it fits exactly, leaves the list;
   `freep` is then the node before it.
   */
  lemma AllocatedWhere(v0: View, n: nat, got: seq<Seg>, t: nat, ap: nat, v: View, w: View) returns (j: nat)
    requires v0.segs != [] && n > 0 && Allocated(v0, n, got, t, ap, v) && ap != NULL && w == WithRegions(v0, got)
    ensures 0 < j < |w.segs| && w.f < |w.segs| && w.segs[j].len >= n
    ensures forall i: nat {:trigger w.segs[i]} ::
      i < |w.segs| && (if w.f < j then w.f < i < j else w.f < i || i < j) ==> w.segs[i].len < n
    ensures ap - 1 + n == w.segs[j].at + w.segs[j].len
    ensures v.f == j - 1 && v.f < |v.segs| && v.segs[..j] == w.segs[..j]
    ensures w.segs[j].len == n ==> v.segs[j..] == w.segs[j + 1..]
    ensures w.segs[j].len > n ==>
      |v.segs| > j && v.segs[j] == Seg(w.segs[j].at, w.segs[j].len - n) && v.segs[j + 1..] == w.segs[j + 1..]
  {
    AllocatedMeans(v0, n, got, t, ap, v);
    j := Pos(w.segs, w.f, t);
    forall i: nat | i < |w.segs| && (if w.f < j then w.f < i < j else w.f < i || i < j) ensures w.segs[i].len < n {
      SkippedBefore(w.segs, w.f, t, n, i);
    }
  }

  lemma SkippedBefore(segs: seq<Seg>, f: nat, t: nat, n: nat, i: nat)
    requires f < |segs| && FirstFit(segs, f, t, n) && i < |segs|
    requires var j := Pos(segs, f, t); if f < j then f < i < j else f < i || i < j
    ensures segs[i].len < n
  {
    var s := if i > f then i - f else i - f + |segs|;
    assert Visited(s) && Pos(segs, f, s) == i;
  }

  /** Where the lap starts after a region came in: at the last node below it. */
  lemma LapFromMeans(v0: View, b: Seg)
    requires Canonical(v0.segs) && Apart(v0.segs, b)
    ensures var w := WithRegions(v0, [b]);
      && w.segs == Insert(v0.segs, b) && w.f < |v0.segs| && v0.segs[w.f].at < b.at
      && (w.f + 1 < |v0.segs| ==> b.at < v0.segs[w.f + 1].at)
  {
    ApartGap(v0.segs, b);
    assert Init([b]) == [];
  }

  lemma AllocatedSome(v0: View, n: nat, got: seq<Seg>, v: View, t: nat, prevp: nat, p: nat, j: nat)
    requires Lapping(v0, n, got, v, t, prevp, p) && v0.segs != []
    requires v.f < |v.segs| && FirstFit(v.segs, v.f, t, n) && j == Pos(v.segs, v.f, t) && j > 0
    ensures Allocated(v0, n, got, t, TakenFrom(v.segs, j, n).at + 1, Taken(v, j, n))
  {
    LapOpen(v0, n, got, v, t, prevp, p);
    GrowsOnce(v0.segs, got, n);
  }

  lemma AllocatedNone(v0: View, n: nat, got: seq<Seg>, v: View, t: nat, prevp: nat, p: nat)
    requires Lapping(v0, n, got, v, t, prevp, p) && NoneLarge(v.segs, n) && v0.segs != []
    ensures Allocated(v0, n, got, t, NULL, v)
  {
    LapOpen(v0, n, got, v, t, prevp, p);
    GrowsOnce(v0.segs, got, n);
  }

  /**
   Null leaves the state as it was exactly when the request is below 2^32 units or fits as it is, in which case there is
   no null. Otherwise regions may have come in, and they stay in the list.
   */
  lemma NullKeepsExactly(v0: View, n: nat)
    requires Canonical(v0.segs)
    ensures n < U32 || !NoneLarge(v0.segs, n) <==>
      forall got: seq<Seg>, t: nat, v: View :: Allocated(v0, n, got, t, NULL, v) ==> v == v0
  {
    if n < U32 || !NoneLarge(v0.segs, n) {
      forall got: seq<Seg>, t: nat, v: View | Allocated(v0, n, got, t, NULL, v) ensures v == v0 {
        AllocatedMeans(v0, n, got, t, NULL, v);
        if !NoneLarge(v0.segs, n) {
          GrowsWhenNeeded(v0.segs, got, n);
        }
      }
    } else {
      var got := GrowsOften(v0.segs, n, 2);
      var v := WithRegions(v0, got);
      assert AllocatedParts(v0, n, got, 0, NULL, v);
      assert Allocated(v0, n, got, 0, NULL, v);
      assert |v.segs| == |v0.segs| + 2;
    }
  }

  lemma FreeUndoesTaken(v: View, j: nat, n: nat, top: nat)
    requires Safe(v.segs, v.live, v.arena, top) && 0 < j < |v.segs| && 0 < n <= v.segs[j].len
    ensures var b := TakenFrom(v.segs, j, n);
      Insert(TakeAt(v.segs, j, n), b) == v.segs && v.live[b.at := n] - {b.at} == v.live
  {
    var b := TakenFrom(v.segs, j, n);
    SafeTake(v.segs, v.live, v.arena, top, j, n);
    FreeUndoesTake(v.segs, j, n);
    assert v.live[b.at := n] - {b.at} == v.live;
  }

  lemma FreedTaken(ps: seq<nat>, ss: seq<nat>, freep: nat, v: View, j: nat, n: nat)
    requires Sound(ps, ss, freep, v) && 0 < j < |v.segs| && 0 < n <= v.segs[j].len
    ensures var t, b := Taken(v, j, n), TakenFrom(v.segs, j, n).at;
      && t.segs != [] && b in t.live
      && Freed(t, b) == View(v.segs, Gap(t.segs, b), v.live, v.arena)
  {
    Open(ps, ss, freep, v);
    FreeUndoesTaken(v, j, n, |ss|);
  }

  lemma TakenByMalloc(v0: View, n: nat, t: nat, ap: nat, v: View)
    requires v0.segs != [] && Allocated(v0, n, [], t, ap, v) && ap != NULL
    ensures v0.f < |v0.segs| && FirstFit(v0.segs, v0.f, t, n)
    ensures var j := Pos(v0.segs, v0.f, t);
      j > 0 && v0.segs[j].len >= n && v == Taken(v0, j, n) && ap - 1 == TakenFrom(v0.segs, j, n).at
  {
    AllocatedMeans(v0, n, [], t, ap, v);
    assert WithRegions(v0, []) == v0;
  }

  /** Freeing what was just allocated without growth gives back the list, the live blocks and the units. */
  lemma FreeUndoesMalloc(ps: seq<nat>, ss: seq<nat>, freep: nat, v0: View, n: nat, t: nat, ap: nat, v: View)
    requires Sound(ps, ss, freep, v0) && v0.segs != [] && n > 0
    requires Allocated(v0, n, [], t, ap, v) && ap != NULL
    ensures ap - 1 in v.live && v.segs != []
    ensures Freed(v, ap - 1) == View(v0.segs, Gap(v.segs, ap - 1), v0.live, v0.arena)
  {
    TakenByMalloc(v0, n, t, ap, v);
    FreedTaken(ps, ss, freep, v0, Pos(v0.segs, v0.f, t), n);
  }

  // ----- frees in a row -----

  /** Different live blocks. */
  ghost predicate AllLive(live: map<nat, nat>, bs: seq<nat>) {
    && (forall i: nat {:trigger bs[i]} :: i < |bs| ==> bs[i] in live)
    && (forall i: nat, j: nat {:trigger bs[i], bs[j]} :: i < j < |bs| ==> bs[i] != bs[j])
  }

  /** Their units. */
  ghost function Blocks(live: map<nat, nat>, bs: seq<nat>): (r: seq<Seg>)
    requires AllLive(live, bs)
  {
    if bs == [] then [] else Blocks(live, Init(bs)) + [Seg(Last(bs), live[Last(bs)])]
  }

  /** The blocks freed one after the other. */
  ghost function FreedAll(v: View, bs: seq<nat>): (w: View)
    requires v.segs != [] && AllLive(v.live, bs)
    ensures w.segs != [] && w.arena == v.arena
    ensures forall b: nat {:trigger b in w.live} :: b in w.live <==> b in v.live && b !in bs
    ensures forall b: nat {:trigger b in w.live} :: b in w.live ==> w.live[b] == v.live[b]
    ensures w.segs == InsertAll(v.segs, Blocks(v.live, bs))
  {
    if bs == [] then v
    else
      assert bs == Init(bs) + [Last(bs)];
      BlocksLast(v.live, bs);
      Freed(FreedAll(v, Init(bs)), Last(bs))
  }

  lemma BlocksLast(live: map<nat, nat>, bs: seq<nat>)
    requires AllLive(live, bs) && bs != []
    ensures Last(bs) in live && Last(bs) !in Init(bs)
    ensures var all := Blocks(live, bs);
      all != [] && Init(all) == Blocks(live, Init(bs)) && Last(all) == Seg(Last(bs), live[Last(bs)])
  {}

  lemma {:induction false} BlockAt(live: map<nat, nat>, bs: seq<nat>, i: nat)
    requires AllLive(live, bs) && i < |bs|
    ensures |Blocks(live, bs)| == |bs| && Blocks(live, bs)[i] == Seg(bs[i], live[bs[i]])
  {
    BlocksLast(live, bs);
    if |bs| > 1 {
      BlockAt(live, Init(bs), if i == |bs| - 1 then 0 else i);
    } else {
      assert Init(bs) == [];
    }
  }

  lemma BlocksApart(v: View, bs: seq<nat>, top: nat)
    requires Safe(v.segs, v.live, v.arena, top) && AllLive(v.live, bs)
    ensures AllApart(v.segs, Blocks(v.live, bs))
  {
    var all := Blocks(v.live, bs);
    forall i: nat | i < |all| ensures FreeList.Apart(v.segs, all[i]) {
      BlocksSize(v.live, bs);
      BlockAt(v.live, bs, i);
      HeldFact(v.segs, v.live, v.arena, top, bs[i]);
    }
    forall i: nat, j: nat | i < j < |all| ensures Range(all[i].at, all[i].End()) !! Range(all[j].at, all[j].End()) {
      BlocksSize(v.live, bs);
      BlockAt(v.live, bs, i);
      BlockAt(v.live, bs, j);
      DisjointFact(v.live, bs[i], bs[j]);
    }
  }

  lemma {:induction false} BlocksSize(live: map<nat, nat>, bs: seq<nat>)
    requires AllLive(live, bs)
    ensures |Blocks(live, bs)| == |bs|
  {
    if bs != [] {
      BlocksSize(live, Init(bs));
    }
  }

  lemma BlocksSame(live: map<nat, nat>, bs: seq<nat>, cs: seq<nat>)
    requires AllLive(live, bs) && AllLive(live, cs) && forall b :: b in bs ==> b in cs
    ensures forall s :: s in Blocks(live, bs) ==> s in Blocks(live, cs)
  {
    forall s | s in Blocks(live, bs) ensures s in Blocks(live, cs) {
      BlocksSize(live, bs);
      var i: nat :| i < |Blocks(live, bs)| && Blocks(live, bs)[i] == s;
      BlockAt(live, bs, i);
      assert bs[i] in cs;
      var j: nat :| j < |cs| && cs[j] == bs[i];
      BlockAt(live, cs, j);
    }
  }

  lemma InsertsCommute(v: View, bs: seq<nat>, cs: seq<nat>, top: nat)
    requires Safe(v.segs, v.live, v.arena, top)
    requires AllLive(v.live, bs) && AllLive(v.live, cs) && forall b :: b in bs <==> b in cs
    ensures InsertAll(v.segs, Blocks(v.live, bs)) == InsertAll(v.segs, Blocks(v.live, cs))
  {
    BlocksApart(v, bs, top);
    BlocksApart(v, cs, top);
    BlocksSame(v.live, bs, cs);
    BlocksSame(v.live, cs, bs);
    FreeInAnyOrder(v.segs, Blocks(v.live, bs), Blocks(v.live, cs));
  }

  lemma LiveCommutes(v: View, bs: seq<nat>, cs: seq<nat>)
    requires v.segs != [] && AllLive(v.live, bs) && AllLive(v.live, cs) && forall b :: b in bs <==> b in cs
    ensures FreedAll(v, bs).live == FreedAll(v, cs).live
  {
    var l, m := FreedAll(v, bs).live, FreedAll(v, cs).live;
    forall b: nat ensures b in l <==> b in m {}
    forall b: nat | b in l ensures l[b] == m[b] {}
  }

  /** The order in which live blocks are freed does not matter: list, live blocks and units come out the same. */
  lemma FreesCommute(ps: seq<nat>, ss: seq<nat>, freep: nat, v: View, bs: seq<nat>, cs: seq<nat>)
    requires Sound(ps, ss, freep, v) && v.segs != []
    requires AllLive(v.live, bs) && AllLive(v.live, cs) && forall b :: b in bs <==> b in cs
    ensures var w, x := FreedAll(v, bs), FreedAll(v, cs); w.segs == x.segs && w.live == x.live && w.arena == x.arena
  {
    Open(ps, ss, freep, v);
    InsertsCommute(v, bs, cs, |ss|);
    LiveCommutes(v, bs, cs);
  }

  // ----- the allocator -----

  class Heap {
    const ptr: array<nat>
    const size: array<nat>
    var freep: nat
    var arena: set<nat>      // units obtained from tb_sbrk, as the kernel knows them

    ghost var v: View
    ghost var refused: nat   // how often tb_sbrk has failed

    ghost predicate Valid()
      reads this, ptr, size
    {
      && ptr != size && ptr.Length == size.Length > BASE && v.arena == arena
      && v.f < |v.segs| && |v.arena| <= size.Length && (freep == NULL ==> v.live == map[])
      && Sound(ptr[..], size[..], freep, v)
    }

    /** The heap before the first call: `freep` is null and nothing was obtained. */
    constructor (top: nat)
      requires top > BASE
      ensures Valid() && fresh(ptr) && fresh(size) && size.Length == top
      ensures freep == NULL && v == View([BASE_SEG], 0, map[], {}) && refused == 0
    {
      ptr := new nat[top](_ => 0);
      size := new nat[top](_ => 0);
      freep, arena := NULL, {};
      v, refused := View([BASE_SEG], 0, map[], {}), 0;
      new;
      EmptySound(ptr[..], size[..]);
    }

    /** tb_sbrk: a region apart from all earlier ones, or failure, as the kernel likes. */
    method Sbrk(n: nat) returns (a: nat)
      requires Valid() && n > 0
      modifies this`refused
      ensures a == NULL ==> refused == old(refused) + 1
      ensures a != NULL ==> a > BASE && a + n <= size.Length && UnitsAt(a, n) !! arena && refused == old(refused)
    {
      a := *;
      if !(a > BASE && a + n <= size.Length && UnitsAt(a, n) !! arena) {
        a := NULL;
        refused := refused + 1;
      }
    }

    /** A caller writes into the payload of a block it holds. */
    method Store(ghost b: nat, a: nat, x: nat, y: nat)
      requires Valid() && b in v.live && b < a < b + v.live[b] && a < size.Length
      modifies ptr, size
      ensures Valid() && ptr[..] == old(ptr[..])[a := x] && size[..] == old(size[..])[a := y]
    {
      PayloadApart(ptr[..], size[..], freep, v, b, a, x, y);
      ptr[a], size[a] := x, y;
    }

    /** The first merging test of tb_free: with the block above. */
    method JoinAbove(p: nat, bp: nat)
      requires ptr != size && p < ptr.Length == size.Length && bp < ptr.Length && ptr[p] < ptr.Length && bp != ptr[p]
      modifies ptr, size
      ensures JoinedAbove(old(ptr[..]), old(size[..]), ptr[..], size[..], p, bp)
    {
      if bp + size[bp] == ptr[p] {
        size[bp] := size[bp] + size[ptr[p]];
        ptr[bp] := ptr[ptr[p]];
      } else {
        ptr[bp] := ptr[p];
      }
    }

    /** The second merging test of tb_free: with the block below. */
    method JoinBelow(p: nat, bp: nat)
      requires ptr != size && p < ptr.Length == size.Length && bp < ptr.Length && p != bp
      modifies ptr, size
      ensures JoinedBelow(old(ptr[..]), old(size[..]), ptr[..], size[..], p, bp)
    {
      if p + size[p] == bp {
        size[p] := size[p] + size[bp];
        ptr[p] := ptr[bp];
      } else {
        ptr[p] := bp;
      }
    }

    /** Both tests: the headers record the list with the block in it. */
    method Splice(p: nat, bp: nat)
      requires Valid() && freep != NULL && bp in v.live
      requires IsGap(v.segs, Gap(v.segs, bp), bp) && p == v.segs[Gap(v.segs, bp)].at
      modifies ptr, size
      ensures p != NULL && Sound(ptr[..], size[..], p, Freed(v, bp))
    {
      ghost var ps, ss, g := ptr[..], size[..], Gap(v.segs, bp);
      Open(ps, ss, freep, v);
      ChainFact(ps, ss, v.segs, g);
      HeaderFact(ss, v.live, bp);
      HeldFact(v.segs, v.live, v.arena, |ss|, bp);
      ChainFact(ps, ss, v.segs, Next(v.segs, g));
      NotInGap(v.segs, g, bp, Next(v.segs, g));
      JoinAbove(p, bp);
      ghost var ps1, ss1 := ptr[..], size[..];
      JoinBelow(p, bp);
      JoinsSplice(ps, ss, ps1, ss1, ptr[..], size[..], v.segs, g, Seg(bp, v.live[bp]));
      FreedSound(ps, ss, ptr[..], size[..], freep, v, bp);
    }

    /** The search loop of tb_free: from `freep` around the circle to the gap the block falls into. */
    method Search(bp: nat) returns (p: nat)
      requires Valid() && freep != NULL && bp in v.live
      ensures IsGap(v.segs, Gap(v.segs, bp), bp) && p == v.segs[Gap(v.segs, bp)].at
    {
      Open(ptr[..], size[..], freep, v);
      p := freep;
      ghost var i: nat, g: nat := v.f, Gap(v.segs, bp);
      HeldFact(v.segs, v.live, v.arena, size.Length, bp);
      ApartGap(v.segs, Seg(bp, v.live[bp]));
      ChainFact(ptr[..], size[..], v.segs, i);
      while !Stops(p, ptr[p], bp)
        invariant i < |v.segs| && p == v.segs[i].at && ChainedAt(ptr[..], size[..], v.segs, i)
        decreases StepsTo(v.segs, i, g)
      {
        StopsAtGap(v.segs, i, bp);
        NearerGap(v.segs, i, g);
        p := ptr[p];
        i := Next(v.segs, i);
        ChainFact(ptr[..], size[..], v.segs, i);
      }
      StopsAtGap(v.segs, i, bp);
      GapIs(v.segs, i, bp);
    }

    /** `freep` moves, and the state becomes the one the headers record. */
    method Rove(p: nat, ghost v': View)
      requires ptr != size && ptr.Length == size.Length > BASE && p != NULL
      requires v'.f < |v'.segs| && |v'.arena| <= size.Length && v'.arena == arena
      requires Sound(ptr[..], size[..], p, v')
      modifies this`freep, this`v
      ensures Valid() && freep == p && v == v'
    {
      freep, v := p, v';
    }

    /** tb_free: the block goes back into the list, merged with its neighbours. */
    method TbFree(ap: nat)
      requires Valid() && ap > 0 && ap - 1 in v.live
      modifies this`freep, this`v, ptr, size
      ensures Valid() && freep != NULL && v == Freed(old(v), ap - 1)
      ensures IsGap(old(v).segs, v.f, ap - 1)
    {
      var p := Search(ap - 1);
      Splice(p, ap - 1);
      Rove(p, Freed(v, ap - 1));
    }

    /** A region from the kernel gets its header; to the caller it is a live block. */
    method Grant(hp: nat, nu: nat)
      requires Valid() && freep != NULL
      requires hp > BASE && nu > 0 && hp + nu <= size.Length && UnitsAt(hp, nu) !! arena
      modifies this`v, this`arena, size
      ensures Valid() && v == Granted(old(v), hp, nu) && hp !in old(v).live && Apart(old(v).segs, Seg(hp, nu))
      ensures |arena| > |old(arena)|
    {
      GrantedSound(ptr[..], size[..], freep, v, hp, nu);
      size[hp] := nu;
      arena := arena + UnitsAt(hp, nu);
      v := Granted(v, hp, nu);
    }

    /** morecore: a fresh region goes through tb_free into the list; null when tb_sbrk fails. */
    method Morecore(nunits: nat) returns (p: nat, ghost b: Seg)
      requires Valid() && freep != NULL
      modifies this, ptr, size
      ensures Valid() && freep != NULL && p == (if refused == old(refused) then freep else NULL)
      ensures p == NULL ==> refused == old(refused) + 1 && v == old(v)
      ensures p != NULL ==> b.len == Asked(nunits) && Apart(old(v).segs, b) && |arena| > |old(arena)|
      ensures p != NULL && nunits < 0x1_0000_0000 ==> b.len == if nunits <= 4096 then 4096 else nunits
      ensures p != NULL && nunits >= 0x1_0000_0000 ==>
        var low := nunits % 0x1_0000_0000; b.len == if low <= 4096 then 4096 else low
      ensures p != NULL ==> var o := old(v);
        v == View(Insert(o.segs, b), Gap(o.segs, b.at), o.live, o.arena + UnitsAt(b.at, b.len))
    {
      var nu := Asked(nunits);
      AskedIs(nunits);
      var hp := Sbrk(nu);
      if hp == NULL {
        return NULL, BASE_SEG;
      }
      Grant(hp, nu);
      TbFree(hp + 1);
      assert old(v).live[hp := nu] - {hp} == old(v).live;
      return freep, Seg(hp, nu);
    }

    /** The header writes of tb_malloc: `p` is unlinked, or the block is cut from its end. */
    method Unlink(prevp: nat, p: nat, n: nat) returns (b: nat)
      requires ptr != size && ptr.Length == size.Length && prevp < ptr.Length && p < size.Length
      requires 0 < n <= size[p] && p + size[p] <= size.Length
      modifies ptr, size
      ensures b == p + old(size[p]) - n
      ensures old(size[p]) == n ==> size[..] == old(size[..]) && ptr[..] == old(ptr[..])[prevp := old(ptr[p])]
      ensures old(size[p]) != n ==>
        ptr[..] == old(ptr[..]) && size[..] == old(size[..])[p := old(size[p]) - n][b := n]
    {
      b := p;
      if size[p] == n {
        ptr[prevp] := ptr[p];
      } else {
        size[p] := size[p] - n;
        b := p + size[p];
        size[b] := n;
      }
    }

    /** A block leaves the list whole, or is cut from the end of its segment. */
    method Carve(prevp: nat, p: nat, n: nat, ghost j: nat) returns (b: nat)
      requires Valid() && freep != NULL && 0 < j < |v.segs| && 0 < n <= v.segs[j].len
      requires prevp == v.segs[j - 1].at && p == v.segs[j].at
      modifies ptr, size
      ensures b == TakenFrom(v.segs, j, n).at && prevp != NULL
      ensures Sound(ptr[..], size[..], prevp, Taken(v, j, n))
    {
      ghost var ps, ss := ptr[..], size[..];
      NodesFit(ps, ss, freep, v, j, n);
      b := Unlink(prevp, p, n);
      TakenSound(ps, ss, ptr[..], size[..], freep, v, j, n);
    }

    /** The first call makes `base` the list. */
    method Start()
      requires Valid()
      modifies this`freep, ptr, size
      ensures Valid() && freep != NULL
    {
      if freep == NULL {
        StartSound(ptr[..], size[..], v);
        ptr[BASE] := BASE;
        size[BASE] := 0;
        freep := BASE;
      }
    }

    /** The block at the cursor is handed out. */
    method TakeFound(ghost v0: View, ghost got: seq<Seg>, n: nat, ghost t: nat, prevp: nat, p: nat) returns (ap: nat)
      requires Valid() && freep != NULL && n > 0 && v0.segs != []
      requires Lapping(v0, n, got, v, t, prevp, p) && p < size.Length && size[p] >= n
      modifies this`freep, this`v, ptr, size
      ensures Valid() && freep != NULL && ap != NULL && Allocated(v0, n, got, t, ap, v)
      ensures ap - 1 in v.live && v.live[ap - 1] == n
    {
      LapFits(v0, n, got, ptr[..], size[..], freep, v, t, prevp, p);
      ghost var j := Pos(v.segs, v.f, t);
      AllocatedSome(v0, n, got, v, t, prevp, p, j);
      var b := Carve(prevp, p, n, j);
      Rove(prevp, Taken(v, j, n));
      ap := b + 1;
    }

    /** The lap found nothing: the heap grows and a new lap starts, or tb_sbrk fails. */
    method Grow(ghost v0: View, ghost got: seq<Seg>, n: nat, ghost t: nat, ghost prevp: nat)
      returns (p: nat, ghost b: Seg)
      requires Valid() && freep != NULL && n > 0 && v0.segs != []
      requires Lapping(v0, n, got, v, t, prevp, freep) && freep < size.Length && size[freep] < n
      modifies this, ptr, size
      ensures Valid() && freep != NULL && p == (if refused == old(refused) then freep else NULL)
      ensures p == NULL ==> refused == old(refused) + 1 && Allocated(v0, n, got, t, NULL, v)
      ensures p != NULL ==> p < ptr.Length && |arena| > |old(arena)|
      ensures p != NULL ==> Lapping(v0, n, got + [b], v, 1, p, ptr[p])
    {
      ghost var v1, p1 := v, freep;
      LapFails(v0, n, got, ptr[..], size[..], freep, v, t, prevp);
      AllocatedNone(v0, n, got, v, t, prevp, freep);
      p, b := Morecore(n);
      if p != NULL {
        LapAgain(v0, n, got, v1, t, prevp, p1, ptr[..], size[..], freep, v, b);
      }
    }

    /** tb_malloc: next fit from `freep`, growing the heap when a whole lap finds nothing; null when tb_sbrk fails. */
    method TbMalloc(nbytes: nat) returns (ap: nat, ghost got: seq<Seg>, ghost t: nat)
      requires Valid() && nbytes < U64
      modifies this, ptr, size
      ensures Valid() && freep != NULL
      ensures refused == old(refused) + if ap == NULL then 1 else 0
      ensures Allocated(old(v), UnitsFor(nbytes), got, t, ap, v)
      ensures ap != NULL ==> ap - 1 in v.live
      ensures ap != NULL && nbytes <= 0xFFFF_FFFF_FFFF_FFF0 ==> nbytes <= 16 * (v.live[ap - 1] - 1) < nbytes + 16
      ensures ap != NULL && nbytes > 0xFFFF_FFFF_FFFF_FFF0 ==> v.live[ap - 1] == 1
    {
      var n := UnitsFor(nbytes);
      UnitsLeast(nbytes);
      got, t := [], 1;
      Start();
      var prevp := freep;
      LapBegins(ptr[..], size[..], freep, v, n);
      var p := ptr[prevp];
      while true
        invariant Valid() && freep != NULL && refused == old(refused)
        invariant Lapping(old(v), n, got, v, t, prevp, p)
        decreases size.Length - |arena|, |v.segs| - t
      {
        LapGoesOn(old(v), n, got, ptr[..], size[..], freep, v, t, prevp, p);
        if size[p] >= n {
          ap := TakeFound(old(v), got, n, t, prevp, p);
          return;
        }
        if p == freep {
          ghost var b: Seg;
          p, b := Grow(old(v), got, n, t, prevp);
          if p == NULL {
            return NULL, got, t;
          }
          got, t := got + [b], 0;
        }
        prevp := p;
        p := ptr[p];
        t := t + 1;
      }
    }
  }
}
