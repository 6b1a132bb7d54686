/** Units of memory: which are free, which belong to live blocks, and that together they are those obtained. */
module Arenas {
  import opened FreeList
  import opened Sets

  ghost predicate Held(b: nat) { true }

  function UnitsAt(b: nat, n: nat): set<nat> {
    Range(b, b + n)
  }

  ghost function LiveUnits(live: map<nat, nat>): set<nat> {
    set b, x | b in live && x in UnitsAt(b, live[b]) :: x
  }

  /** No unit of a live block is in `u`. */
  ghost predicate LiveApart(live: map<nat, nat>, u: set<nat>) {
    forall b: nat {:trigger Held(b)} :: b in live ==> UnitsAt(b, live[b]) !! u
  }

  /** Live blocks share no unit. */
  ghost predicate LiveDisjoint(live: map<nat, nat>) {
    forall b: nat, c: nat {:trigger Held(b), Held(c)} :: b in live && c in live && b != c ==>
      UnitsAt(b, live[b]) !! UnitsAt(c, live[c])
  }

  ghost predicate LiveAbove(live: map<nat, nat>) {
    forall b: nat {:trigger Held(b)} :: b in live ==> b > BASE && live[b] > 0
  }

  /** Free units and live blocks share no unit and together are exactly the units obtained from tb_sbrk. */
  ghost predicate Parted(free: set<nat>, live: map<nat, nat>, arena: set<nat>, top: nat) {
    && LiveAbove(live) && LiveApart(live, free) && LiveDisjoint(live)
    && arena == free + LiveUnits(live)
    && (forall x | x in arena :: BASE < x < top)
  }

  /** Heap safety: the list consists of `base` and the maximal runs of free units, and the units are parted. */
  ghost predicate Safe(segs: seq<Seg>, live: map<nat, nat>, arena: set<nat>, top: nat) {
    Canonical(segs) && Parted(Units(segs), live, arena, top)
  }

  lemma HeldIn(live: map<nat, nat>, b: nat, x: nat)
    requires b in live && x in UnitsAt(b, live[b])
    ensures x in LiveUnits(live)
  {}

  lemma IsHeld(live: map<nat, nat>, x: nat) returns (b: nat)
    requires x in LiveUnits(live)
    ensures b in live && x in UnitsAt(b, live[b])
  {
    b :| b in live && x in UnitsAt(b, live[b]);
  }

  lemma ApartFact(live: map<nat, nat>, u: set<nat>, b: nat)
    requires LiveApart(live, u) && b in live
    ensures UnitsAt(b, live[b]) !! u
  {
    assert Held(b);
  }

  lemma DisjointFact(live: map<nat, nat>, b: nat, c: nat)
    requires LiveDisjoint(live) && b in live && c in live && b != c
    ensures UnitsAt(b, live[b]) !! UnitsAt(c, live[c])
  {
    assert Held(b) && Held(c);
  }

  lemma AboveFact(live: map<nat, nat>, b: nat)
    requires LiveAbove(live) && b in live
    ensures b > BASE && live[b] > 0
  {
    assert Held(b);
  }

  lemma LiveUnitsApart(live: map<nat, nat>, u: set<nat>)
    requires LiveApart(live, u)
    ensures LiveUnits(live) !! u
  {
    forall x | x in LiveUnits(live) ensures x !in u {
      var c := IsHeld(live, x);
      ApartFact(live, u, c);
    }
  }

  // ----- a block leaves or joins the live ones -----

  lemma LiveWithout(live: map<nat, nat>, b: nat)
    requires b in live
    ensures LiveUnits(live) == LiveUnits(live - {b}) + UnitsAt(b, live[b])
  {
    var rest := live - {b};
    forall x | x in LiveUnits(live) ensures x in LiveUnits(rest) + UnitsAt(b, live[b]) {
      var c := IsHeld(live, x);
      if c != b {
        HeldIn(rest, c, x);
      }
    }
    forall x | x in LiveUnits(rest) ensures x in LiveUnits(live) {
      var c := IsHeld(rest, x);
      HeldIn(live, c, x);
    }
    forall x | x in UnitsAt(b, live[b]) ensures x in LiveUnits(live) {
      HeldIn(live, b, x);
    }
  }

  lemma DisjointWithout(live: map<nat, nat>, b: nat)
    requires LiveDisjoint(live) && b in live
    ensures LiveDisjoint(live - {b}) && LiveApart(live - {b}, UnitsAt(b, live[b]))
  {
    var rest := live - {b};
    forall c: nat, d: nat | c in rest && d in rest && c != d ensures UnitsAt(c, rest[c]) !! UnitsAt(d, rest[d]) {
      DisjointFact(live, c, d);
    }
    forall c: nat | c in rest ensures UnitsAt(c, rest[c]) !! UnitsAt(b, live[b]) {
      DisjointFact(live, c, b);
    }
  }

  lemma ApartBoth(live: map<nat, nat>, u: set<nat>, v: set<nat>)
    requires LiveApart(live, u) && LiveApart(live, v)
    ensures LiveApart(live, u + v)
  {
    forall c: nat | c in live ensures UnitsAt(c, live[c]) !! u + v {
      ApartFact(live, u, c);
      ApartFact(live, v, c);
    }
  }

  lemma ApartLess(live: map<nat, nat>, live': map<nat, nat>, u: set<nat>, v: set<nat>)
    requires LiveApart(live, u) && v <= u && forall c :: c in live' ==> c in live && live'[c] == live[c]
    ensures LiveApart(live', v)
  {
    forall c: nat | c in live' ensures UnitsAt(c, live'[c]) !! v {
      ApartFact(live, u, c);
    }
  }

  lemma PartFree(free: set<nat>, live: map<nat, nat>, arena: set<nat>, top: nat, b: nat)
    requires Parted(free, live, arena, top) && b in live
    ensures Parted(free + UnitsAt(b, live[b]), live - {b}, arena, top)
  {
    var u, rest := UnitsAt(b, live[b]), live - {b};
    DisjointWithout(live, b);
    ApartLess(live, rest, free, free);
    ApartBoth(rest, free, u);
    LiveWithout(live, b);
    forall c: nat | c in rest ensures c > BASE && rest[c] > 0 {
      AboveFact(live, c);
    }
  }

  lemma DisjointWith(live: map<nat, nat>, b: nat, n: nat)
    requires LiveDisjoint(live) && b !in live && LiveApart(live, UnitsAt(b, n))
    ensures LiveDisjoint(live[b := n])
  {
    var more := live[b := n];
    forall c: nat, d: nat | c in more && d in more && c != d ensures UnitsAt(c, more[c]) !! UnitsAt(d, more[d]) {
      if c == b {
        ApartFact(live, UnitsAt(b, n), d);
      } else if d == b {
        ApartFact(live, UnitsAt(b, n), c);
      } else {
        DisjointFact(live, c, d);
      }
    }
  }

  lemma ApartWith(live: map<nat, nat>, b: nat, n: nat, u: set<nat>)
    requires b !in live && LiveApart(live, u) && UnitsAt(b, n) !! u
    ensures LiveApart(live[b := n], u)
  {
    var more := live[b := n];
    forall c: nat | c in more ensures UnitsAt(c, more[c]) !! u {
      if c != b {
        ApartFact(live, u, c);
      }
    }
  }

  lemma NotLive(live: map<nat, nat>, b: nat, n: nat)
    requires LiveAbove(live) && LiveApart(live, UnitsAt(b, n)) && n > 0
    ensures b !in live
  {
    if b in live {
      AboveFact(live, b);
      ApartFact(live, UnitsAt(b, n), b);
    }
  }

  lemma LiveWith(live: map<nat, nat>, b: nat, n: nat)
    requires b !in live
    ensures LiveUnits(live[b := n]) == LiveUnits(live) + UnitsAt(b, n)
  {
    assert live[b := n] - {b} == live;
    LiveWithout(live[b := n], b);
  }

  lemma AboveWith(live: map<nat, nat>, b: nat, n: nat)
    requires LiveAbove(live) && b > BASE && n > 0
    ensures LiveAbove(live[b := n])
  {
    var more := live[b := n];
    forall c: nat | c in more ensures c > BASE && more[c] > 0 {
      if c != b {
        AboveFact(live, c);
      }
    }
  }

  lemma PartHold(free: set<nat>, live: map<nat, nat>, arena: set<nat>, top: nat, b: nat, n: nat)
    requires Parted(free, live, arena, top) && BASE < b && n > 0 && b + n <= top
    requires UnitsAt(b, n) !! free && LiveApart(live, UnitsAt(b, n))
    ensures b !in live && Parted(free, live[b := n], arena + UnitsAt(b, n), top)
  {
    NotLive(live, b, n);
    DisjointWith(live, b, n);
    ApartWith(live, b, n, free);
    LiveWith(live, b, n);
    AboveWith(live, b, n);
  }

  lemma Left(free: set<nat>, rest: set<nat>, u: set<nat>, l: set<nat>)
    requires rest !! u && l !! u && free == rest + u
    ensures (free + l) - u == rest + l && (rest + l) + u == free + l
  {}

  lemma HeldFact(segs: seq<Seg>, live: map<nat, nat>, arena: set<nat>, top: nat, b: nat)
    requires Safe(segs, live, arena, top) && b in live
    ensures Apart(segs, Seg(b, live[b])) && b + live[b] <= top
  {
    AboveFact(live, b);
    ApartFact(live, Units(segs), b);
    HeldIn(live, b, b + live[b] - 1);
  }

  lemma InsertFacts(segs: seq<Seg>, b: Seg)
    requires Canonical(segs) && Apart(segs, b)
    ensures IsGap(segs, Gap(segs, b.at), b.at) && Canonical(Insert(segs, b))
    ensures Units(Insert(segs, b)) == Units(segs) + UnitsAt(b.at, b.len)
  {
    ApartGap(segs, b);
    InsertCanonical(segs, Gap(segs, b.at), b);
    InsertUnits(segs, Gap(segs, b.at), b);
  }

  /** tb_free: the block's units go over to the list. */
  lemma SafeFree(segs: seq<Seg>, live: map<nat, nat>, arena: set<nat>, top: nat, b: nat)
    requires Safe(segs, live, arena, top) && b in live
    ensures Safe(Insert(segs, Seg(b, live[b])), live - {b}, arena, top)
  {
    HeldFact(segs, live, arena, top, b);
    InsertFacts(segs, Seg(b, live[b]));
    PartFree(Units(segs), live, arena, top, b);
  }

  /** A region comes in from the kernel. */
  lemma SafeHold(segs: seq<Seg>, live: map<nat, nat>, arena: set<nat>, top: nat, b: nat, n: nat)
    requires Safe(segs, live, arena, top) && b > BASE && n > 0 && b + n <= top && UnitsAt(b, n) !! arena
    ensures b !in live && Safe(segs, live[b := n], arena + UnitsAt(b, n), top)
  {
    PartHold(Units(segs), live, arena, top, b, n);
  }

  lemma PartTake(free: set<nat>, live: map<nat, nat>, arena: set<nat>, top: nat, rest: set<nat>, b: nat, n: nat)
    requires Parted(free, live, arena, top) && n > 0 && BASE < b
    requires rest !! UnitsAt(b, n) && rest + UnitsAt(b, n) == free
    ensures b !in live && b + n <= top && Parted(rest, live[b := n], arena, top)
  {
    ApartLess(live, live, free, rest);
    ApartLess(live, live, free, UnitsAt(b, n));
    LiveUnitsApart(live, UnitsAt(b, n));
    Left(free, rest, UnitsAt(b, n), LiveUnits(live));
    assert b + n - 1 in UnitsAt(b, n);
    assert b + n - 1 in arena;
    PartHold(rest, live, rest + LiveUnits(live), top, b, n);
  }

  /** tb_malloc: the block's units leave the list. */
  lemma SafeTake(segs: seq<Seg>, live: map<nat, nat>, arena: set<nat>, top: nat, j: nat, n: nat)
    requires Safe(segs, live, arena, top) && 0 < j < |segs| && 0 < n <= segs[j].len
    ensures var b := TakenFrom(segs, j, n);
      b.at !in live && b.End() <= top && b.at > BASE && Safe(TakeAt(segs, j, n), live[b.at := n], arena, top)
  {
    var b := TakenFrom(segs, j, n);
    TakeCanonical(segs, j, n);
    TakeFacts(segs, j, n);
    PartTake(Units(segs), live, arena, top, Units(TakeAt(segs, j, n)), b.at, n);
  }

  lemma TakeFacts(segs: seq<Seg>, j: nat, n: nat)
    requires Canonical(segs) && 0 < j < |segs| && 0 < n <= segs[j].len
    ensures var b, rest := TakenFrom(segs, j, n), Units(TakeAt(segs, j, n));
      BASE < b.at && rest !! UnitsAt(b.at, n) && rest + UnitsAt(b.at, n) == Units(segs)
  {
    TakeUnits(segs, j, n);
  }

  // ----- conservation -----

  ghost function AnyKey(live: map<nat, nat>): (b: nat)
    requires live != map[]
    ensures b in live
  {
    var b :| b in live;
    b
  }

  /** The units handed out. */
  ghost function LiveSum(live: map<nat, nat>): nat
    decreases |live|
  {
    if live == map[] then 0 else
      var b := AnyKey(live);
      assert (live - {b}).Keys == live.Keys - {b} && |live.Keys| == |live|;
      live[b] + LiveSum(live - {b})
  }

  lemma {:induction false} LiveSize(live: map<nat, nat>)
    requires LiveDisjoint(live)
    ensures |LiveUnits(live)| == LiveSum(live)
    decreases |live|
  {
    if live == map[] {
      assert LiveUnits(live) == {};
    } else {
      var b := AnyKey(live);
      assert (live - {b}).Keys == live.Keys - {b} && |live.Keys| == |live|;
      DisjointWithout(live, b);
      LiveSize(live - {b});
      LiveWithout(live, b);
      LiveUnitsApart(live - {b}, UnitsAt(b, live[b]));
    }
  }

  /** No unit is lost: free and live units together are as many as tb_sbrk has granted. */
  lemma UnitsConserved(segs: seq<Seg>, live: map<nat, nat>, arena: set<nat>, top: nat)
    requires Safe(segs, live, arena, top)
    ensures |arena| == SumLen(segs) + LiveSum(live)
  {
    UnitsSize(segs);
    LiveSize(live);
    LiveUnitsApart(live, Units(segs));
  }
}
