/**
 The allocator's free list as a value: segments of free units in address order, the sentinel `base` first. Addresses
 count units of sizeof(Header) bytes.
 */
module FreeList {
  import opened Seqs
  import opened Sets

  const BASE: nat := 1

  datatype Seg = Seg(at: nat, len: nat) {
    function End(): nat { at + len }
  }

  const BASE_SEG: Seg := Seg(BASE, 0)

  /** `base`, then segments in address order, no two of which touch. */
  ghost predicate Canonical(segs: seq<Seg>) {
    && segs != [] && segs[0] == BASE_SEG
    && (forall i: nat, j: nat {:trigger segs[i], segs[j]} :: i < j < |segs| ==> segs[i].End() < segs[j].at)
    && (forall i: nat {:trigger segs[i]} :: 0 < i < |segs| ==> segs[i].len > 0)
  }

  /** The free units. */
  function Units(segs: seq<Seg>): set<nat> {
    if segs == [] then {} else Units(Init(segs)) + Range(Last(segs).at, Last(segs).End())
  }

  lemma {:induction false} UnitsOf(segs: seq<Seg>, i: nat, x: nat)
    requires i < |segs| && segs[i].at <= x < segs[i].End()
    ensures x in Units(segs)
  {
    if i < |segs| - 1 {
      UnitsOf(Init(segs), i, x);
    }
  }

  lemma {:induction false} UnitsIn(segs: seq<Seg>, x: nat) returns (i: nat)
    requires x in Units(segs)
    ensures i < |segs| && segs[i].at <= x < segs[i].End()
  {
    if x in Units(Init(segs)) {
      i := UnitsIn(Init(segs), x);
    } else {
      i := |segs| - 1;
    }
  }

  function SumLen(segs: seq<Seg>): nat {
    if segs == [] then 0 else SumLen(Init(segs)) + Last(segs).len
  }

  lemma CanonicalInit(segs: seq<Seg>)
    requires Canonical(segs) && |segs| > 1
    ensures Canonical(Init(segs))
    ensures forall x | x in Units(Init(segs)) :: x < Last(segs).at - 1
  {
    forall x | x in Units(Init(segs)) ensures x < Last(segs).at - 1 {
      var i := UnitsIn(Init(segs), x);
      assert segs[i].End() < segs[|segs| - 1].at;
    }
  }

  /** Free units are counted once. */
  lemma {:induction false} UnitsSize(segs: seq<Seg>)
    requires Canonical(segs)
    ensures |Units(segs)| == SumLen(segs)
  {
    if |segs| > 1 {
      CanonicalInit(segs);
      UnitsSize(Init(segs));
      assert Units(Init(segs)) !! Range(Last(segs).at, Last(segs).End());
    } else {
      assert Init(segs) == [];
    }
  }

  lemma InitUnits(segs: seq<Seg>)
    requires Canonical(segs) && |segs| > 1
    ensures Canonical(Init(segs)) && Units(Init(segs)) == Units(segs) - Range(Last(segs).at, Last(segs).End())
  {
    CanonicalInit(segs);
  }

  /** The list is determined by the set of free units: it consists of `base` and the maximal runs. */
  lemma {:induction false} CanonicalUnique(s: seq<Seg>, t: seq<Seg>)
    requires Canonical(s) && Canonical(t) && Units(s) == Units(t)
    ensures s == t
    decreases |s|
  {
    if |s| == 1 || |t| == 1 {
      OnlyBase(s);
      OnlyBase(t);
    } else {
      SameLast(s, t);
      CanonicalUnique(Init(s), Init(t));
    }
  }

  lemma SameLast(s: seq<Seg>, t: seq<Seg>)
    requires Canonical(s) && Canonical(t) && |s| > 1 && |t| > 1 && Units(s) == Units(t)
    ensures Last(s) == Last(t) && Canonical(Init(s)) && Canonical(Init(t)) && Units(Init(s)) == Units(Init(t))
  {
    LastRun(s, t);
    LastRun(t, s);
    InitUnits(s);
    InitUnits(t);
  }

  lemma OnlyBase(s: seq<Seg>)
    requires Canonical(s)
    ensures Units(s) == {} <==> |s| == 1
  {
    if |s| == 1 {
      assert Init(s) == [];
    } else {
      UnitsOf(s, 1, s[1].at);
    }
  }

  /** The last run of one list does not reach beyond that of an equal one. */
  lemma LastRun(s: seq<Seg>, t: seq<Seg>)
    requires Canonical(s) && Canonical(t) && |s| > 1 && |t| > 1 && Units(s) == Units(t)
    ensures Last(s).End() <= Last(t).End() && Last(s).at >= Last(t).at
  {
    CanonicalInit(s);
    CanonicalInit(t);
    assert Last(s).End() - 1 in Units(s);
    assert Last(t).at in Units(t) && Last(t).at - 1 !in Units(t);
    RunStart(s, Last(t).at);
  }

  lemma RunStart(s: seq<Seg>, x: nat)
    requires Canonical(s) && |s| > 1 && x > 0 && x in Units(s) && x - 1 !in Units(s)
    ensures x <= Last(s).at
  {
    CanonicalInit(s);
  }

  // ----- adding a block -----

  /** Segment `g` is the last one that starts below address `a`. */
  ghost predicate IsGap(segs: seq<Seg>, g: nat, a: nat) {
    g < |segs| && segs[g].at < a && (g + 1 < |segs| ==> a < segs[g + 1].at)
  }

  function Gap(segs: seq<Seg>, a: nat): (g: nat)
    requires segs != []
    ensures g < |segs|
  {
    if |segs| == 1 || Last(segs).at < a then |segs| - 1 else Gap(Init(segs), a)
  }

  lemma {:induction false} GapIs(segs: seq<Seg>, g: nat, a: nat)
    requires Canonical(segs) && IsGap(segs, g, a)
    ensures Gap(segs, a) == g
    decreases |segs|
  {
    if |segs| > 1 && g < |segs| - 1 {
      assert segs[g + 1].at <= Last(segs).at;
      CanonicalInit(segs);
      GapIs(Init(segs), g, a);
    }
  }

  /** The block above which `b` is merged with its successor, if it touches it. */
  function MergedUp(segs: seq<Seg>, g: nat, b: Seg): Seg
    requires g < |segs|
  {
    if g + 1 < |segs| && b.End() == segs[g + 1].at then Seg(b.at, b.len + segs[g + 1].len) else b
  }

  /** What stays of the list above the gap. */
  function RestUp(segs: seq<Seg>, g: nat, b: Seg): seq<Seg>
    requires g < |segs|
  {
    if g + 1 < |segs| && b.End() == segs[g + 1].at then segs[g + 2..] else segs[g + 1..]
  }

  /** The list after block `b` came into gap `g`, merged with the neighbours it touches. */
  function InsertAt(segs: seq<Seg>, g: nat, b: Seg): seq<Seg>
    requires g < |segs|
  {
    if segs[g].End() == b.at
    then segs[..g] + [Seg(segs[g].at, segs[g].len + MergedUp(segs, g, b).len)] + RestUp(segs, g, b)
    else segs[..g + 1] + [MergedUp(segs, g, b)] + RestUp(segs, g, b)
  }

  function Insert(segs: seq<Seg>, b: Seg): seq<Seg>
    requires segs != []
  {
    InsertAt(segs, Gap(segs, b.at), b)
  }

  /** A block of units of its own, above `base`. */
  ghost predicate Apart(segs: seq<Seg>, b: Seg) {
    b.at > BASE && b.len > 0 && Range(b.at, b.End()) !! Units(segs)
  }

  lemma ApartFits(segs: seq<Seg>, g: nat, b: Seg)
    requires Canonical(segs) && Apart(segs, b) && IsGap(segs, g, b.at)
    ensures segs[g].End() <= b.at && (g + 1 < |segs| ==> b.End() <= segs[g + 1].at)
  {
    if segs[g].End() > b.at {
      UnitsOf(segs, g, b.at);
    }
    if g + 1 < |segs| && b.End() > segs[g + 1].at {
      UnitsOf(segs, g + 1, segs[g + 1].at);
    }
  }

  /** The gap exists. */
  lemma {:induction false} GapExists(segs: seq<Seg>, a: nat)
    requires Canonical(segs) && a > BASE && forall i: nat {:trigger segs[i]} :: i < |segs| ==> segs[i].at != a
    ensures IsGap(segs, Gap(segs, a), a)
    decreases |segs|
  {
    if |segs| > 1 && Last(segs).at > a {
      CanonicalInit(segs);
      assert forall i: nat {:trigger Init(segs)[i]} :: i < |Init(segs)| ==> Init(segs)[i] == segs[i];
      GapExists(Init(segs), a);
      var g := Gap(Init(segs), a);
      if g + 1 == |Init(segs)| {
        assert segs[g + 1] == Last(segs);
      } else {
        assert Init(segs)[g + 1] == segs[g + 1];
      }
    }
  }

  lemma ApartGap(segs: seq<Seg>, b: Seg)
    requires Canonical(segs) && Apart(segs, b)
    ensures IsGap(segs, Gap(segs, b.at), b.at)
  {
    forall i: nat | i < |segs| ensures segs[i].at != b.at {
      if i > 0 && segs[i].at == b.at {
        UnitsOf(segs, i, b.at);
      }
    }
    GapExists(segs, b.at);
  }

  /** Segments g..k-1 replaced by one that touches no other. */
  function Replaced(segs: seq<Seg>, g: nat, k: nat, m: Seg): seq<Seg>
    requires g <= k <= |segs|
  {
    segs[..g] + [m] + segs[k..]
  }

  lemma ReplacedCanonical(segs: seq<Seg>, g: nat, k: nat, m: Seg)
    requires Canonical(segs) && 0 < g <= k <= |segs| && m.len > 0
    requires segs[g - 1].End() < m.at && (k < |segs| ==> m.End() < segs[k].at)
    ensures Canonical(Replaced(segs, g, k, m))
  {
    var r := Replaced(segs, g, k, m);
    forall i: nat, j: nat | i < j < |r| ensures r[i].End() < r[j].at {}
    forall i: nat | 0 < i < |r| ensures r[i].len > 0 {
      assert i > g ==> r[i] == segs[i - g - 1 + k];
    }
  }

  /** Where the merged segment begins and ends among the old ones. */
  ghost predicate Merges(segs: seq<Seg>, g: nat, b: Seg, from: nat, to: nat, m: Seg)
    requires g < |segs|
  {
    && from == (if segs[g].End() == b.at then g else g + 1)
    && to == (if g + 1 < |segs| && b.End() == segs[g + 1].at then g + 2 else g + 1)
    && m.at == (if from == g then segs[g].at else b.at)
    && m.End() == (if to == g + 2 then segs[g + 1].End() else b.End())
  }

  lemma InsertIsReplaced(segs: seq<Seg>, g: nat, b: Seg) returns (from: nat, to: nat, m: Seg)
    requires g < |segs|
    ensures Merges(segs, g, b, from, to, m) && InsertAt(segs, g, b) == Replaced(segs, from, to, m)
  {
    from := if segs[g].End() == b.at then g else g + 1;
    to := if g + 1 < |segs| && b.End() == segs[g + 1].at then g + 2 else g + 1;
    var up := MergedUp(segs, g, b);
    m := if from == g then Seg(segs[g].at, segs[g].len + up.len) else up;
  }

  /** Freeing keeps the list canonical. */
  lemma InsertCanonical(segs: seq<Seg>, g: nat, b: Seg)
    requires Canonical(segs) && Apart(segs, b) && IsGap(segs, g, b.at)
    ensures Canonical(InsertAt(segs, g, b))
  {
    ApartFits(segs, g, b);
    var from, to, m := InsertIsReplaced(segs, g, b);
    assert g > 0 ==> segs[g - 1].End() < segs[g].at;
    assert g + 2 < |segs| ==> segs[g + 1].End() < segs[g + 2].at;
    ReplacedCanonical(segs, from, to, m);
  }

  /** Where segment `i` of the list is found after the replacement. */
  lemma KeptAt(segs: seq<Seg>, from: nat, to: nat, m: Seg, i: nat)
    requires from <= to <= |segs| && i < |segs| && !(from <= i < to)
    ensures var r, k := Replaced(segs, from, to, m), (if i < from then i else i - to + from + 1);
      k < |r| && r[k] == segs[i]
  {}

  /** And what is found at `k`. */
  lemma ReplacedAt(segs: seq<Seg>, from: nat, to: nat, m: Seg, k: nat)
    requires from <= to <= |segs| && k < |Replaced(segs, from, to, m)|
    ensures var r, i := Replaced(segs, from, to, m), (if k < from then k else k - from - 1 + to);
      if k == from then r[k] == m else i < |segs| && !(from <= i < to) && r[k] == segs[i]
  {}

  /** A unit of the new list comes from an old segment or from the merged one. */
  lemma ReplacedUnit(segs: seq<Seg>, from: nat, to: nat, m: Seg, x: nat)
    requires from <= to <= |segs| && x in Units(Replaced(segs, from, to, m))
    ensures x in Units(segs) || m.at <= x < m.End()
  {
    var k := UnitsIn(Replaced(segs, from, to, m), x);
    ReplacedAt(segs, from, to, m, k);
    if k != from {
      UnitsOf(segs, if k < from then k else k - from - 1 + to, x);
    }
  }

  /** A unit of the old list stays, if the merged segment covers those it replaces. */
  lemma UnitKept(segs: seq<Seg>, from: nat, to: nat, m: Seg, x: nat)
    requires from <= to <= |segs|
    requires m.at <= x < m.End() || x in Units(segs)
    requires forall i: nat {:trigger segs[i]} :: from <= i < to ==> m.at <= segs[i].at && segs[i].End() <= m.End()
    ensures x in Units(Replaced(segs, from, to, m))
  {
    var r := Replaced(segs, from, to, m);
    if m.at <= x < m.End() {
      assert r[from] == m;
      UnitsOf(r, from, x);
    } else {
      var i := UnitsIn(segs, x);
      if !(from <= i < to) {
        KeptAt(segs, from, to, m, i);
        UnitsOf(r, if i < from then i else i - to + from + 1, x);
      }
    }
  }

  lemma MergedUnit(segs: seq<Seg>, g: nat, b: Seg, from: nat, to: nat, m: Seg, x: nat)
    requires g < |segs| && Merges(segs, g, b, from, to, m) && m.at <= x < m.End()
    ensures x in Units(segs) || b.at <= x < b.End()
  {
    if x < b.at {
      UnitsOf(segs, g, x);
    } else if x >= b.End() {
      UnitsOf(segs, g + 1, x);
    }
  }

  lemma MergedCovers(segs: seq<Seg>, g: nat, b: Seg, from: nat, to: nat, m: Seg, i: nat)
    requires g < |segs| && Merges(segs, g, b, from, to, m) && from <= i < to
    requires segs[g].End() <= b.at && (g + 1 < |segs| ==> b.End() <= segs[g + 1].at)
    ensures m.at <= segs[i].at && segs[i].End() <= m.End()
  {}

  lemma InsertUnit(segs: seq<Seg>, g: nat, b: Seg, x: nat)
    requires g < |segs| && segs[g].End() <= b.at && (g + 1 < |segs| ==> b.End() <= segs[g + 1].at)
    ensures x in Units(InsertAt(segs, g, b)) <==> x in Units(segs) || b.at <= x < b.End()
  {
    var from, to, m := InsertIsReplaced(segs, g, b);
    if x in Units(Replaced(segs, from, to, m)) {
      ReplacedUnit(segs, from, to, m, x);
      if m.at <= x < m.End() {
        MergedUnit(segs, g, b, from, to, m, x);
      }
    } else if x in Units(segs) || b.at <= x < b.End() {
      forall i: nat | from <= i < to ensures m.at <= segs[i].at && segs[i].End() <= m.End() {
        MergedCovers(segs, g, b, from, to, m, i);
      }
      UnitKept(segs, from, to, m, x);
    }
  }

  /** Freeing adds exactly the block's units. */
  lemma InsertUnits(segs: seq<Seg>, g: nat, b: Seg)
    requires Canonical(segs) && Apart(segs, b) && IsGap(segs, g, b.at)
    ensures Units(InsertAt(segs, g, b)) == Units(segs) + Range(b.at, b.End())
  {
    ApartFits(segs, g, b);
    forall x: nat ensures x in Units(InsertAt(segs, g, b)) <==> x in Units(segs) || b.at <= x < b.End() {
      InsertUnit(segs, g, b, x);
    }
  }

  // ----- taking a block -----

  /** The list after `n` units were cut from the end of segment `j`, or all of it. */
  function TakeAt(segs: seq<Seg>, j: nat, n: nat): seq<Seg>
    requires j < |segs| && segs[j].len >= n
  {
    if segs[j].len == n then segs[..j] + segs[j + 1..] else segs[j := Seg(segs[j].at, segs[j].len - n)]
  }

  /** The block so obtained. */
  function TakenFrom(segs: seq<Seg>, j: nat, n: nat): Seg
    requires j < |segs| && segs[j].len >= n
  {
    Seg(segs[j].End() - n, n)
  }

  /** Where segment `k` of the list after the cut stood before. */
  function Before(segs: seq<Seg>, j: nat, n: nat, k: nat): nat
    requires j < |segs|
  {
    if segs[j].len == n && k >= j then k + 1 else k
  }

  lemma TakeElem(segs: seq<Seg>, j: nat, n: nat, k: nat)
    requires j < |segs| && n <= segs[j].len && k < |TakeAt(segs, j, n)|
    ensures Before(segs, j, n, k) < |segs|
    ensures TakeAt(segs, j, n)[k] ==
      if segs[j].len != n && k == j then Seg(segs[j].at, segs[j].len - n) else segs[Before(segs, j, n, k)]
  {}

  lemma TakeCanonical(segs: seq<Seg>, j: nat, n: nat)
    requires Canonical(segs) && 0 < j < |segs| && 0 < n <= segs[j].len
    ensures Canonical(TakeAt(segs, j, n))
  {
    var r := TakeAt(segs, j, n);
    forall i: nat, k: nat | i < k < |r| ensures r[i].End() < r[k].at {
      TakeElem(segs, j, n, i);
      TakeElem(segs, j, n, k);
      var i', k' := Before(segs, j, n, i), Before(segs, j, n, k);
      assert segs[i'].End() < segs[k'].at;
    }
    forall i: nat | 0 < i < |r| ensures r[i].len > 0 {
      TakeElem(segs, j, n, i);
      assert segs[Before(segs, j, n, i)].len > 0;
    }
  }

  lemma TakeApart(segs: seq<Seg>, j: nat, n: nat, x: nat)
    requires Canonical(segs) && 0 < j < |segs| && 0 < n <= segs[j].len && x in Units(TakeAt(segs, j, n))
    ensures x in Units(segs) && (x < segs[j].End() - n || x >= segs[j].End())
  {
    var k := UnitsIn(TakeAt(segs, j, n), x);
    TakeElem(segs, j, n, k);
    var i := Before(segs, j, n, k);
    UnitsOf(segs, i, x);
    assert i < j ==> segs[i].End() < segs[j].at;
    assert i > j ==> segs[j].End() < segs[i].at;
  }

  lemma TakeKept(segs: seq<Seg>, j: nat, n: nat, x: nat)
    requires j < |segs| && 0 < n <= segs[j].len && x in Units(segs) && (x < segs[j].End() - n || x >= segs[j].End())
    ensures x in Units(TakeAt(segs, j, n))
  {
    var i := UnitsIn(segs, x);
    var k := if segs[j].len == n && i > j then i - 1 else i;
    TakeElem(segs, j, n, k);
    UnitsOf(TakeAt(segs, j, n), k, x);
  }

  lemma TakeUnits(segs: seq<Seg>, j: nat, n: nat)
    requires Canonical(segs) && 0 < j < |segs| && 0 < n <= segs[j].len
    ensures var b := TakenFrom(segs, j, n);
      && Apart(TakeAt(segs, j, n), b)
      && Units(TakeAt(segs, j, n)) + Range(b.at, b.End()) == Units(segs)
  {
    var b := TakenFrom(segs, j, n);
    assert segs[0].End() < segs[j].at;
    forall x ensures x in Units(TakeAt(segs, j, n)) <==> x in Units(segs) && x !in Range(b.at, b.End()) {
      if x in Units(TakeAt(segs, j, n)) {
        TakeApart(segs, j, n, x);
      } else if x in Units(segs) && x !in Range(b.at, b.End()) {
        TakeKept(segs, j, n, x);
      }
    }
    forall x | x in Range(b.at, b.End()) ensures x in Units(segs) {
      UnitsOf(segs, j, x);
    }
  }

  // ----- what follows for sequences of operations -----

  /** Freeing a block just taken gives the list back as it was. */
  lemma FreeUndoesTake(segs: seq<Seg>, j: nat, n: nat)
    requires Canonical(segs) && 0 < j < |segs| && 0 < n <= segs[j].len
    ensures Insert(TakeAt(segs, j, n), TakenFrom(segs, j, n)) == segs
  {
    var b, r := TakenFrom(segs, j, n), TakeAt(segs, j, n);
    TakeCanonical(segs, j, n);
    TakeUnits(segs, j, n);
    ApartGap(r, b);
    InsertCanonical(r, Gap(r, b.at), b);
    InsertUnits(r, Gap(r, b.at), b);
    CanonicalUnique(Insert(r, b), segs);
  }

  function InsertAll(segs: seq<Seg>, bs: seq<Seg>): (r: seq<Seg>)
    requires segs != []
    ensures r != []
  {
    if bs == [] then segs else Insert(InsertAll(segs, Init(bs)), Last(bs))
  }

  /** The blocks are units of their own, apart from the list and from each other. */
  ghost predicate AllApart(segs: seq<Seg>, bs: seq<Seg>) {
    && (forall i: nat {:trigger bs[i]} :: i < |bs| ==> Apart(segs, bs[i]))
    && (forall i: nat, j: nat {:trigger bs[i], bs[j]} :: i < j < |bs| ==>
          Range(bs[i].at, bs[i].End()) !! Range(bs[j].at, bs[j].End()))
  }

  lemma {:induction false} InsertAllUnits(segs: seq<Seg>, bs: seq<Seg>)
    requires Canonical(segs) && AllApart(segs, bs)
    ensures Canonical(InsertAll(segs, bs)) && Units(InsertAll(segs, bs)) == Units(segs) + Units(bs)
  {
    if bs != [] {
      var r, b := InsertAll(segs, Init(bs)), Last(bs);
      InsertAllUnits(segs, Init(bs));
      forall x | x in Units(Init(bs)) ensures x !in Range(b.at, b.End()) {
        var i := UnitsIn(Init(bs), x);
        assert bs[i] == Init(bs)[i] && x in Range(bs[i].at, bs[i].End());
        assert b == bs[|bs| - 1];
      }
      assert Apart(segs, bs[|bs| - 1]);
      ApartGap(r, b);
      InsertCanonical(r, Gap(r, b.at), b);
      InsertUnits(r, Gap(r, b.at), b);
    }
  }

  /** The order in which blocks are freed does not matter. */
  lemma FreeInAnyOrder(segs: seq<Seg>, bs: seq<Seg>, cs: seq<Seg>)
    requires Canonical(segs) && AllApart(segs, bs) && AllApart(segs, cs)
    requires forall b :: b in bs <==> b in cs
    ensures InsertAll(segs, bs) == InsertAll(segs, cs)
  {
    InsertAllUnits(segs, bs);
    InsertAllUnits(segs, cs);
    EqualUnits(bs, cs);
    CanonicalUnique(InsertAll(segs, bs), InsertAll(segs, cs));
  }

  lemma EqualUnits(bs: seq<Seg>, cs: seq<Seg>)
    requires forall b :: b in bs <==> b in cs
    ensures Units(bs) == Units(cs)
  {
    SameUnits(bs, cs);
    SameUnits(cs, bs);
  }

  lemma SameUnits(bs: seq<Seg>, cs: seq<Seg>)
    requires forall b :: b in bs ==> b in cs
    ensures Units(bs) <= Units(cs)
  {
    forall x | x in Units(bs) ensures x in Units(cs) {
      var i := UnitsIn(bs, x);
      assert bs[i] in cs;
      var k: nat :| k < |cs| && cs[k] == bs[i];
      UnitsOf(cs, k, x);
    }
  }
}
