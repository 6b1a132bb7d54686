/**
 The circle of headers in memory: `ps` and `ss` hold the fields `ptr` and `size` of the header at each unit address.
 What tb_free and tb_malloc write to them keeps the circle a picture of the list.
 */
module Circles {
  import opened FreeList

  // A term to hang facts about list nodes on.
  ghost predicate Node(i: nat) { true }

  function Next(segs: seq<Seg>, i: nat): (j: nat)
    requires i < |segs|
    ensures j < |segs|
  {
    if i + 1 < |segs| then i + 1 else 0
  }

  /** The header of segment `i` holds its length and the address of the next segment around the circle. */
  ghost predicate ChainedAt(ps: seq<nat>, ss: seq<nat>, segs: seq<Seg>, i: nat)
    requires i < |segs|
  {
    && segs[i].at < |ps| == |ss|
    && ss[segs[i].at] == segs[i].len && ps[segs[i].at] == segs[Next(segs, i)].at
  }

  /** The free list is one circle through all segments in address order. */
  ghost predicate Chained(ps: seq<nat>, ss: seq<nat>, segs: seq<Seg>) {
    forall i: nat {:trigger Node(i)} :: i < |segs| ==> ChainedAt(ps, ss, segs, i)
  }

  lemma ChainFact(ps: seq<nat>, ss: seq<nat>, segs: seq<Seg>, i: nat)
    requires Chained(ps, ss, segs) && i < |segs|
    ensures ChainedAt(ps, ss, segs, i)
  {
    assert Node(i);
  }

  // ----- what tb_free writes -----

  /** The headers at `p` and at the block are rewritten, as the two merging tests decide; no other header is. */
  ghost predicate Spliced(ps: seq<nat>, ss: seq<nat>, ps': seq<nat>, ss': seq<nat>, segs: seq<Seg>, g: nat, b: Seg)
    requires g < |segs|
  {
    var p, m := segs[g].at, MergedUp(segs, g, b);
    var to := if g + 1 < |segs| && b.End() == segs[g + 1].at then g + 2 else g + 1;
    var next := if to < |segs| then segs[to].at else BASE;
    && |ps'| == |ps| == |ss| == |ss'| && p < |ps| && b.at < |ps|
    && (forall a: nat {:trigger ps'[a]} {:trigger ss'[a]} ::
          a < |ps| && a != p && a != b.at ==> ps'[a] == ps[a] && ss'[a] == ss[a])
    && (if segs[g].End() == b.at then ps'[p] == next && ss'[p] == segs[g].len + m.len
        else ps'[p] == b.at && ss'[p] == segs[g].len && ps'[b.at] == next && ss'[b.at] == m.len)
  }

  /** A node that was not merged and is not in front of the gap: its header is untouched, its successor the same. */
  lemma OtherNode(ps: seq<nat>, ss: seq<nat>, ps': seq<nat>, ss': seq<nat>, segs: seq<Seg>, g: nat, b: Seg, i: nat)
    requires Canonical(segs) && IsGap(segs, g, b.at) && Chained(ps, ss, segs)
    requires Spliced(ps, ss, ps', ss', segs, g, b) && i < |segs| && i != g
    ensures segs[i].at < |ps'| && ss'[segs[i].at] == segs[i].len && ps'[segs[i].at] == segs[Next(segs, i)].at
  {
    ChainFact(ps, ss, segs, i);
    NotInGap(segs, g, b.at, i);
  }

  /** The successor of a node before the merged one, of the merged one itself, and of one after it. */
  lemma ReplacedNext(segs: seq<Seg>, from: nat, to: nat, m: Seg, k: nat)
    requires 0 < from <= to <= |segs| && k < |Replaced(segs, from, to, m)|
    ensures var r := Replaced(segs, from, to, m);
      && (k + 1 < from ==> r[Next(r, k)] == segs[k + 1])
      && (k + 1 == from ==> r[Next(r, k)] == m)
      && (k == from ==> r[Next(r, k)] == if to < |segs| then segs[to] else segs[0])
      && (k > from ==> r[Next(r, k)] == segs[Next(segs, k - from - 1 + to)])
  {}

  lemma SplicedAt(ps: seq<nat>, ss: seq<nat>, ps': seq<nat>, ss': seq<nat>, segs: seq<Seg>, g: nat, b: Seg,
                  from: nat, to: nat, m: Seg, k: nat)
    requires Canonical(segs) && Apart(segs, b) && IsGap(segs, g, b.at) && Chained(ps, ss, segs)
    requires Spliced(ps, ss, ps', ss', segs, g, b) && Merges(segs, g, b, from, to, m) && 0 < from <= to <= |segs|
    requires k < |Replaced(segs, from, to, m)|
    ensures ChainedAt(ps', ss', Replaced(segs, from, to, m), k)
  {
    ReplacedAt(segs, from, to, m, k);
    ReplacedNext(segs, from, to, m, k);
    if k != from && k != g {
      OtherNode(ps, ss, ps', ss', segs, g, b, if k < from then k else k - from - 1 + to);
    }
  }

  lemma NotInGap(segs: seq<Seg>, g: nat, a: nat, i: nat)
    requires Canonical(segs) && IsGap(segs, g, a) && i < |segs|
    ensures segs[i].at != a
  {
    assert i < g ==> segs[i].End() < segs[g].at;
    assert g + 1 < i ==> segs[g + 1].End() < segs[i].at;
  }

  /** After tb_free the list is one circle again. */
  lemma SplicedChained(ps: seq<nat>, ss: seq<nat>, ps': seq<nat>, ss': seq<nat>, segs: seq<Seg>, g: nat, b: Seg)
    requires Canonical(segs) && Apart(segs, b) && IsGap(segs, g, b.at) && Chained(ps, ss, segs)
    requires Spliced(ps, ss, ps', ss', segs, g, b)
    ensures Chained(ps', ss', InsertAt(segs, g, b))
  {
    var from, to, m := InsertIsReplaced(segs, g, b);
    forall k: nat | k < |InsertAt(segs, g, b)| ensures ChainedAt(ps', ss', InsertAt(segs, g, b), k) {
      SplicedAt(ps, ss, ps', ss', segs, g, b, from, to, m, k);
    }
  }

  // ----- what tb_malloc writes -----

  /** The header of `prev`, or those of segment `j` and of the block cut from its end, are rewritten. */
  ghost predicate Cut(ps: seq<nat>, ss: seq<nat>, ps': seq<nat>, ss': seq<nat>, segs: seq<Seg>, j: nat, n: nat)
    requires 0 < j < |segs| && n <= segs[j].len
  {
    var p, prev, b := segs[j].at, segs[j - 1].at, TakenFrom(segs, j, n).at;
    && |ps'| == |ps| == |ss| == |ss'| && p < |ps| && prev < |ps| && b < |ps|
    && (if segs[j].len == n
        then ss' == ss && ps' == ps[prev := ps[p]]
        else ps' == ps && ss' == ss[p := segs[j].len - n][b := n])
  }

  /** A node that stays, other than the shortened one, and the node it points to. */
  lemma CutOther(segs: seq<Seg>, j: nat, n: nat, k: nat)
    requires 0 < j < |segs| && n <= segs[j].len && k < |TakeAt(segs, j, n)|
    ensures var r, i := TakeAt(segs, j, n), Before(segs, j, n, k);
      && i < |segs| && r[k].at == segs[i].at && (segs[j].len == n ==> i != j)
      && r[Next(r, k)].at == segs[if segs[j].len == n && i == j - 1 then Next(segs, j) else Next(segs, i)].at
  {
    var r := TakeAt(segs, j, n);
    TakeElem(segs, j, n, k);
    TakeElem(segs, j, n, Next(r, k));
  }

  lemma CutAt(ps: seq<nat>, ss: seq<nat>, ps': seq<nat>, ss': seq<nat>, segs: seq<Seg>, j: nat, n: nat, k: nat)
    requires Canonical(segs) && Chained(ps, ss, segs) && 0 < j < |segs| && 0 < n <= segs[j].len
    requires Cut(ps, ss, ps', ss', segs, j, n) && k < |TakeAt(segs, j, n)|
    ensures ChainedAt(ps', ss', TakeAt(segs, j, n), k)
  {
    CutOther(segs, j, n, k);
    TakeElem(segs, j, n, k);
    var i := Before(segs, j, n, k);
    ChainFact(ps, ss, segs, i);
    ChainFact(ps, ss, segs, j);
    BlockNotHeader(segs, j, n, i);
  }

  /** The block cut off is not the header of any segment that stays. */
  lemma BlockNotHeader(segs: seq<Seg>, j: nat, n: nat, i: nat)
    requires Canonical(segs) && j < |segs| && 0 < n <= segs[j].len && i < |segs|
    ensures n < segs[j].len ==> segs[i].at != TakenFrom(segs, j, n).at
  {
    assert i < j ==> segs[i].End() < segs[j].at;
    assert j < i ==> segs[j].End() < segs[i].at;
  }

  lemma CutChained(ps: seq<nat>, ss: seq<nat>, ps': seq<nat>, ss': seq<nat>, segs: seq<Seg>, j: nat, n: nat)
    requires Canonical(segs) && Chained(ps, ss, segs) && 0 < j < |segs| && 0 < n <= segs[j].len
    requires Cut(ps, ss, ps', ss', segs, j, n)
    ensures Chained(ps', ss', TakeAt(segs, j, n))
  {
    forall k: nat | k < |TakeAt(segs, j, n)| ensures ChainedAt(ps', ss', TakeAt(segs, j, n), k) {
      CutAt(ps, ss, ps', ss', segs, j, n, k);
    }
  }

  ghost predicate JoinedAbove(ps: seq<nat>, ss: seq<nat>, ps': seq<nat>, ss': seq<nat>, p: nat, b: nat) {
    && p < |ps| == |ss| && b < |ps| && ps[p] < |ps|
    && (if b + ss[b] == ps[p] then ss' == ss[b := ss[b] + ss[ps[p]]] && ps' == ps[b := ps[ps[p]]]
        else ss' == ss && ps' == ps[b := ps[p]])
  }

  ghost predicate JoinedBelow(ps: seq<nat>, ss: seq<nat>, ps': seq<nat>, ss': seq<nat>, p: nat, b: nat) {
    && p < |ps| == |ss| && b < |ps|
    && (if p + ss[p] == b then ss' == ss[p := ss[p] + ss[b]] && ps' == ps[p := ps[b]]
        else ss' == ss && ps' == ps[p := b])
  }

  /** Both merging tests together. */
  lemma JoinsSplice(ps: seq<nat>, ss: seq<nat>, ps1: seq<nat>, ss1: seq<nat>, ps2: seq<nat>, ss2: seq<nat>,
                    segs: seq<Seg>, g: nat, b: Seg)
    requires Canonical(segs) && Apart(segs, b) && IsGap(segs, g, b.at) && Chained(ps, ss, segs)
    requires b.at < |ss| && ss[b.at] == b.len
    requires JoinedAbove(ps, ss, ps1, ss1, segs[g].at, b.at) && JoinedBelow(ps1, ss1, ps2, ss2, segs[g].at, b.at)
    ensures Spliced(ps, ss, ps2, ss2, segs, g, b)
  {
    ChainFact(ps, ss, segs, g);
    ChainFact(ps, ss, segs, Next(segs, g));
  }
}
