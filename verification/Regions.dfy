/** Physical address regions: what is left of a region when reserved ranges are cut out of
    it, and the merging of regions that touch, both against plain sets of addresses. */
module Regions {
  datatype Range = Range(start: nat, size: nat) {
    function End(): nat {
      start + size
    }

    predicate Has(x: int) {
      start <= x < End()
    }
  }

  ghost predicate Covers(rs: seq<Range>, x: int) {
    exists k :: 0 <= k < |rs| && rs[k].Has(x)
  }

  /** Region.overlaps */
  predicate Overlaps(a: Range, b: Range) {
    (a.start <= b.start && a.End() > b.start) || (b.start <= a.start && b.End() > a.start)
  }

  /** Two regions that are not empty overlap exactly when they share an address. */
  lemma {:induction false} OverlapsIsSharing(a: Range, b: Range)
    requires a.size > 0 && b.size > 0
    ensures Overlaps(a, b) <==> exists x :: a.Has(x) && b.Has(x)
  {
    if Overlaps(a, b) {
      var x := if a.start <= b.start then b.start else a.start;
      assert a.Has(x) && b.Has(x);
    }
  }

  /** One range ends before the other begins. */
  predicate Apart(a: Range, b: Range) {
    a.End() <= b.start || b.End() <= a.start
  }

  ghost predicate AllApart(rs: seq<Range>) {
    forall j, k :: 0 <= j < k < |rs| ==> Apart(rs[j], rs[k])
  }

  /** Address x is reserved by a range that does not start before `from`. */
  ghost predicate Cut(subs: seq<Range>, from: nat, x: int) {
    exists k :: 0 <= k < |subs| && subs[k].start >= from && subs[k].Has(x)
  }

  /** Each piece lies below the ones before it. */
  ghost predicate Descending(rs: seq<Range>) {
    forall j, k :: 0 <= j < k < |rs| ==> rs[k].End() <= rs[j].start
  }

  /** The pieces are not empty, lie in the region, and miss no address that is not
      reserved. */
  ghost predicate Pieces(lo: nat, hi: nat, subs: seq<Range>, out: seq<Range>) {
    && Descending(out)
    && (forall k :: 0 <= k < |out| ==> out[k].size > 0 && lo <= out[k].start && out[k].End() <= hi)
    && (forall x :: lo <= x < hi && !Covers(subs, x) ==> Covers(out, x))
  }

  /** They cover exactly the addresses that are not reserved by a range that starts at `from`
      or later. */
  ghost predicate Exact(lo: nat, hi: nat, from: nat, subs: seq<Range>, out: seq<Range>) {
    forall x :: lo <= x < hi ==> (Covers(out, x) <==> !Cut(subs, from, x))
  }

  /** What the loop has established when the first i ranges are done: the region, which ended
      at `end`, now ends at `cur`, and `out` holds what is left above that. */
  ghost predicate Progress(start: nat, end: nat, cur: nat, subs: seq<Range>, i: nat, out: seq<Range>)
    requires i <= |subs|
  {
    && start <= cur <= end && Pieces(cur, end, subs, out)
    && (AllApart(subs) ==> Exact(cur, end, start, subs, out))
    && (forall x :: start <= x < cur ==> !Cut(subs[..i], start, x))
  }

  lemma {:induction false} CoversAppend(a: seq<Range>, b: seq<Range>, x: int)
    ensures Covers(a + b, x) <==> Covers(a, x) || Covers(b, x)
  {
    if Covers(a, x) {
      var k :| 0 <= k < |a| && a[k].Has(x);
      assert (a + b)[k].Has(x);
    }
    if Covers(b, x) {
      var k :| 0 <= k < |b| && b[k].Has(x);
      assert (a + b)[|a| + k].Has(x);
    }
  }

  lemma {:induction false} CutSplit(subs: seq<Range>, i: nat, from: nat, x: int)
    requires i < |subs|
    ensures Cut(subs[..i + 1], from, x) <==> Cut(subs[..i], from, x) || (subs[i].start >= from && subs[i].Has(x))
    ensures Cut(subs, from, x) <==> Cut(subs[..i + 1], from, x) || Cut(subs[i + 1..], from, x)
  {
    if Cut(subs[..i], from, x) {
      var k :| 0 <= k < i && subs[..i][k].start >= from && subs[..i][k].Has(x);
      assert subs[..i + 1][k].Has(x);
    }
    if subs[i].start >= from && subs[i].Has(x) {
      assert subs[..i + 1][i].Has(x);
    }
    if Cut(subs[..i + 1], from, x) {
      var k :| 0 <= k < i + 1 && subs[..i + 1][k].start >= from && subs[..i + 1][k].Has(x);
      assert subs[k].Has(x);
      assert k < i ==> subs[..i][k].Has(x);
    }
    if Cut(subs[i + 1..], from, x) {
      var k :| 0 <= k < |subs| - i - 1 && subs[i + 1..][k].start >= from && subs[i + 1..][k].Has(x);
      assert subs[i + 1 + k].Has(x);
    }
    if Cut(subs, from, x) {
      var k :| 0 <= k < |subs| && subs[k].start >= from && subs[k].Has(x);
      assert k <= i ==> subs[..i + 1][k].Has(x);
      assert k > i ==> subs[i + 1..][k - i - 1].Has(x);
    }
  }

  /** A range that does not start in what is left of the region changes nothing. */
  lemma {:induction false} StepSkip(start: nat, end: nat, cur: nat, subs: seq<Range>, i: nat, out: seq<Range>)
    requires i < |subs| && Progress(start, end, cur, subs, i, out) && !(start <= subs[i].start < cur)
    ensures Progress(start, end, cur, subs, i + 1, out)
  {
    var done := subs[..i + 1];
    forall x | start <= x < cur ensures !Cut(done, start, x) {
      CutSplit(subs, i, start, x);
    }
  }

  lemma {:induction false} CoversSuffix(subs: seq<Range>, i: nat, x: int)
    requires i <= |subs| && Covers(subs[i..], x)
    ensures Covers(subs, x)
  {
    var k :| 0 <= k < |subs| - i && subs[i..][k].Has(x);
    assert subs[i + k].Has(x);
  }

  lemma {:induction false} PiecesMiss(lo: nat, hi: nat, subs: seq<Range>, out: seq<Range>, x: int)
    requires Pieces(lo, hi, subs, out) && !(lo <= x < hi)
    ensures !Covers(out, x)
  {
  }

  /** With ranges apart, only the ranges still to come can cut the part above range i. */
  lemma {:induction false} OnlyLaterCut(subs: seq<Range>, i: nat, start: nat, x: int)
    requires i < |subs| && AllApart(subs) && subs[i].start >= start && x >= subs[i].End()
    requires !Cut(subs[..i], start, x)
    ensures Cut(subs, start, x) <==> Cut(subs[i + 1..], subs[i].End(), x)
  {
    CutSplit(subs, i, start, x);
    var later := subs[i + 1..];
    if Cut(later, start, x) {
      var k :| 0 <= k < |later| && later[k].start >= start && later[k].Has(x);
      assert later[k] == subs[i + 1 + k] && Apart(subs[i], subs[i + 1 + k]);
    }
    if Cut(later, subs[i].End(), x) {
      var k :| 0 <= k < |later| && later[k].start >= subs[i].End() && later[k].Has(x);
      assert later[k].start >= start;
    }
  }

  /** What is left above range i, when it cuts the region at `cur`. */
  ghost predicate Above(subs: seq<Range>, i: nat, cur: nat, rest: seq<Range>)
    requires i < |subs|
  {
    var at := subs[i].End();
    if at >= cur then rest == []
    else Pieces(at, cur, subs[i + 1..], rest) && (AllApart(subs) ==> Exact(at, cur, at, subs[i + 1..], rest))
  }

  lemma {:induction false} StepPieces(start: nat, end: nat, cur: nat, subs: seq<Range>, i: nat, out: seq<Range>,
                                      rest: seq<Range>)
    requires i < |subs| && Progress(start, end, cur, subs, i, out) && start <= subs[i].start < cur
    requires Above(subs, i, cur, rest)
    ensures Pieces(subs[i].start, end, subs, out + rest)
  {
    var all, at := out + rest, subs[i].End();
    forall x | subs[i].start <= x < end && !Covers(subs, x) ensures Covers(all, x) {
      CoversAppend(out, rest, x);
      if x < cur {
        assert !subs[i].Has(x);
        if Covers(subs[i + 1..], x) {
          CoversSuffix(subs, i + 1, x);
        }
      }
    }
  }

  lemma {:induction false} StepExactAt(start: nat, end: nat, cur: nat, subs: seq<Range>, i: nat,
                                       out: seq<Range>, rest: seq<Range>, x: int)
    requires i < |subs| && Progress(start, end, cur, subs, i, out) && start <= subs[i].start < cur
    requires Above(subs, i, cur, rest) && AllApart(subs) && subs[i].start <= x < end
    ensures Covers(out + rest, x) <==> !Cut(subs, start, x)
  {
    CoversAppend(out, rest, x);
    if x >= cur {
      if subs[i].End() < cur {
        PiecesMiss(subs[i].End(), cur, subs[i + 1..], rest, x);
      }
    } else {
      PiecesMiss(cur, end, subs, out, x);
      CutSplit(subs, i, start, x);
      if x < subs[i].End() {
        assert subs[i].Has(x);
        if subs[i].End() < cur {
          PiecesMiss(subs[i].End(), cur, subs[i + 1..], rest, x);
        }
      } else {
        OnlyLaterCut(subs, i, start, x);
      }
    }
  }

  /** A range that starts in the region: it ends there now, and what is left above the range
      is added. */
  lemma {:induction false} StepCut(start: nat, end: nat, cur: nat, subs: seq<Range>, i: nat, out: seq<Range>,
                                   rest: seq<Range>)
    requires i < |subs| && Progress(start, end, cur, subs, i, out) && start <= subs[i].start < cur
    requires Above(subs, i, cur, rest)
    ensures Progress(start, end, subs[i].start, subs, i + 1, out + rest)
  {
    StepPieces(start, end, cur, subs, i, out, rest);
    var all, done := out + rest, subs[..i + 1];
    if AllApart(subs) {
      forall x | subs[i].start <= x < end ensures Covers(all, x) <==> !Cut(subs, start, x) {
        StepExactAt(start, end, cur, subs, i, out, rest, x);
      }
    }
    forall x | start <= x < subs[i].start ensures !Cut(done, start, x) {
      CutSplit(subs, i, start, x);
    }
  }

  lemma {:induction false} AboveIs(subs: seq<Range>, i: nat, cur: nat, rest: seq<Range>)
    requires i < |subs|
    requires var from, later := subs[i].End(), subs[i + 1..];
             (from >= cur ==> rest == []) &&
             (from < cur ==> Pieces(from, cur, later, rest) && (AllApart(later) ==> Exact(from, cur, from, later, rest)))
    ensures Above(subs, i, cur, rest)
  {
    if AllApart(subs) {
      assert AllApart(subs[i + 1..]);
    }
  }

  /** The region itself is the last piece, unless nothing is left of it. */
  function WithLast(out: seq<Range>, start: nat, cur: nat): seq<Range>
    requires start <= cur
  {
    if cur > start then out + [Range(start, cur - start)] else out
  }

  lemma {:induction false} FirstPiece(start: nat, end: nat, subs: seq<Range>)
    requires start <= end
    ensures Progress(start, end, end, subs, 0, [])
  {
  }

  lemma {:induction false} LastPiece(start: nat, end: nat, cur: nat, subs: seq<Range>, out: seq<Range>)
    requires Progress(start, end, cur, subs, |subs|, out)
    ensures var all := WithLast(out, start, cur);
            Pieces(start, end, subs, all) && (AllApart(subs) ==> Exact(start, end, start, subs, all))
  {
    assert subs[..|subs|] == subs;
    if cur > start {
      var low := [Range(start, cur - start)];
      var all := out + low;
      forall x | start <= x < end ensures Covers(all, x) <==> (x < cur || Covers(out, x)) {
        CoversAppend(out, low, x);
        if x < cur {
          assert low[0].Has(x);
        }
      }
    }
  }

  class Region {
    const start: nat
    var size: nat

    constructor (start: nat, size: nat)
      ensures this.start == start && this.size == size
    {
      this.start, this.size := start, size;
    }

    /** Cuts the reserved ranges out of the region, which shrinks to its lowest piece; the
        result lists the pieces. They are not empty, lie one below the other, and miss no
        address that is not reserved; when the ranges are apart, they cover exactly the
        addresses that no range starting in or after the region reserves. */
    method RemoveSubregions(subs: seq<Range>) returns (pieces: seq<Range>)
      modifies this`size
      ensures Pieces(start, start + old(size), subs, pieces)
      ensures AllApart(subs) ==> Exact(start, start + old(size), start, subs, pieces)
      ensures size > 0 ==> |pieces| > 0 && pieces[|pieces| - 1] == Range(start, size)
      decreases |subs|, 0
    {
      ghost var end := start + size;
      pieces := [];
      FirstPiece(start, end, subs);
      for i := 0 to |subs|
        invariant Progress(start, end, start + size, subs, i, pieces)
      {
        pieces := CutOne(subs, i, end, pieces);
      }
      LastPiece(start, end, start + size, subs, pieces);
      pieces := WithLast(pieces, start, start + size);
    }

    /** Range i is cut out, if it starts in what is left of the region. */
    method CutOne(subs: seq<Range>, i: nat, ghost end: nat, pieces: seq<Range>) returns (out: seq<Range>)
      requires i < |subs| && Progress(start, end, start + size, subs, i, pieces)
      modifies this`size
      ensures Progress(start, end, start + size, subs, i + 1, out)
      decreases |subs| - i - 1, 2
    {
      out := pieces;
      var base, cur := subs[i].start, start + size;
      if start <= base < cur {
        var rest := Upper(subs[i].End(), cur, subs[i + 1..]);
        AboveIs(subs, i, cur, rest);
        StepCut(start, end, cur, subs, i, pieces, rest);
        out := out + rest;
        size := base - start;
      } else {
        StepSkip(start, end, cur, subs, i, pieces);
      }
    }

    /** The part of the region above a reserved range is a region of its own. */
    static method Upper(from: nat, end: nat, subs: seq<Range>) returns (pieces: seq<Range>)
      ensures from >= end ==> pieces == []
      ensures from < end ==> Pieces(from, end, subs, pieces) && (AllApart(subs) ==> Exact(from, end, from, subs, pieces))
      decreases |subs|, 1
    {
      pieces := [];
      if from < end {
        var upper := new Region(from, end - from);
        pieces := upper.RemoveSubregions(subs);
      }
    }
  }

  /** With ranges apart, the pieces are the region without all reserved addresses exactly when
      no range starts before the region and reaches into it. */
  lemma {:induction false} RemovalIsExact(start: nat, end: nat, subs: seq<Range>, out: seq<Range>)
    requires start < end && AllApart(subs) && Exact(start, end, start, subs, out)
    ensures (forall x :: start <= x < end ==> (Covers(out, x) <==> !Covers(subs, x))) <==>
            (forall k :: 0 <= k < |subs| ==> !(subs[k].start < start < subs[k].End()))
  {
    if k :| 0 <= k < |subs| && subs[k].start < start < subs[k].End() {
      assert subs[k].Has(start);
      forall j | 0 <= j < |subs| && subs[j].start >= start ensures !subs[j].Has(start) {
        assert Apart(subs[if j < k then j else k], subs[if j < k then k else j]);
      }
      assert !Cut(subs, start, start);
      assert Covers(out, start) && Covers(subs, start);
    } else {
      forall x | start <= x < end ensures Covers(subs, x) <==> Cut(subs, start, x) {
        if Covers(subs, x) {
          var k :| 0 <= k < |subs| && subs[k].Has(x);
          assert subs[k].start >= start;
        }
      }
    }
  }

  /** A device region, and whether it is exposed to users under a condition only. */
  datatype Item = Item(range: Range, conditional: bool)

  ghost predicate ItemsCover(ret: seq<Item>, x: int) {
    exists k :: 0 <= k < |ret| && ret[k].range.Has(x)
  }

  ghost predicate Sorted(ret: seq<Item>) {
    forall j, k :: 0 <= j <= k < |ret| ==> ret[j].range.start <= ret[k].range.start
  }

  /** There is a gap between item k and the one before it, or one of them is conditional. */
  predicate GapBefore(ret: seq<Item>, k: nat)
    requires 0 < k < |ret|
  {
    ret[k - 1].range.End() < ret[k].range.start || ret[k - 1].conditional || ret[k].conditional
  }

  /** An item grown to cover the next one, which starts in it or where it ends. */
  function Grown(item: Item, next: Item): Item
    requires next.range.start <= item.range.End()
  {
    var overlap := item.range.End() - next.range.start;
    var more := if next.range.size > overlap then next.range.size - overlap else 0;
    Item(Range(item.range.start, item.range.size + more), item.conditional)
  }

  /** Item i - 1 grows to cover item i, which is dropped. */
  function Absorbed(ret: seq<Item>, i: nat): (r: seq<Item>)
    requires 0 < i < |ret| && ret[i].range.start <= ret[i - 1].range.End()
    ensures |r| == |ret| - 1
    ensures forall k :: 0 <= k < |r| ==>
              r[k] == if k < i - 1 then ret[k] else if k == i - 1 then Grown(ret[i - 1], ret[i]) else ret[k + 1]
  {
    ret[..i - 1] + [Grown(ret[i - 1], ret[i])] + ret[i + 1..]
  }

  function Conditionals(ret: seq<Item>): seq<Item> {
    if |ret| == 0 then []
    else (if ret[0].conditional then [ret[0]] else []) + Conditionals(ret[1..])
  }

  lemma {:induction false} ConditionalsAppend(a: seq<Item>, b: seq<Item>)
    ensures Conditionals(a + b) == Conditionals(a) + Conditionals(b)
  {
    if |a| == 0 {
      assert a + b == b;
    } else {
      assert (a + b)[1..] == a[1..] + b;
      ConditionalsAppend(a[1..], b);
      var h := if a[0].conditional then [a[0]] else [];
      var x, y := Conditionals(a[1..]), Conditionals(b);
      assert h + (x + y) == (h + x) + y;
    }
  }

  /** An item that is not conditional makes no difference. */
  lemma {:induction false} OtherItem(a: seq<Item>, item: Item, b: seq<Item>)
    requires !item.conditional
    ensures Conditionals(a + [item] + b) == Conditionals(a + b)
  {
    ConditionalsAppend(a + [item], b);
    ConditionalsAppend(a, [item]);
    ConditionalsAppend(a, b);
    assert Conditionals([item]) == [];
  }

  lemma {:induction false} AbsorbedConditionals(ret: seq<Item>, i: nat)
    requires 0 < i < |ret| && ret[i].range.start <= ret[i - 1].range.End()
    requires !ret[i - 1].conditional && !ret[i].conditional
    ensures Conditionals(Absorbed(ret, i)) == Conditionals(ret)
  {
    var a, b := ret[..i - 1], ret[i + 1..];
    OtherItem(a, Grown(ret[i - 1], ret[i]), b);
    OtherItem(a, ret[i - 1], b);
    OtherItem(a + [ret[i - 1]], ret[i], b);
    assert a + [ret[i - 1]] + [ret[i]] + b == ret;
  }

  lemma {:induction false} AbsorbedHas(ret: seq<Item>, i: nat, x: int)
    requires 0 < i < |ret| && ret[i - 1].range.start <= ret[i].range.start <= ret[i - 1].range.End()
    ensures Absorbed(ret, i)[i - 1].range.Has(x) <==> ret[i - 1].range.Has(x) || ret[i].range.Has(x)
  {
  }

  lemma {:induction false} CoveredBefore(ret: seq<Item>, i: nat, x: int)
    requires 0 < i < |ret| && ret[i - 1].range.start <= ret[i].range.start <= ret[i - 1].range.End()
    requires ItemsCover(Absorbed(ret, i), x)
    ensures ItemsCover(ret, x)
  {
    var r := Absorbed(ret, i);
    var k :| 0 <= k < |r| && r[k].range.Has(x);
    if k < i - 1 {
      assert ret[k].range.Has(x);
    } else if k == i - 1 {
      AbsorbedHas(ret, i, x);
    } else {
      assert ret[k + 1].range.Has(x);
    }
  }

  lemma {:induction false} CoveredAfter(ret: seq<Item>, i: nat, x: int)
    requires 0 < i < |ret| && ret[i - 1].range.start <= ret[i].range.start <= ret[i - 1].range.End()
    requires ItemsCover(ret, x)
    ensures ItemsCover(Absorbed(ret, i), x)
  {
    var r := Absorbed(ret, i);
    var k :| 0 <= k < |ret| && ret[k].range.Has(x);
    if k < i - 1 {
      assert r[k].range.Has(x);
    } else if k <= i {
      AbsorbedHas(ret, i, x);
    } else {
      assert r[k - 1].range.Has(x);
    }
  }

  lemma {:induction false} AbsorbedCovers(ret: seq<Item>, i: nat)
    requires 0 < i < |ret| && ret[i - 1].range.start <= ret[i].range.start <= ret[i - 1].range.End()
    ensures forall x :: ItemsCover(Absorbed(ret, i), x) <==> ItemsCover(ret, x)
  {
    forall x ensures ItemsCover(Absorbed(ret, i), x) <==> ItemsCover(ret, x) {
      if ItemsCover(ret, x) {
        CoveredAfter(ret, i, x);
      }
      if ItemsCover(Absorbed(ret, i), x) {
        CoveredBefore(ret, i, x);
      }
    }
  }

  lemma {:induction false} AbsorbedSorted(ret: seq<Item>, i: nat)
    requires 0 < i < |ret| && Sorted(ret) && ret[i].range.start <= ret[i - 1].range.End()
    requires forall k :: 0 < k < i ==> GapBefore(ret, k)
    ensures Sorted(Absorbed(ret, i)) && forall k :: 0 < k < i ==> GapBefore(Absorbed(ret, i), k)
  {
    var r := Absorbed(ret, i);
    forall k | 0 < k < i ensures GapBefore(r, k) {
      assert GapBefore(ret, k);
    }
  }

  lemma {:induction false} NoConditionals(ret: seq<Item>)
    ensures Conditionals(ret) == [] <==> forall k :: 0 <= k < |ret| ==> !ret[k].conditional
  {
    if |ret| > 0 {
      NoConditionals(ret[1..]);
      assert forall k :: 0 < k < |ret| ==> ret[k] == ret[1..][k - 1];
    }
  }

  lemma {:induction false} AllGaps(ret: seq<Item>)
    requires Sorted(ret) && (forall k :: 0 <= k < |ret| ==> !ret[k].conditional)
    requires forall k :: 0 < k < |ret| ==> GapBefore(ret, k)
    ensures forall j, k :: 0 <= j < k < |ret| ==> ret[j].range.End() < ret[k].range.start
  {
    forall j, k | 0 <= j < k < |ret| ensures ret[j].range.End() < ret[k].range.start {
      assert GapBefore(ret, j + 1);
      assert ret[j + 1].range.start <= ret[k].range.start;
    }
  }

  /** The merging loop of fixup_device_regions, on regions sorted by start. The addresses
      covered stay the same, conditional regions are left alone, and neighbours that are not
      conditional are left with a gap between them. */
  method Merge(regions: seq<Item>) returns (ret: seq<Item>)
    requires Sorted(regions)
    ensures Sorted(ret) && forall x :: ItemsCover(ret, x) <==> ItemsCover(regions, x)
    ensures forall k :: 0 < k < |ret| ==> GapBefore(ret, k)
    ensures Conditionals(ret) == Conditionals(regions)
    ensures (forall k :: 0 <= k < |regions| ==> !regions[k].conditional) ==>
              forall j, k :: 0 <= j < k < |ret| ==> ret[j].range.End() < ret[k].range.start
  {
    ret := regions;
    var i := 1;
    while i < |ret|
      invariant 1 <= i && Sorted(ret) && forall x :: ItemsCover(ret, x) <==> ItemsCover(regions, x)
      invariant forall k :: 0 < k < i && k < |ret| ==> GapBefore(ret, k)
      invariant Conditionals(ret) == Conditionals(regions)
      decreases |ret| - i
    {
      if ret[i].conditional || ret[i - 1].conditional {
        i := i + 1;
      } else if ret[i].range.start <= ret[i - 1].range.End() {
        AbsorbedCovers(ret, i);
        AbsorbedSorted(ret, i);
        AbsorbedConditionals(ret, i);
        ret := Absorbed(ret, i);
      } else {
        i := i + 1;
      }
    }
    NoConditionals(regions);
    NoConditionals(ret);
    if Conditionals(ret) == [] {
      AllGaps(ret);
    }
  }

  /** A reserved range that starts before the region and reaches into it is not removed. */
  method EarlyRangeStays() returns (pieces: seq<Range>)
    ensures Range(0, 20).Has(10) && Covers(pieces, 10)
  {
    var subs := [Range(0, 20)];
    var region := new Region(10, 20);
    pieces := region.RemoveSubregions(subs);
    assert !Cut(subs, 10, 10);
  }
}
