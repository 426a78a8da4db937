/** Tagged unions of bitfield blocks whose tag field has more than one width. A class mask
    for each width says which words belong to a wider one. All tag fields lie in one word;
    positions here are positions in that word. */
module TagUnions {
  import opened Bits

  /** A tag field of some width, and the class mask in its place in the word. */
  datatype Width = Width(bits: nat, shift: nat, mask: Word)

  /** The field's bits, moved to the bottom. */
  function Field(w: Word, f: Width): (r: Word)
    ensures |r| == |w| && forall i :: 0 <= i < |r| ==> r[i] == (i < f.bits && Bit(w, i + f.shift))
  {
    Keep(Shift(w, f.shift), 0, f.bits)
  }

  /** v << shift */
  function Placed(v: Word, f: Width): (r: Word)
    ensures |r| == |v| && forall i :: 0 <= i < |r| ==> r[i] == Bit(v, i - f.shift)
  {
    Shift(v, 0 - f.shift)
  }

  ghost predicate InField(f: Width, base: nat) {
    f.shift + f.bits <= base && |f.mask| == base &&
    forall i :: 0 <= i < base && f.mask[i] ==> f.shift <= i < f.shift + f.bits
  }

  /** The widths are in increasing order; the masks lie in their fields; the first is not
      zero when there are several; masks other than the last pair differ; smaller masks are
      included in larger ones. */
  ghost predicate Accepted(u: seq<Width>, base: nat) {
    && |u| > 0
    && (forall k :: 0 <= k < |u| ==> InField(u[k], base))
    && (forall j, k :: 0 <= j < k < |u| ==> u[j].bits < u[k].bits)
    && (|u| > 1 ==> exists i :: 0 <= i < base && u[0].mask[i])
    && (forall k :: 1 <= k < |u| - 1 ==> u[k - 1].mask != u[k].mask)
    && (forall k :: 1 <= k < |u| ==> Has(u[k].mask, u[k - 1].mask))
  }

  /** The value v fits width k, matches the masks of all narrower widths and, unless k is the
      last, not its own. */
  ghost predicate InClass(u: seq<Width>, base: nat, k: nat, v: Word)
    requires k < |u|
  {
    && |v| == base
    && (forall i :: u[k].bits <= i < base ==> !v[i])
    && (forall j :: 0 <= j < k ==> Has(Placed(v, u[k]), u[j].mask))
    && (k < |u| - 1 ==> !Has(Placed(v, u[k]), u[k].mask))
  }

  lemma {:induction false} FieldTest(f: Width, base: nat)
    requires f.shift + f.bits <= base && |f.mask| == base
    ensures var field := Ones(base, f.shift, f.shift + f.bits); Or(f.mask, field) == field <==> InField(f, base)
  {
    var field := Ones(base, f.shift, f.shift + f.bits);
    if forall i :: 0 <= i < base && f.mask[i] ==> f.shift <= i < f.shift + f.bits {
      assert Or(f.mask, field) == field;
    } else {
      var i :| 0 <= i < base && f.mask[i] && !(f.shift <= i < f.shift + f.bits);
      assert Or(f.mask, field)[i] != field[i];
    }
  }

  /** No mask exceeds the bounds of its field. */
  method CheckBounds(u: seq<Width>, base: nat) returns (ok: bool)
    requires forall k :: 0 <= k < |u| ==> u[k].shift + u[k].bits <= base && |u[k].mask| == base
    ensures ok <==> forall k :: 0 <= k < |u| ==> InField(u[k], base)
  {
    for k := 0 to |u|
      invariant forall i :: 0 <= i < k ==> InField(u[i], base)
    {
      FieldTest(u[k], base);
      var field := Ones(base, u[k].shift, u[k].shift + u[k].bits);
      if Or(u[k].mask, field) != field {
        return false;
      }
    }
    return true;
  }

  /** The first of several masks is not zero, and no mask but the last repeats the one
      before it. */
  method CheckDistinct(u: seq<Width>, base: nat) returns (ok: bool)
    requires |u| > 0 && forall k :: 0 <= k < |u| ==> |u[k].mask| == base
    ensures ok <==> (|u| > 1 ==> exists i :: 0 <= i < base && u[0].mask[i]) &&
                    forall k :: 1 <= k < |u| - 1 ==> u[k - 1].mask != u[k].mask
  {
    if |u| > 1 && u[0].mask == Ones(base, 0, 0) {
      return false;
    }
    assert |u| > 1 ==> exists i :: 0 <= i < base && u[0].mask[i] by {
      if forall i :: 0 <= i < base ==> !u[0].mask[i] {
        assert u[0].mask == Ones(base, 0, 0);
      }
    }
    var k := 1;
    while k < |u| - 1
      invariant 1 <= k && forall i :: 1 <= i < k && i < |u| - 1 ==> u[i - 1].mask != u[i].mask
    {
      if u[k - 1].mask == u[k].mask {
        return false;
      }
      k := k + 1;
    }
    return true;
  }

  /** Masks are declared for the widths that the blocks' tag fields have, and for no other. */
  ghost predicate ForUsed(u: seq<Width>, used: seq<nat>) {
    && (forall s :: s in used ==> exists k :: 0 <= k < |u| && u[k].bits == s)
    && (forall k :: 0 <= k < |u| ==> u[k].bits in used)
  }

  method HasWidth(u: seq<Width>, s: nat) returns (found: bool)
    ensures found <==> exists k :: 0 <= k < |u| && u[k].bits == s
  {
    for k := 0 to |u|
      invariant forall i :: 0 <= i < k ==> u[i].bits != s
    {
      if u[k].bits == s {
        return true;
      }
    }
    return false;
  }

  method CheckUsed(u: seq<Width>, used: seq<nat>) returns (ok: bool)
    ensures ok <==> ForUsed(u, used)
  {
    for i := 0 to |used|
      invariant forall j :: 0 <= j < i ==> exists k :: 0 <= k < |u| && u[k].bits == used[j]
    {
      ok := HasWidth(u, used[i]);
      if !ok {
        assert used[i] in used;
        return;
      }
    }
    for k := 0 to |u|
      invariant forall i :: 0 <= i < k ==> u[i].bits in used
    {
      if u[k].bits !in used {
        return false;
      }
    }
    return true;
  }

  /** The sanity checks of make_classes, in its order, on widths that are sorted; `used` are
      the widths of the blocks' tag fields. */
  method MakeClasses(u: seq<Width>, used: seq<nat>, base: nat) returns (ok: bool)
    requires |u| > 0 && forall j, k :: 0 <= j < k < |u| ==> u[j].bits < u[k].bits
    requires forall k :: 0 <= k < |u| ==> u[k].shift + u[k].bits <= base && |u[k].mask| == base
    ensures ok <==> ForUsed(u, used) && Accepted(u, base)
  {
    ok := CheckUsed(u, used);
    if !ok {
      return;
    }
    ok := CheckBounds(u, base);
    if !ok {
      return;
    }
    ok := CheckDistinct(u, base);
    if !ok {
      return;
    }
    for k := 1 to |u|
      invariant forall i :: 1 <= i < k ==> Has(u[i].mask, u[i - 1].mask)
    {
      if !Has(u[k].mask, u[k - 1].mask) {
        return false;
      }
    }
  }

  /** assert_value_in_class */
  method CheckValue(u: seq<Width>, base: nat, k: nat, v: Word) returns (ok: bool)
    requires Accepted(u, base) && k < |u| && |v| == base
    ensures ok <==> InClass(u, base, k, v)
  {
    for i := u[k].bits to base
      invariant forall j :: u[k].bits <= j < i ==> !v[j]
    {
      if v[i] {
        return false;
      }
    }
    var p := Placed(v, u[k]);
    for j := 0 to k
      invariant forall i :: 0 <= i < j ==> Has(p, u[i].mask)
    {
      if !Has(p, u[j].mask) {
        return false;
      }
    }
    return k == |u| - 1 || !Has(p, u[k].mask);
  }

  /** The generated tag reader, from width k on. */
  function TagFrom(u: seq<Width>, w: Word, k: nat): Word
    requires k < |u|
    decreases |u| - k
  {
    if k == |u| - 1 || !Has(w, u[k].mask) then Field(w, u[k]) else TagFrom(u, w, k + 1)
  }

  function GetTag(u: seq<Width>, w: Word): Word
    requires |u| > 0
  {
    TagFrom(u, w, 0)
  }

  /** The generated tag comparison: the masks are applied to the tag asked for, as it is. */
  predicate EqualsFrom(u: seq<Width>, w: Word, x: Word, k: nat)
    requires k < |u|
    decreases |u| - k
  {
    if k == |u| - 1 || !Has(x, u[k].mask) then Field(w, u[k]) == x else EqualsFrom(u, w, x, k + 1)
  }

  predicate TagEquals(u: seq<Width>, w: Word, x: Word)
    requires |u| > 0
  {
    EqualsFrom(u, w, x, 0)
  }

  /** If w has the masks before k and, unless k is last, not the mask at k, the reader reads
      field k. */
  lemma {:induction false} ReadsAt(u: seq<Width>, w: Word, j: nat, k: nat)
    requires j <= k < |u|
    requires forall i :: j <= i < k ==> Has(w, u[i].mask)
    requires k < |u| - 1 ==> !Has(w, u[k].mask)
    ensures TagFrom(u, w, j) == Field(w, u[k])
    decreases k - j
  {
    if j < k {
      ReadsAt(u, w, j + 1, k);
    }
  }

  lemma {:induction false} ComparesAt(u: seq<Width>, w: Word, x: Word, j: nat, k: nat)
    requires j <= k < |u|
    requires forall i :: j <= i < k ==> Has(x, u[i].mask)
    requires k < |u| - 1 ==> !Has(x, u[k].mask)
    ensures EqualsFrom(u, w, x, j) <==> Field(w, u[k]) == x
    decreases k - j
  {
    if j < k {
      ComparesAt(u, w, x, j + 1, k);
    }
  }

  lemma {:induction false} FieldHas(u: seq<Width>, base: nat, k: nat, v: Word, w: Word, m: Word)
    requires k < |u| && InField(u[k], base) && |w| == |v| == base && |m| == base && Field(w, u[k]) == v
    ensures Has(Placed(v, u[k]), m) ==> Has(w, m)
    ensures (forall i :: 0 <= i < base && m[i] ==> u[k].shift <= i < u[k].shift + u[k].bits) && Has(w, m) ==>
              Has(Placed(v, u[k]), m)
  {
    var f, p := u[k], Placed(v, u[k]);
    forall i | 0 <= i < base ensures p[i] ==> w[i] {
      if p[i] {
        assert v[i - f.shift];
        assert Field(w, f)[i - f.shift] == (i - f.shift < f.bits && Bit(w, i - f.shift + f.shift));
      }
    }
    forall i | f.shift <= i < f.shift + f.bits ensures p[i] == w[i] {
      assert Field(w, f)[i - f.shift] == (i - f.shift < f.bits && Bit(w, i - f.shift + f.shift));
    }
  }

  /** A word that holds an accepted tag in the tag field of the tag's width reads as that tag,
      whatever its other bits are. */
  lemma {:induction false} TagIsRead(u: seq<Width>, base: nat, k: nat, v: Word, w: Word)
    requires Accepted(u, base) && k < |u| && InClass(u, base, k, v)
    requires |w| == base && Field(w, u[k]) == v
    ensures GetTag(u, w) == v
  {
    forall j | 0 <= j < k ensures Has(w, u[j].mask) {
      assert InField(u[j], base);
      FieldHas(u, base, k, v, w, u[j].mask);
    }
    if k < |u| - 1 {
      FieldHas(u, base, k, v, w, u[k].mask);
    }
    ReadsAt(u, w, 0, k);
  }

  /** No word holds two accepted tags with different values. */
  lemma {:induction false} TagsAreNotConfused(u: seq<Width>, base: nat, j: nat, k: nat, v: Word, v': Word, w: Word)
    requires Accepted(u, base) && j < |u| && k < |u| && InClass(u, base, j, v) && InClass(u, base, k, v')
    requires |w| == base && Field(w, u[j]) == v && Field(w, u[k]) == v'
    ensures v == v'
  {
    TagIsRead(u, base, j, v, w);
    TagIsRead(u, base, k, v', w);
  }

  /** The width a word belongs to: the first whose mask it lacks, or the last. */
  ghost function ClassFrom(u: seq<Width>, w: Word, k: nat): (r: nat)
    requires k < |u|
    ensures k <= r < |u| && (forall i :: k <= i < r ==> Has(w, u[i].mask))
    ensures r < |u| - 1 ==> !Has(w, u[r].mask)
    decreases |u| - k
  {
    if k == |u| - 1 || !Has(w, u[k].mask) then k else ClassFrom(u, w, k + 1)
  }

  /** A field at the bottom of the word has the masks of its own and all narrower widths
      exactly when the word does. */
  lemma {:induction false} BottomFieldHas(u: seq<Width>, base: nat, j: nat, k: nat, w: Word)
    requires Accepted(u, base) && j <= k < |u| && |w| == base && u[j].shift == 0 == u[k].shift
    ensures Has(Field(w, u[k]), u[j].mask) <==> Has(w, u[j].mask)
  {
    assert InField(u[j], base) && InField(u[k], base);
    assert u[j].bits <= u[k].bits;
    var x := Field(w, u[k]);
    forall i | 0 <= i < base && u[j].mask[i] ensures Bit(x, i) == Bit(w, i) {
    }
  }

  lemma {:induction false} SameClass(u: seq<Width>, base: nat, k: nat, w: Word)
    requires Accepted(u, base) && k < |u| && |w| == base
    requires forall i :: 0 <= i < |u| ==> u[i].shift == 0
    ensures k == ClassFrom(u, w, 0) <==> k == ClassFrom(u, Field(w, u[k]), 0)
  {
    forall j | 0 <= j <= k ensures Has(Field(w, u[k]), u[j].mask) <==> Has(w, u[j].mask) {
      BottomFieldHas(u, base, j, k, w);
    }
  }

  /** With one width, or all tag fields at the bottom of the word, the comparison agrees with
      the reader on every word and every tag. */
  lemma {:induction false} ComparisonAgrees(u: seq<Width>, base: nat, w: Word, x: Word)
    requires Accepted(u, base) && |w| == |x| == base
    requires |u| == 1 || forall k :: 0 <= k < |u| ==> u[k].shift == 0
    ensures TagEquals(u, w, x) <==> GetTag(u, w) == x
  {
    var k, l := ClassFrom(u, w, 0), ClassFrom(u, x, 0);
    ReadsAt(u, w, 0, k);
    ComparesAt(u, w, x, 0, l);
    if |u| > 1 {
      SameClass(u, base, k, w);
      SameClass(u, base, l, w);
    }
  }

  /** A word that holds the first mask, and ones everywhere outside the first field. */
  function Crowded(f: Width, base: nat): (w: Word)
    requires |f.mask| == base
    ensures |w| == base
    ensures forall i :: 0 <= i < base ==> w[i] == (f.mask[i] || !(f.shift <= i < f.shift + f.bits))
  {
    seq(base, i => Bit(f.mask, i) || !(f.shift <= i < f.shift + f.bits))
  }

  /** If a wider field of the crowded word read as the first mask, all bits of the mask, and
      the one after them, would be ones. */
  lemma {:induction false} CrowdedOnes(f: Width, g: Width, base: nat, i: nat)
    requires InField(f, base) && InField(g, base) && f.bits < g.bits && g.shift < f.shift && i <= f.bits
    requires Field(Crowded(f, base), g) == Field(f.mask, f)
    ensures Field(f.mask, f)[i]
  {
    var w, x := Crowded(f, base), Field(f.mask, f);
    assert Field(w, g)[i] == Bit(w, i + g.shift);
    if i + g.shift >= f.shift {
      CrowdedOnes(f, g, base, i + g.shift - f.shift);
    }
  }

  lemma {:induction false} CrowdedDiffers(f: Width, g: Width, base: nat)
    requires InField(f, base) && InField(g, base) && f.bits < g.bits
    ensures Field(Crowded(f, base), g) != Field(f.mask, f)
  {
    var w, x := Crowded(f, base), Field(f.mask, f);
    if Field(w, g) == x {
      assert Field(w, g)[f.bits] == Bit(w, f.bits + g.shift);
      assert !x[f.bits];
      CrowdedOnes(f, g, base, f.bits);
    }
  }

  lemma {:induction false} HighestBit(m: Word, i: nat) returns (h: nat)
    requires i < |m| && m[i]
    ensures h < |m| && m[h] && forall j :: h < j < |m| ==> !m[j]
    decreases |m| - i
  {
    if j :| i < j < |m| && m[j] {
      h := HighestBit(m, j);
    } else {
      h := i;
    }
  }

  lemma {:induction false} LowestBit(m: Word, i: nat) returns (l: nat)
    requires i < |m| && m[i]
    ensures l < |m| && m[l] && forall j :: 0 <= j < l ==> !m[j]
    decreases i
  {
    if j :| 0 <= j < i && m[j] {
      l := LowestBit(m, j);
    } else {
      l := i;
    }
  }

  /** A raised mask is not a part of itself moved down: its highest bit is missing. */
  lemma {:induction false} ShiftedMaskIsLost(f: Width, base: nat, i: nat)
    requires InField(f, base) && f.shift > 0 && i < base && f.mask[i]
    ensures !Has(Field(f.mask, f), f.mask)
  {
    var h := HighestBit(f.mask, i);
    assert !Bit(Field(f.mask, f), h);
  }

  lemma {:induction false} MasksInclude(u: seq<Width>, base: nat, j: nat, k: nat)
    requires Accepted(u, base) && j <= k < |u|
    ensures Has(u[k].mask, u[j].mask)
    decreases k
  {
    if j < k {
      MasksInclude(u, base, j, k - 1);
      assert Has(u[k].mask, u[k - 1].mask) && |u[k - 1].mask| == base by {
        assert InField(u[k - 1], base);
      }
    }
  }

  /** The first tag field is not at the bottom of the word: the comparison stops at the
      first width for a tag that the reader takes to be wider. */
  lemma {:induction false} FirstFieldRaised(u: seq<Width>, base: nat) returns (w: Word, x: Word)
    requires Accepted(u, base) && |u| > 1 && u[0].shift > 0
    ensures |w| == |x| == base && TagEquals(u, w, x) && GetTag(u, w) != x
  {
    var f := u[0];
    assert InField(f, base);
    w, x := Crowded(f, base), Field(f.mask, f);
    var i :| 0 <= i < base && f.mask[i];
    ShiftedMaskIsLost(f, base, i);
    ComparesAt(u, w, x, 0, 0);
    assert Field(w, f) == x;
    assert Has(w, f.mask);
    var k := ClassFrom(u, w, 0);
    ReadsAt(u, w, 0, k);
    assert InField(u[k], base);
    CrowdedDiffers(f, u[k], base);
  }

  lemma {:induction false} FirstMaskIsInAll(u: seq<Width>, base: nat, k: nat) returns (i: nat)
    requires Accepted(u, base) && |u| > 1 && k < |u|
    ensures i < base && |u[k].mask| == base && u[k].mask[i]
  {
    i :| 0 <= i < base && u[0].mask[i];
    assert InField(u[0], base) && InField(u[k], base);
    MasksInclude(u, base, 0, k);
  }

  lemma {:induction false} MaskComesBack(f: Width, g: Width, base: nat)
    requires InField(f, base) && InField(g, base) && f.shift == 0 && f.bits < g.bits
    ensures Field(Placed(f.mask, g), g) == f.mask
  {
    var w := Placed(f.mask, g);
    forall i | 0 <= i < base ensures Field(w, g)[i] == f.mask[i] {
      if i < g.bits {
        assert Bit(w, i + g.shift) == Bit(f.mask, i + g.shift - g.shift);
      }
    }
  }

  /** Width k is the first whose tag field is not at the bottom. */
  lemma {:induction false} LaterFieldRaised(u: seq<Width>, base: nat, k: nat) returns (w: Word, x: Word)
    requires Accepted(u, base) && 0 < k < |u| && u[k].shift > 0
    requires forall j :: 0 <= j < k ==> u[j].shift == 0
    ensures |w| == |x| == base && TagEquals(u, w, x) && GetTag(u, w) != x
  {
    var f, g := u[k - 1], u[k];
    assert InField(f, base) && InField(g, base);
    x := f.mask;
    w := Placed(x, g);
    // the comparison gets as far as width k and finds the mask there
    forall j | 0 <= j < k ensures Has(x, u[j].mask) {
      MasksInclude(u, base, j, k - 1);
    }
    HasEachOther(g.mask, x);
    ComparesAt(u, w, x, 0, k);
    MaskComesBack(f, g, base);
    // the reader stops before, since the lowest bit of the mask is not in the word
    var i := FirstMaskIsInAll(u, base, k - 1);
    var l := LowestBit(x, i);
    assert !w[l];
    var c := ClassFrom(u, w, 0);
    assert !Has(w, f.mask);
    assert c <= k - 1;
    ReadsAt(u, w, 0, c);
    assert !Field(w, u[c])[l];
  }

  lemma {:induction false} FirstRaised(u: seq<Width>, k: nat) returns (first: nat)
    requires k < |u| && u[k].shift != 0
    ensures first < |u| && u[first].shift > 0 && forall j :: 0 <= j < first ==> u[j].shift == 0
    decreases k
  {
    if j :| 0 <= j < k && u[j].shift != 0 {
      first := FirstRaised(u, j);
    } else {
      first := k;
    }
  }

  /** The comparison agrees with the reader on every word and tag exactly when the tag has one
      width, or every tag field is at the bottom of its word. */
  lemma {:induction false} ComparisonIsRight(u: seq<Width>, base: nat)
    requires Accepted(u, base)
    ensures (forall w, x :: |w| == |x| == base ==> (TagEquals(u, w, x) <==> GetTag(u, w) == x)) <==>
            (|u| == 1 || forall k :: 0 <= k < |u| ==> u[k].shift == 0)
  {
    if |u| == 1 || forall k :: 0 <= k < |u| ==> u[k].shift == 0 {
      forall w, x | |w| == |x| == base ensures TagEquals(u, w, x) <==> GetTag(u, w) == x {
        ComparisonAgrees(u, base, w, x);
      }
    } else {
      var k :| 0 <= k < |u| && u[k].shift != 0;
      var first := FirstRaised(u, k);
      var w, x;
      if first == 0 {
        w, x := FirstFieldRaised(u, base);
      } else {
        w, x := LaterFieldRaised(u, base, first);
      }
      assert !(TagEquals(u, w, x) <==> GetTag(u, w) == x);
    }
  }
}
