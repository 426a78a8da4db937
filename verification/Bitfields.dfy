/** Blocks of bitfields: how fields are laid out in words and what the generated readers,
    writers and generators do. */
module Bitfields {
  import opened Bits

  /** A declared field; padding has no name. */
  datatype Spec = Spec(named: bool, size: nat, high: bool)

  /** A field's place, counted from the lowest bit of the block. */
  datatype Field = Field(offset: nat, size: nat, high: bool)

  /** Word size, the number of bits a high field is aligned to, and whether it is
      sign-extended from there. */
  datatype Base = Base(bits: nat, canonical: nat, signExtend: bool)

  function Total(specs: seq<Spec>): nat {
    if |specs| == 0 then 0 else specs[0].size + Total(specs[1..])
  }

  /** Later fields lie below earlier ones. */
  ghost predicate Descending(fs: seq<Field>) {
    forall j, k :: 0 <= j < k < |fs| ==> fs[k].offset + fs[k].size <= fs[j].offset
  }

  /** The named fields: each lies above everything declared after it. */
  function Placed(specs: seq<Spec>): seq<Field> {
    if |specs| == 0 then []
    else
      (if specs[0].named then [Field(Total(specs[1..]), specs[0].size, specs[0].high)] else []) + Placed(specs[1..])
  }

  /** Fields lie inside the block and share no bit. */
  lemma {:induction false} PlacedApart(specs: seq<Spec>)
    ensures Descending(Placed(specs))
    ensures forall k :: 0 <= k < |Placed(specs)| ==> Placed(specs)[k].offset + Placed(specs)[k].size <= Total(specs)
  {
    if |specs| > 0 {
      PlacedApart(specs[1..]);
    }
  }

  function NamedCount(specs: seq<Spec>): nat {
    if |specs| == 0 then 0 else (if specs[0].named then 1 else 0) + NamedCount(specs[1..])
  }

  /** Declaration m, when it is named: as far below the top of the block as everything up to
      it, padding included, is wide. */
  lemma {:induction false} PlacedAt(specs: seq<Spec>, m: nat)
    requires m < |specs| && specs[m].named
    ensures var k := NamedCount(specs[..m]);
            && k < |Placed(specs)| && Total(specs[..m + 1]) <= Total(specs)
            && Placed(specs)[k] == Field(Total(specs) - Total(specs[..m + 1]), specs[m].size, specs[m].high)
  {
    if m == 0 {
      assert specs[..1][1..] == [];
    } else {
      PlacedAt(specs[1..], m - 1);
      assert specs[..m][1..] == specs[1..][..m - 1] && specs[..m + 1][1..] == specs[1..][..m];
    }
  }

  /** Block.__init__: fields are declared from the top of the block down. */
  method Layout(specs: seq<Spec>) returns (size: nat, fields: seq<Field>)
    ensures size == Total(specs) && fields == Placed(specs)
  {
    size := Total(specs);
    fields := [];
    var offset: int := size;
    for i := 0 to |specs|
      invariant offset == Total(specs[i..])
      invariant fields + Placed(specs[i..]) == Placed(specs)
    {
      assert specs[i..][1..] == specs[i + 1..];
      offset := offset - specs[i].size;
      if specs[i].named {
        fields := fields + [Field(offset, specs[i].size, specs[i].high)];
      }
    }
  }

  ghost predicate BaseOk(c: Base) {
    0 < c.canonical <= c.bits
  }

  predicate OneWord(c: Base, f: Field)
    requires c.bits > 0
  {
    f.offset / c.bits == (f.offset + f.size - 1) / c.bits
  }

  /** Block.set_base: the block is a whole number of words and no field crosses a word
      boundary. */
  method SetBase(c: Base, size: nat, fields: seq<Field>) returns (ok: bool)
    requires c.bits > 0
    ensures ok <==> size % c.bits == 0 && forall k :: 0 <= k < |fields| ==> OneWord(c, fields[k])
  {
    if size % c.bits != 0 {
      return false;
    }
    for i := 0 to |fields|
      invariant forall k :: 0 <= k < i ==> OneWord(c, fields[k])
    {
      if fields[i].offset / c.bits != (fields[i].offset + fields[i].size - 1) / c.bits {
        return false;
      }
    }
    return true;
  }

  function Index(c: Base, f: Field): nat
    requires c.bits > 0
  {
    f.offset / c.bits
  }

  /** A field's place in its word: its lowest bit there, its size, the lowest bit of its
      value, and whether the value is sign-extended. */
  datatype Place = Place(low: nat, size: nat, value: int, extend: bool)

  /** A high field's value is aligned to the canonical width; when it is wider than that, its
      lowest bits have no place in the value. */
  function PlaceOf(c: Base, f: Field): Place
    requires c.bits > 0
  {
    Place(f.offset % c.bits, f.size, if f.high then c.canonical - f.size else 0, f.high && c.signExtend)
  }

  /** The place lies in the word. */
  ghost predicate PlaceOk(c: Base, p: Place) {
    BaseOk(c) && p.low + p.size <= c.bits
  }

  lemma {:induction false} QuotientOf(b: nat, q: nat, x: int)
    requires b > 0 && x / b == q
    ensures b * q <= x < b * q + b
  {
  }

  lemma {:induction false} OneWordFits(c: Base, f: Field)
    requires BaseOk(c) && OneWord(c, f)
    ensures PlaceOk(c, PlaceOf(c, f))
  {
    var q, b, o, s := f.offset / c.bits, c.bits, f.offset % c.bits, f.size;
    assert f.offset == b * q + o;
    QuotientOf(b, q, f.offset + s - 1);
  }

  /** How far up the value's bits are moved to their place in the word; a negative distance
      moves them down. */
  function Distance(p: Place): int {
    p.low - p.value
  }

  function Extend(c: Base, p: Place, r: Word): (e: Word)
    ensures |e| == |r|
    ensures forall i :: 0 <= i < |e| ==>
              e[i] == (r[i] || (p.extend && Bit(r, c.canonical - 1) && c.canonical <= i < c.bits))
  {
    if p.extend && Bit(r, c.canonical - 1) then Or(r, Ones(|r|, c.canonical, c.bits)) else r
  }

  /** A field's bits, moved to where its value has them. */
  function Raw(p: Place, w: Word): (r: Word)
    ensures |r| == |w|
    ensures forall i :: 0 <= i < |r| ==>
              r[i] == (p.low <= i + Distance(p) < p.low + p.size && Bit(w, i + Distance(p)))
  {
    Shift(Keep(w, p.low, p.low + p.size), Distance(p))
  }

  /** The generated reader. */
  function Get(c: Base, p: Place, w: Word): (r: Word)
    ensures |r| == |w|
  {
    Extend(c, p, Raw(p, w))
  }

  /** The generated writer. */
  function Set(p: Place, w: Word, v: Word): (r: Word)
    requires |w| == |v|
    ensures |r| == |w|
    ensures forall i :: 0 <= i < |r| ==>
              r[i] == if p.low <= i < p.low + p.size then Bit(v, i - Distance(p)) else w[i]
  {
    Or(Clear(w, p.low, p.low + p.size), Keep(Shift(v, 0 - Distance(p)), p.low, p.low + p.size))
  }

  /** A value cut to the bits its field can hold, then sign-extended as the reader does. */
  function Canon(c: Base, p: Place, v: Word): (r: Word)
    ensures |r| == |v|
  {
    Extend(c, p, Keep(v, p.value, p.value + p.size))
  }

  /** Bit i of what a field holds of a value. A low field holds the lowest bits; a high field
      the bits below the canonical width, which the reader may extend by their sign. */
  predicate HeldBit(c: Base, f: Field, v: Word, i: int) {
    if !f.high then i < f.size && Bit(v, i)
    else if i < c.canonical then c.canonical - f.size <= i && Bit(v, i)
    else c.signExtend && f.size > 0 && Bit(v, c.canonical - 1)
  }

  function Held(c: Base, f: Field, v: Word): (r: Word)
    ensures |r| == |v| && forall i :: 0 <= i < |r| ==> r[i] == HeldBit(c, f, v, i)
  {
    seq(|v|, i => HeldBit(c, f, v, i))
  }

  lemma {:induction false} CanonIsHeld(c: Base, f: Field, v: Word)
    requires BaseOk(c) && OneWord(c, f) && |v| == c.bits
    ensures Canon(c, PlaceOf(c, f), v) == Held(c, f, v)
  {
    OneWordFits(c, f);
    var p := PlaceOf(c, f);
    var kept := Keep(v, p.value, p.value + p.size);
    forall i | 0 <= i < c.bits ensures Canon(c, p, v)[i] == HeldBit(c, f, v, i) {
      assert Canon(c, p, v)[i] == (kept[i] || (p.extend && kept[c.canonical - 1] && c.canonical <= i));
    }
  }

  lemma {:induction false} RawSet(c: Base, p: Place, w: Word, v: Word)
    requires PlaceOk(c, p) && |w| == |v| == c.bits
    ensures Raw(p, Set(p, w, v)) == Keep(v, p.value, p.value + p.size)
  {
    var a, b := Raw(p, Set(p, w, v)), Keep(v, p.value, p.value + p.size);
    forall i | 0 <= i < c.bits ensures a[i] == b[i] {
    }
  }

  /** Reading a field just written gives the value, cut to the field. */
  lemma {:induction false} GetSet(c: Base, p: Place, w: Word, v: Word)
    requires PlaceOk(c, p) && |w| == |v| == c.bits
    ensures Get(c, p, Set(p, w, v)) == Canon(c, p, v)
  {
    RawSet(c, p, w, v);
  }

  /** Two fields that share no bit. */
  predicate Apart(p: Place, q: Place) {
    p.low + p.size <= q.low || q.low + q.size <= p.low
  }

  /** Writing a field leaves every other field of the word as it was. */
  lemma {:induction false} GetOther(c: Base, p: Place, q: Place, w: Word, v: Word)
    requires PlaceOk(c, p) && PlaceOk(c, q) && Apart(p, q) && |w| == |v| == c.bits
    ensures Get(c, q, Set(p, w, v)) == Get(c, q, w)
  {
    assert Raw(q, Set(p, w, v)) == Raw(q, w);
  }

  /** Where the values of generated fields lie: at the bottom of the word, or with their top at
      the canonical width. */
  ghost predicate ValueOk(c: Base, p: Place) {
    p.value + p.size <= if p.extend then c.canonical else c.bits
  }

  lemma {:induction false} PlaceHasValue(c: Base, f: Field)
    requires BaseOk(c) && OneWord(c, f)
    ensures ValueOk(c, PlaceOf(c, f))
  {
    OneWordFits(c, f);
  }

  lemma {:induction false} GetBit(c: Base, p: Place, w: Word, i: int)
    requires PlaceOk(c, p) && ValueOk(c, p) && |w| == c.bits && 0 <= i && p.value <= i < p.value + p.size
    ensures Get(c, p, w)[i] == w[i + Distance(p)]
  {
  }

  lemma {:induction false} GetBits(c: Base, p: Place, w: Word, i: nat)
    requires PlaceOk(c, p) && ValueOk(c, p) && |w| == c.bits && i < c.bits
    requires p.extend ==> p.value + p.size == c.canonical
    ensures Get(c, p, w)[i] ==
            if p.extend && c.canonical <= i then p.size > 0 && w[p.low + p.size - 1]
            else p.value <= i < p.value + p.size && w[p.low + i - p.value]
  {
    var r := Raw(p, w);
    assert r[i] == (p.value <= i < p.value + p.size && w[p.low + i - p.value]);
    if p.extend {
      assert r[c.canonical - 1] == (p.size > 0 && w[p.low + p.size - 1]);
    }
  }

  /** A bit of the field that has no place in its value. */
  predicate Valueless(p: Place, i: int) {
    p.low <= i < p.low + p.size && i - Distance(p) < 0
  }

  /** Writing back what was read changes nothing exactly when the bits that have no place in
      the value are zero; there are such bits only in a high field that is wider than the
      canonical width. */
  lemma {:induction false} SetOfGet(c: Base, p: Place, w: Word)
    requires PlaceOk(c, p) && ValueOk(c, p) && |w| == c.bits
    ensures Set(p, w, Get(c, p, w)) == w <==> forall i :: 0 <= i < |w| && Valueless(p, i) ==> !w[i]
    ensures p.value >= 0 ==> Set(p, w, Get(c, p, w)) == w
  {
    var r := Set(p, w, Get(c, p, w));
    forall i | 0 <= i < c.bits ensures r[i] == (w[i] && !Valueless(p, i)) {
      if p.low <= i < p.low + p.size && !Valueless(p, i) {
        GetBit(c, p, w, i - Distance(p));
      }
    }
  }

  lemma {:induction false} QuotientOfLess(b: nat)
    requires b > 0
    ensures (b - 1) / b == 0 == 0 / b && 0 % b == 0
  {
  }

  /** A high field of the whole word, where the canonical width is less: its lowest bit is not
      written back. */
  lemma {:induction false} WideHighLosesBits(c: Base)
    requires BaseOk(c) && c.canonical < c.bits
    ensures var p, w := PlaceOf(c, Field(0, c.bits, true)), Ones(c.bits, 0, 1);
            OneWord(c, Field(0, c.bits, true)) && Set(p, w, Get(c, p, w)) != w
  {
    var f := Field(0, c.bits, true);
    QuotientOfLess(c.bits);
    PlaceHasValue(c, f);
    OneWordFits(c, f);
    SetOfGet(c, PlaceOf(c, f), Ones(c.bits, 0, 1));
    assert Valueless(PlaceOf(c, f), 0);
  }

  /** The bits of a value that the writer's assertion looks at: the ones that moving the
      complement of the field's mask to the value's place reaches, and the ones above the
      canonical width when the field is sign-extended. */
  predicate Checked(c: Base, p: Place, i: int) {
    (0 <= i + Distance(p) < c.bits && !(p.value <= i < p.value + p.size)) || (p.extend && c.canonical <= i)
  }

  /** The writer's assertion that the caller passes no bits that would be lost. */
  ghost predicate Asserted(c: Base, p: Place, v: Word) {
    forall i :: 0 <= i < |v| ==>
      (Checked(c, p, i) && v[i] <==> p.extend && Bit(v, c.canonical - 1) && c.canonical <= i < c.bits)
  }

  /** A bit that would be moved out of the word, so that the assertion does not see it. */
  predicate Unseen(c: Base, p: Place, i: int) {
    !(0 <= i + Distance(p) < c.bits) && !(p.extend && c.canonical <= i)
  }

  lemma {:induction false} CanonBit(c: Base, p: Place, v: Word, i: int)
    requires PlaceOk(c, p) && |v| == c.bits && Asserted(c, p, v) && 0 <= i < c.bits
    requires p.extend ==> p.value + p.size == c.canonical && p.size > 0
    ensures Canon(c, p, v)[i] == (v[i] && !Unseen(c, p, i))
  {
    var b := Keep(v, p.value, p.value + p.size);
    assert p.extend ==> b[c.canonical - 1] == v[c.canonical - 1];
  }

  /** A value that passes the assertion is read back exactly when it has no bit that the
      assertion does not see. */
  lemma {:induction false} AssertedIsReadBack(c: Base, p: Place, w: Word, v: Word)
    requires PlaceOk(c, p) && |w| == |v| == c.bits && Asserted(c, p, v)
    requires p.extend ==> p.value + p.size == c.canonical && p.size > 0
    ensures Get(c, p, Set(p, w, v)) == v <==> forall i :: 0 <= i < |v| && Unseen(c, p, i) ==> !v[i]
  {
    GetSet(c, p, w, v);
    forall i | 0 <= i < c.bits ensures Canon(c, p, v)[i] == (v[i] && !Unseen(c, p, i)) {
      CanonBit(c, p, v, i);
    }
  }

  /** Every low field that is not at the bottom of its word has such a value: the top bit
      alone. */
  lemma {:induction false} AssertionMissesBits(c: Base, p: Place, w: Word) returns (v: Word)
    requires PlaceOk(c, p) && p.value == 0 < p.low && !p.extend && |w| == c.bits
    ensures |v| == c.bits && Asserted(c, p, v) && Get(c, p, Set(p, w, v)) != v
  {
    v := Ones(c.bits, c.bits - 1, c.bits);
    AssertedIsReadBack(c, p, w, v);
    assert Unseen(c, p, c.bits - 1) && v[c.bits - 1];
  }

  // Blocks of several words

  type Block = seq<Word>

  ghost predicate BlockOk(c: Base, b: Block) {
    BaseOk(c) && forall i :: 0 <= i < |b| ==> |b[i]| == c.bits
  }

  ghost predicate FieldOk(c: Base, words: nat, f: Field) {
    BaseOk(c) && OneWord(c, f) && f.offset < words * c.bits
  }

  lemma {:induction false} MulMonotone(a: nat, b: nat, k: nat)
    requires a <= b
    ensures a * k <= b * k
  {
  }

  lemma {:induction false} IndexInBlock(c: Base, words: nat, f: Field)
    requires FieldOk(c, words, f)
    ensures Index(c, f) < words && PlaceOk(c, PlaceOf(c, f))
  {
    OneWordFits(c, f);
    if Index(c, f) >= words {
      assert Index(c, f) * c.bits >= words * c.bits by {
        MulMonotone(words, Index(c, f), c.bits);
      }
    }
  }

  function GetField(c: Base, f: Field, b: Block): Word
    requires c.bits > 0 && Index(c, f) < |b|
  {
    Get(c, PlaceOf(c, f), b[Index(c, f)])
  }

  function SetField(c: Base, f: Field, b: Block, v: Word): Block
    requires c.bits > 0 && Index(c, f) < |b| && |b[Index(c, f)]| == |v|
  {
    b[Index(c, f) := Set(PlaceOf(c, f), b[Index(c, f)], v)]
  }

  /** Fields of a layout share no bit. */
  lemma {:induction false} FieldsApart(c: Base, f: Field, g: Field)
    requires c.bits > 0 && (f.offset + f.size <= g.offset || g.offset + g.size <= f.offset)
    ensures Index(c, f) != Index(c, g) || Apart(PlaceOf(c, f), PlaceOf(c, g))
  {
    assert f.offset == c.bits * Index(c, f) + f.offset % c.bits;
    assert g.offset == c.bits * Index(c, g) + g.offset % c.bits;
  }

  lemma {:induction false} BlockGetSet(c: Base, f: Field, b: Block, v: Word)
    requires BlockOk(c, b) && FieldOk(c, |b|, f) && |v| == c.bits
    ensures Index(c, f) < |b| && BlockOk(c, SetField(c, f, b, v))
    ensures GetField(c, f, SetField(c, f, b, v)) == Held(c, f, v)
  {
    IndexInBlock(c, |b|, f);
    GetSet(c, PlaceOf(c, f), b[Index(c, f)], v);
    CanonIsHeld(c, f, v);
  }

  /** A reader gives the field's bits, which start at its offset, in the lowest bits of the
      word or below the canonical width, and perhaps their sign above. */
  lemma {:induction false} ReaderBits(c: Base, f: Field, b: Block, i: nat)
    requires BlockOk(c, b) && FieldOk(c, |b|, f) && i < c.bits
    ensures f.offset / c.bits < |b| && |GetField(c, f, b)| == c.bits
    ensures var w, low, shift := b[f.offset / c.bits], f.offset % c.bits, if f.high then c.canonical - f.size else 0;
            && low + f.size <= c.bits
            && GetField(c, f, b)[i] ==
               if f.high && c.canonical <= i then c.signExtend && f.size > 0 && w[low + f.size - 1]
               else shift <= i < shift + f.size && w[low + i - shift]
  {
    IndexInBlock(c, |b|, f);
    PlaceHasValue(c, f);
    GetBits(c, PlaceOf(c, f), b[Index(c, f)], i);
  }

  /** A writer changes the field's bits to the value's, and no other bit of the block. */
  lemma {:induction false} WriterBits(c: Base, f: Field, b: Block, v: Word, x: nat, y: nat)
    requires BlockOk(c, b) && FieldOk(c, |b|, f) && |v| == c.bits && x < |b| && y < c.bits
    ensures f.offset / c.bits < |b|
    ensures var low, shift := f.offset % c.bits, if f.high then c.canonical - f.size else 0;
            SetField(c, f, b, v)[x][y] ==
            if x == f.offset / c.bits && low <= y < low + f.size then Bit(v, y - low + shift) else b[x][y]
  {
    IndexInBlock(c, |b|, f);
  }

  lemma {:induction false} BlockGetOther(c: Base, f: Field, g: Field, b: Block, v: Word)
    requires BlockOk(c, b) && FieldOk(c, |b|, f) && FieldOk(c, |b|, g) && |v| == c.bits
    requires f.offset + f.size <= g.offset || g.offset + g.size <= f.offset
    ensures Index(c, f) < |b| && Index(c, g) < |b|
    ensures GetField(c, g, SetField(c, f, b, v)) == GetField(c, g, b)
  {
    IndexInBlock(c, |b|, f);
    IndexInBlock(c, |b|, g);
    FieldsApart(c, f, g);
    if Index(c, f) == Index(c, g) {
      GetOther(c, PlaceOf(c, f), PlaceOf(c, g), b[Index(c, f)], v);
    }
  }

  /** The inputs of a block's generator. */
  ghost predicate Args(c: Base, fs: seq<Field>, vs: seq<Word>, words: nat) {
    && BaseOk(c) && |fs| == |vs| && Descending(fs)
    && (forall k :: 0 <= k < |fs| ==> FieldOk(c, words, fs[k]))
    && (forall k :: 0 <= k < |vs| ==> |vs[k]| == c.bits)
  }

  /** Every field written in turn. */
  ghost function WriteAll(c: Base, fs: seq<Field>, vs: seq<Word>, b: Block): (r: Block)
    requires Args(c, fs, vs, |b|) && BlockOk(c, b)
    ensures |r| == |b| && BlockOk(c, r)
  {
    if |fs| == 0 then b
    else
      var n := |fs| - 1;
      var r := WriteAll(c, fs[..n], vs[..n], b);
      BlockGetSet(c, fs[n], r, vs[n]);
      SetField(c, fs[n], r, vs[n])
  }

  lemma {:induction false} ReadsEach(c: Base, fs: seq<Field>, vs: seq<Word>, b: Block, k: nat)
    requires Args(c, fs, vs, |b|) && BlockOk(c, b) && k < |fs|
    ensures Index(c, fs[k]) < |b|
    ensures GetField(c, fs[k], WriteAll(c, fs, vs, b)) == Held(c, fs[k], vs[k])
    decreases |fs|
  {
    var n := |fs| - 1;
    var r := WriteAll(c, fs[..n], vs[..n], b);
    IndexInBlock(c, |b|, fs[k]);
    if k == n {
      BlockGetSet(c, fs[n], r, vs[n]);
    } else {
      ReadsEach(c, fs[..n], vs[..n], b, k);
      BlockGetOther(c, fs[n], fs[k], r, vs[n]);
    }
  }

  /** What the generator contributes to a word for a field: the value cut to its bits and
      moved to its place. */
  function Contribution(p: Place, v: Word): (r: Word)
    ensures |r| == |v|
  {
    Shift(Keep(v, p.value, p.value + p.size), 0 - Distance(p))
  }

  /** The field's bits are all zero. */
  ghost predicate Blank(p: Place, w: Word) {
    forall i :: p.low <= i < p.low + p.size ==> !Bit(w, i)
  }

  lemma {:induction false} OrIsSet(c: Base, p: Place, w: Word, v: Word)
    requires PlaceOk(c, p) && |w| == |v| == c.bits && Blank(p, w)
    ensures Or(w, Contribution(p, v)) == Set(p, w, v)
  {
    forall i | 0 <= i < c.bits ensures Or(w, Contribution(p, v))[i] == Set(p, w, v)[i] {
      assert p.low <= i < p.low + p.size ==> !Bit(w, i);
    }
  }

  ghost predicate BlankField(c: Base, f: Field, b: Block) {
    c.bits > 0 && Index(c, f) < |b| && Blank(PlaceOf(c, f), b[Index(c, f)])
  }

  lemma {:induction false} StaysBlank(c: Base, f: Field, g: Field, b: Block, v: Word)
    requires BlockOk(c, b) && FieldOk(c, |b|, f) && FieldOk(c, |b|, g) && |v| == c.bits && BlankField(c, g, b)
    requires f.offset + f.size <= g.offset || g.offset + g.size <= f.offset
    ensures Index(c, f) < |b| && BlankField(c, g, SetField(c, f, b, v))
  {
    IndexInBlock(c, |b|, f);
    IndexInBlock(c, |b|, g);
    FieldsApart(c, f, g);
    var p := PlaceOf(c, g);
    var b' := SetField(c, f, b, v);
    forall i | p.low <= i < p.low + p.size ensures !Bit(b'[Index(c, g)], i) {
      assert !Bit(b[Index(c, g)], i);
    }
  }

  function Zeros(c: Base, words: nat): Block {
    seq(words, _ => Ones(c.bits, 0, 0))
  }

  /** The generated generator: every word is the union of its fields' contributions. It
      makes the block that has every field written and zeros elsewhere. */
  method New(c: Base, fs: seq<Field>, vs: seq<Word>, words: nat) returns (b: Block)
    requires Args(c, fs, vs, words)
    ensures BlockOk(c, Zeros(c, words)) && b == WriteAll(c, fs, vs, Zeros(c, words))
  {
    b := Zeros(c, words);
    ghost var zeros := b;
    forall j | 0 <= j < |fs| ensures BlankField(c, fs[j], b) {
      IndexInBlock(c, words, fs[j]);
    }
    for k := 0 to |fs|
      invariant |b| == words && BlockOk(c, b) && b == WriteAll(c, fs[..k], vs[..k], zeros)
      invariant forall j :: k <= j < |fs| ==> BlankField(c, fs[j], b)
    {
      IndexInBlock(c, words, fs[k]);
      assert fs[..k + 1][..k] == fs[..k] && vs[..k + 1][..k] == vs[..k];
      var i, p := Index(c, fs[k]), PlaceOf(c, fs[k]);
      OrIsSet(c, p, b[i], vs[k]);
      forall j | k < j < |fs| ensures BlankField(c, fs[j], SetField(c, fs[k], b, vs[k])) {
        assert BlankField(c, fs[j], b);
        StaysBlank(c, fs[k], fs[j], b, vs[k]);
      }
      b := b[i := Or(b[i], Contribution(p, vs[k]))];
    }
    assert fs[..|fs|] == fs && vs[..|vs|] == vs;
  }

  // Layouts that are accepted

  /** What Block.set_base accepts. */
  ghost predicate Accepted(c: Base, specs: seq<Spec>) {
    && BaseOk(c) && Total(specs) % c.bits == 0
    && forall k :: 0 <= k < |Placed(specs)| ==> OneWord(c, Placed(specs)[k])
  }

  function Words(c: Base, specs: seq<Spec>): nat
    requires c.bits > 0
  {
    Total(specs) / c.bits
  }

  lemma {:induction false} AcceptedField(c: Base, specs: seq<Spec>, k: nat)
    requires Accepted(c, specs) && k < |Placed(specs)|
    ensures FieldOk(c, Words(c, specs), Placed(specs)[k])
  {
    PlacedApart(specs);
    var f, w := Placed(specs)[k], Words(c, specs);
    assert Total(specs) == c.bits * w;
    if f.offset == Total(specs) {
      QuotientOf(c.bits, w, f.offset);
      QuotientOf(c.bits, w, f.offset - 1);
      assert false;
    }
  }

  /** An accepted layout is one that accessors can be generated for. */
  lemma {:induction false} AcceptedArgs(c: Base, specs: seq<Spec>, vs: seq<Word>)
    requires Accepted(c, specs)
    requires |vs| == |Placed(specs)| && forall k :: 0 <= k < |vs| ==> |vs[k]| == c.bits
    ensures Args(c, Placed(specs), vs, Words(c, specs))
  {
    PlacedApart(specs);
    forall k | 0 <= k < |Placed(specs)| ensures FieldOk(c, Words(c, specs), Placed(specs)[k]) {
      AcceptedField(c, specs, k);
    }
  }

  /** For every accepted layout and every block of it: a field just written is read back, cut
      to the field, and every other field reads as before. */
  lemma {:induction false} AcceptedGetSet(c: Base, specs: seq<Spec>, b: Block, j: nat, k: nat, v: Word)
    requires Accepted(c, specs) && BlockOk(c, b) && |b| == Words(c, specs)
    requires j < |Placed(specs)| && k < |Placed(specs)| && |v| == c.bits
    ensures var f, g := Placed(specs)[j], Placed(specs)[k];
            && Index(c, f) < |b| && Index(c, g) < |b|
            && GetField(c, g, SetField(c, f, b, v)) == if j == k then Held(c, f, v) else GetField(c, g, b)
  {
    AcceptedField(c, specs, j);
    AcceptedField(c, specs, k);
    BlockGetSet(c, Placed(specs)[j], b, v);
    if j != k {
      PlacedApart(specs);
      BlockGetOther(c, Placed(specs)[j], Placed(specs)[k], b, v);
    }
  }

  /** Writing back what was read of a block's field changes nothing exactly when its bits that
      have no place in the value are zero. */
  lemma {:induction false} AcceptedSetOfGet(c: Base, specs: seq<Spec>, b: Block, k: nat)
    requires Accepted(c, specs) && BlockOk(c, b) && |b| == Words(c, specs) && k < |Placed(specs)|
    ensures var f := Placed(specs)[k];
            && Index(c, f) < |b|
            && (SetField(c, f, b, GetField(c, f, b)) == b <==>
                  forall i :: 0 <= i < c.bits && Valueless(PlaceOf(c, f), i) ==> !b[Index(c, f)][i])
  {
    var f := Placed(specs)[k];
    AcceptedField(c, specs, k);
    IndexInBlock(c, |b|, f);
    PlaceHasValue(c, f);
    var w := b[Index(c, f)];
    SetOfGet(c, PlaceOf(c, f), w);
    assert SetField(c, f, b, GetField(c, f, b))[Index(c, f)] == Set(PlaceOf(c, f), w, Get(c, PlaceOf(c, f), w));
  }

  /** From the declaration to a block: the layout is accepted exactly when it is whole words
      and no field crosses a boundary, and then every field of the generated block reads as
      the value given for it. */
  method Generate(c: Base, specs: seq<Spec>, vs: seq<Word>) returns (ok: bool, b: Block)
    requires BaseOk(c)
    requires |vs| == |Placed(specs)| && forall k :: 0 <= k < |vs| ==> |vs[k]| == c.bits
    ensures ok <==> Accepted(c, specs)
    ensures ok ==> |b| == Words(c, specs) && BlockOk(c, b)
    ensures ok ==>
              forall k :: 0 <= k < |vs| ==>
                Index(c, Placed(specs)[k]) < |b| &&
                GetField(c, Placed(specs)[k], b) == Held(c, Placed(specs)[k], vs[k])
  {
    var size, fs := Layout(specs);
    ok := SetBase(c, size, fs);
    b := [];
    if ok {
      AcceptedArgs(c, specs, vs);
      b := New(c, fs, vs, size / c.bits);
      forall k | 0 <= k < |vs|
        ensures Index(c, fs[k]) < |b| && GetField(c, fs[k], b) == Held(c, fs[k], vs[k])
      {
        ReadsEach(c, fs, vs, Zeros(c, size / c.bits), k);
      }
    }
  }
}
