/** The blocks of a tagged union: the tag that a generator writes is the tag that is read,
    and writing other fields does not change it. */
module UnionBlocks {
  import opened Bits
  import opened Bitfields
  import T = TagUnions

  /** Field f of the block is the tag field of width k of the union. */
  ghost predicate IsTag(c: Base, u: seq<T.Width>, k: nat, f: Field) {
    c.bits > 0 && k < |u| && !f.high && u[k].bits == f.size && u[k].shift == f.offset % c.bits
  }

  lemma {:induction false} TagFieldIsField(c: Base, u: seq<T.Width>, k: nat, f: Field, w: Word)
    requires IsTag(c, u, k, f) && |w| == c.bits
    ensures T.Field(w, u[k]) == Get(c, PlaceOf(c, f), w)
  {
  }

  /** Whatever else it holds, a block that a generator made reads as the generator's tag. */
  lemma {:induction false} NewHasTag(c: Base, u: seq<T.Width>, k: nat, fs: seq<Field>, vs: seq<Word>, t: nat, words: nat)
    requires Args(c, fs, vs, words) && t < |fs|
    requires T.Accepted(u, c.bits) && IsTag(c, u, k, fs[t]) && T.InClass(u, c.bits, k, vs[t])
    ensures BlockOk(c, Zeros(c, words)) && Index(c, fs[t]) < words
    ensures T.GetTag(u, WriteAll(c, fs, vs, Zeros(c, words))[Index(c, fs[t])]) == vs[t]
  {
    var b := WriteAll(c, fs, vs, Zeros(c, words));
    ReadsEach(c, fs, vs, Zeros(c, words), t);
    TagFieldIsField(c, u, k, fs[t], b[Index(c, fs[t])]);
    assert Held(c, fs[t], vs[t]) == vs[t];
    T.TagIsRead(u, c.bits, k, vs[t], b[Index(c, fs[t])]);
  }

  /** Writing another field of a block leaves its tag. */
  lemma {:induction false} SetKeepsTag(c: Base, u: seq<T.Width>, k: nat, tag: Field, f: Field, b: Block, v: Word)
    requires BlockOk(c, b) && FieldOk(c, |b|, tag) && FieldOk(c, |b|, f) && |v| == c.bits
    requires tag.offset + tag.size <= f.offset || f.offset + f.size <= tag.offset
    requires T.Accepted(u, c.bits) && IsTag(c, u, k, tag) && Index(c, tag) < |b|
    requires T.InClass(u, c.bits, k, GetField(c, tag, b))
    ensures Index(c, f) < |b|
    ensures T.GetTag(u, SetField(c, f, b, v)[Index(c, tag)]) == T.GetTag(u, b[Index(c, tag)]) == GetField(c, tag, b)
  {
    BlockGetOther(c, f, tag, b, v);
    BlockGetSet(c, f, b, v);
    var i, x, b' := Index(c, tag), GetField(c, tag, b), SetField(c, f, b, v);
    TagFieldIsField(c, u, k, tag, b[i]);
    TagFieldIsField(c, u, k, tag, b'[i]);
    T.TagIsRead(u, c.bits, k, x, b[i]);
    T.TagIsRead(u, c.bits, k, x, b'[i]);
  }
}
