/**
  The winding counters of the boolean stage: how many times a fragment is
  covered by the subject and by the clip shape. Each edge contributes one
  of four unit counts, and counts are combined by componentwise addition.
 */
module ShapeCounts {

  datatype ShapeCountBoolean = ShapeCountBoolean(subj: int, clip: int)
  {
    /**
      `add`: the componentwise sum. Adding the zero count changes nothing, and
      taking `count` away again gives the counter back.
     */
    function Add(count: ShapeCountBoolean): (r: ShapeCountBoolean)
      ensures count == ShapeCountBoolean(0, 0) ==> r == this
      ensures r.subj - count.subj == subj && r.clip - count.clip == clip
    {
      ShapeCountBoolean(subj + count.subj, clip + count.clip)
    }

    /**
      `invert`: both counters negated, so that adding the result to the
      original gives zero; only the zero count is its own inverse.
     */
    function Invert(): (r: ShapeCountBoolean)
      ensures Add(r) == ShapeCountBoolean(0, 0)
      ensures r == this <==> this == ShapeCountBoolean(0, 0)
    {
      ShapeCountBoolean(-subj, -clip)
    }
  }

  const SUBJ_DIRECT: ShapeCountBoolean := ShapeCountBoolean(1, 0)
  const SUBJ_INVERT: ShapeCountBoolean := ShapeCountBoolean(-1, 0)
  const CLIP_DIRECT: ShapeCountBoolean := ShapeCountBoolean(0, 1)
  const CLIP_INVERT: ShapeCountBoolean := ShapeCountBoolean(0, -1)

  /** `new` stores both counters unchanged. */
  function New(subj: int, clip: int): (r: ShapeCountBoolean)
    ensures r.subj == subj && r.clip == clip
  {
    ShapeCountBoolean(subj, clip)
  }

  /**
    `apply` updates the counter it is called on in place, one field after
    the other; the counter ends up as `add` would have made it.
   */
  method Apply(self: ShapeCountBoolean, count: ShapeCountBoolean) returns (updated: ShapeCountBoolean)
    ensures updated == self.Add(count)
    ensures Sub(updated, count) == self
  {
    updated := self;
    updated := updated.(subj := updated.subj + count.subj);
    updated := updated.(clip := updated.clip + count.clip);
    AddSubCancel(self, count);
  }

  /** The componentwise difference, the inverse of `add`. */
  function Sub(a: ShapeCountBoolean, b: ShapeCountBoolean): ShapeCountBoolean
  {
    a.Add(b.Invert())
  }

  lemma AddSubCancel(a: ShapeCountBoolean, b: ShapeCountBoolean)
    ensures Sub(a.Add(b), b) == a
  {
  }

  /** The additive structure: `add` is commutative and associative with `new(0, 0)` as unit. */
  lemma AddCommutative(a: ShapeCountBoolean, b: ShapeCountBoolean)
    ensures a.Add(b) == b.Add(a)
  {
  }

  lemma AddAssociative(a: ShapeCountBoolean, b: ShapeCountBoolean, c: ShapeCountBoolean)
    ensures a.Add(b).Add(c) == a.Add(b.Add(c))
  {
  }

  lemma AddZero(a: ShapeCountBoolean)
    ensures a.Add(New(0, 0)) == a && New(0, 0).Add(a) == a
  {
  }

  /** `invert` is an involution, yields the additive inverse and distributes over `add`. */
  lemma InvertInvolutive(a: ShapeCountBoolean)
    ensures a.Invert().Invert() == a
  {
  }

  lemma InvertCancels(a: ShapeCountBoolean)
    ensures a.Add(a.Invert()) == New(0, 0)
  {
  }

  lemma InvertDistributes(a: ShapeCountBoolean, b: ShapeCountBoolean)
    ensures a.Add(b).Invert() == a.Invert().Add(b.Invert())
  {
  }

  /** The inverted unit counts are the inverses of the direct ones, and they cancel pairwise. */
  lemma UnitCounts()
    ensures SUBJ_INVERT == SUBJ_DIRECT.Invert() && CLIP_INVERT == CLIP_DIRECT.Invert()
    ensures SUBJ_DIRECT.Add(SUBJ_INVERT) == New(0, 0) && CLIP_DIRECT.Add(CLIP_INVERT) == New(0, 0)
    ensures SUBJ_DIRECT.Add(CLIP_DIRECT) == New(1, 1)
  {
  }
}
