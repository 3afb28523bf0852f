/** Gaussian belief over a block of articulation parameters (`Node::State::Parameters`):
    an expectation vector and a square covariance matrix of the same side.
    Chains of nodes are handled as one long vector whose blocks are read with
    `getSubstate` and written with `insertSubstate`. */
module Gaussian {

  /** Value view of a parameter block; the covariance is stored row by row. */
  datatype Belief = Belief(expectation: seq<real>, variance: seq<seq<real>>)

  /** Number of scalar parameters in the block. */
  function Dim(b: Belief): nat { |b.expectation| }

  /** The covariance is square with side `Dim(b)`. */
  predicate Square(b: Belief) {
    |b.variance| == |b.expectation| &&
    forall i :: 0 <= i < |b.variance| ==> |b.variance[i]| == |b.expectation|
  }

  /** True when entry (i, j) lies in the diagonal block that starts at (position, position) and has side `size`. */
  predicate InBlock(position: nat, size: nat, i: int, j: int) {
    position <= i < position + size && position <= j < position + size
  }

  /** The belief a freshly sized block starts from: zero expectation, identity covariance. */
  function Prior(size: nat): (b: Belief)
    ensures Square(b) && Dim(b) == size
  {
    Belief(seq(size, _ => 0.0), seq(size, i => seq(size, j => if i == j then 1.0 else 0.0)))
  }

  /** The contiguous sub-block of `size` parameters starting at `position`. */
  function Substate(b: Belief, position: nat, size: nat): (sub: Belief)
    requires Square(b) && position + size <= Dim(b)
    ensures Square(sub) && Dim(sub) == size
    ensures forall i :: 0 <= i < size ==> sub.expectation[i] == b.expectation[position + i]
    ensures forall i, j :: 0 <= i < size && 0 <= j < size ==>
              sub.variance[i][j] == b.variance[position + i][position + j]
  {
    Belief(b.expectation[position..position + size],
           seq(size, i requires 0 <= i < size => b.variance[position + i][position..position + size]))
  }

  /** `b` with the block starting at `position` overwritten by `p`. */
  function Inserted(b: Belief, position: nat, p: Belief): (r: Belief)
    requires Square(b) && Square(p) && position + Dim(p) <= Dim(b)
    ensures Square(r) && Dim(r) == Dim(b)
    ensures forall i :: 0 <= i < Dim(b) ==>
              r.expectation[i] == if position <= i < position + Dim(p) then p.expectation[i - position] else b.expectation[i]
    ensures forall i, j :: 0 <= i < Dim(b) && 0 <= j < Dim(b) ==>
              r.variance[i][j] == if InBlock(position, Dim(p), i, j) then p.variance[i - position][j - position] else b.variance[i][j]
  {
    var n := Dim(p);
    Belief(b.expectation[..position] + p.expectation + b.expectation[position + n..],
           seq(Dim(b), i requires 0 <= i < Dim(b) =>
             if position <= i < position + n
             then b.variance[i][..position] + p.variance[i - position] + b.variance[i][position + n..]
             else b.variance[i]))
  }

  /** Two square beliefs with equal entries are equal (extensionality for the nested covariance). */
  lemma {:induction false} EqualByEntries(a: Belief, b: Belief)
    requires Square(a) && Square(b) && Dim(a) == Dim(b)
    requires forall i :: 0 <= i < Dim(a) ==> a.expectation[i] == b.expectation[i]
    requires forall i, j :: 0 <= i < Dim(a) && 0 <= j < Dim(a) ==> a.variance[i][j] == b.variance[i][j]
    ensures a == b
  {
    assert a.expectation == b.expectation;
    forall i | 0 <= i < Dim(a)
      ensures a.variance[i] == b.variance[i]
    {
      assert forall j :: 0 <= j < Dim(a) ==> a.variance[i][j] == b.variance[i][j];
    }
    assert a.variance == b.variance;
  }

  /** Reading back the block just written yields what was written. */
  lemma {:induction false} SubstateOfInserted(b: Belief, position: nat, p: Belief)
    requires Square(b) && Square(p) && position + Dim(p) <= Dim(b)
    ensures Substate(Inserted(b, position, p), position, Dim(p)) == p
  {
    var sub := Substate(Inserted(b, position, p), position, Dim(p));
    forall i, j | 0 <= i < Dim(p) && 0 <= j < Dim(p)
      ensures sub.variance[i][j] == p.variance[i][j]
    {
      assert InBlock(position, Dim(p), position + i, position + j);
    }
    EqualByEntries(sub, p);
  }

  /** Writing back a block just read changes nothing. */
  lemma {:induction false} InsertedOfSubstate(b: Belief, position: nat, size: nat)
    requires Square(b) && position + size <= Dim(b)
    ensures Inserted(b, position, Substate(b, position, size)) == b
  {
    var sub := Substate(b, position, size);
    var r := Inserted(b, position, sub);
    forall i, j | 0 <= i < Dim(b) && 0 <= j < Dim(b)
      ensures r.variance[i][j] == b.variance[i][j]
    {
      if InBlock(position, size, i, j) {
        assert sub.variance[i - position][j - position] == b.variance[i][j];
      }
    }
    EqualByEntries(r, b);
  }

  /** Writing one block leaves every disjoint diagonal block as it was,
      which is what lets a chain be scattered block by block. */
  lemma {:induction false} SubstateOfInsertedElsewhere(b: Belief, position: nat, p: Belief, other: nat, size: nat)
    requires Square(b) && Square(p) && position + Dim(p) <= Dim(b)
    requires other + size <= Dim(b)
    requires other + size <= position || position + Dim(p) <= other
    ensures Substate(Inserted(b, position, p), other, size) == Substate(b, other, size)
  {
    var lhs := Substate(Inserted(b, position, p), other, size);
    var rhs := Substate(b, other, size);
    forall i, j | 0 <= i < size && 0 <= j < size
      ensures lhs.variance[i][j] == rhs.variance[i][j]
    {
      assert !InBlock(position, Dim(p), other + i, other + j);
    }
    EqualByEntries(lhs, rhs);
  }

  /** `sub` holds exactly the block of `src` that starts at `position`. */
  lemma BlockOf(src: Parameters, sub: Parameters, position: nat)
    requires src.Valid() && sub.Valid() && position + sub.expectation.Length <= src.expectation.Length
    requires forall i :: 0 <= i < sub.expectation.Length ==> sub.expectation[i] == src.expectation[position + i]
    requires forall i, j :: 0 <= i < sub.expectation.Length && 0 <= j < sub.expectation.Length ==>
               sub.variance[i, j] == src.variance[position + i, position + j]
    ensures sub.Model() == Substate(src.Model(), position, sub.expectation.Length)
  {
    var got, want := sub.Model(), Substate(src.Model(), position, sub.expectation.Length);
    EqualByEntries(got, want);
  }

  /** `Node::State::Parameters`: the expectation vector and covariance matrix, both
      fixed-size buffers that `InsertSubstate` overwrites in place. */
  class Parameters {
    var expectation: array<real>
    var variance: array2<real>

    /** The covariance is square with side `expectation.Length`. */
    ghost predicate Valid()
      reads this
    {
      variance.Length0 == expectation.Length && variance.Length1 == expectation.Length
    }

    /** The value this object currently holds. */
    ghost function Model(): (b: Belief)
      reads this, expectation, variance
      requires Valid()
      ensures Square(b) && Dim(b) == expectation.Length
      ensures forall i :: 0 <= i < Dim(b) ==> b.expectation[i] == expectation[i]
      ensures forall i, j :: 0 <= i < Dim(b) && 0 <= j < Dim(b) ==> b.variance[i][j] == variance[i, j]
    {
      var V, n := variance, expectation.Length;
      Belief(expectation[..], seq(n, i requires 0 <= i < n reads V => seq(n, j requires 0 <= j < n reads V => V[i, j])))
    }

    /** `Parameters(int size)`: a block of `size` parameters with zero expectation and identity covariance. */
    constructor (size: nat)
      ensures Valid() && fresh(expectation) && fresh(variance)
      ensures expectation.Length == size
      ensures forall i :: 0 <= i < size ==> expectation[i] == 0.0
      ensures forall i, j :: 0 <= i < size && 0 <= j < size ==> variance[i, j] == if i == j then 1.0 else 0.0
      ensures Model() == Prior(size)
    {
      expectation := new real[size](_ => 0.0);
      variance := new real[size, size]((i, j) => if i == j then 1.0 else 0.0);
      new;
      EqualByEntries(Model(), Prior(size));
    }

    /** `size()`: the number of parameters in the block. */
    function Size(): (n: nat)
      reads this, expectation, variance
      requires Valid()
      ensures n == Dim(Model())
    {
      expectation.Length
    }

    /** `getSubstate(position, size)`: a new block holding the `size` expectations from
        `position` on and the matching diagonal block of the covariance; this object is not changed. */
    method GetSubstate(position: nat, size: nat) returns (sub: Parameters)
      requires Valid() && position + size <= expectation.Length
      ensures fresh(sub) && fresh(sub.expectation) && fresh(sub.variance) && sub.Valid()
      ensures sub.Model() == Substate(Model(), position, size)
      ensures unchanged(this) && unchanged(expectation) && unchanged(variance)
    {
      sub := new Parameters(size);
      var e, V := expectation, variance;
      sub.expectation := new real[size](i requires 0 <= i < size reads e => e[position + i]);
      sub.variance := new real[size, size]((i, j) requires 0 <= i < size && 0 <= j < size reads V => V[position + i, position + j]);
      BlockOf(this, sub, position);
    }

    /** `insertSubstate(position, p)`: overwrite the block starting at `position` with `p`,
        in place; every other entry, cross-covariances included, stays as it was. */
    method InsertSubstate(position: nat, p: Parameters)
      requires Valid() && p.Valid()
      requires position + p.expectation.Length <= expectation.Length
      requires p.expectation != expectation && p.variance != variance
      modifies expectation, variance
      ensures Valid() && Size() == old(Size())
      ensures Model() == Inserted(old(Model()), position, old(p.Model()))
      ensures p.Model() == old(p.Model())
    {
      var size := p.expectation.Length;
      forall i | 0 <= i < size {
        expectation[position + i] := p.expectation[i];
      }
      forall i, j | 0 <= i < size && 0 <= j < size {
        variance[position + i, position + j] := p.variance[i, j];
      }
      EqualByEntries(p.Model(), old(p.Model()));
      EqualByEntries(Model(), Inserted(old(Model()), position, old(p.Model())));
    }
  }
}
