/** The single-branch edits InfectionMover and InfectionMover3 share (the
    body of `removeInfectionFromPath` and `insertInfectionToPath` at the
    branch they stop at, and `removeInfection` / `insertInfection` of
    InfectionMover3): one infection more or fewer on the branch above node i,
    with its block fractions redrawn as the new count requires. The
    Randomizer draws are parameters. */
module BranchEdits {
  import opened Parameters
  import opened Blocks

  /** Every entry other than entry i is as before. */
  ghost predicate Other(before: seq<real>, after: seq<real>, i: nat) {
    |after| == |before| && forall j :: 0 <= j < |before| && j != i ==> after[j] == before[j]
  }

  /** The state after one infection fewer on branch i: with none left the
      fractions stay, with one left the coin decides which fraction is copied
      onto the other, with more left the two draws in order are the new
      fractions. */
  function Taken(b: BlockState, i: nat, coin: bool, u1: real, u2: real): (a: BlockState)
    requires i < |b.counts| && i < |b.starts| && i < |b.ends|
    ensures a.counts == b.counts[i := b.counts[i] - 1]
    ensures FractionsFramed(b, a, i, i)
    ensures Consistent(b.counts, b.starts, b.ends) && b.counts[i] >= 0 ==>
      Consistent(a.counts, a.starts, a.ends)
  {
    var c := b.counts[i] - 1;
    if c == -1 then BlockState(b.counts[i := c], b.starts, b.ends)
    else if c == 0 && coin then BlockState(b.counts[i := c], b.starts[i := b.ends[i]], b.ends)
    else if c == 0 then BlockState(b.counts[i := c], b.starts, b.ends[i := b.starts[i]])
    else BlockState(b.counts[i := c], b.starts[i := Ordered(u1, u2).0], b.ends[i := Ordered(u1, u2).1])
  }

  /** The state after one infection more on branch i: a first infection sits
      at f, a block of several lies between the two draws in order. */
  function Put(b: BlockState, i: nat, f: real, u1: real, u2: real): (a: BlockState)
    requires i < |b.counts| && i < |b.starts| && i < |b.ends|
    ensures a.counts == b.counts[i := b.counts[i] + 1]
    ensures FractionsFramed(b, a, i, i)
    ensures Consistent(b.counts, b.starts, b.ends) ==> Consistent(a.counts, a.starts, a.ends)
  {
    var c := b.counts[i] + 1;
    if c == 0 then BlockState(b.counts[i := c], b.starts[i := f], b.ends[i := f])
    else BlockState(b.counts[i := c], b.starts[i := Ordered(u1, u2).0], b.ends[i := Ordered(u1, u2).1])
  }

  /** One infection fewer on branch i: with none left the fractions stay,
      with one left one fraction is copied onto the other (which one is the
      coin's choice), with more left both are redrawn and put in order. */
  method TakeOne(counts: IntegerParameter, starts: RealParameter, ends: RealParameter,
                 i: nat, coin: bool, u1: real, u2: real)
    requires starts != ends
    requires i < |starts.values| && i < |ends.values| && i < |counts.values|
    requires counts.values[i] >= 0
    modifies counts, starts, ends
    ensures counts.values == old(counts.values)[i := old(counts.values[i]) - 1]
    ensures counts.values[i] == -1 ==>
      && starts.values == old(starts.values) && ends.values == old(ends.values)
    ensures counts.values[i] == 0 ==>
      && (coin ==> starts.values == old(starts.values)[i := old(ends.values[i])]
                   && ends.values == old(ends.values))
      && (!coin ==> ends.values == old(ends.values)[i := old(starts.values[i])]
                    && starts.values == old(starts.values))
    ensures counts.values[i] > 0 ==>
      && starts.values == old(starts.values)[i := Ordered(u1, u2).0]
      && ends.values == old(ends.values)[i := Ordered(u1, u2).1]
    ensures Other(old(starts.values), starts.values, i) && Other(old(ends.values), ends.values, i)
    ensures Domain(old(counts.values)) ==> Domain(counts.values)
    ensures old(Consistent(counts.values, starts.values, ends.values)) ==>
      Consistent(counts.values, starts.values, ends.values)
    ensures BlockState(counts.values, starts.values, ends.values)
      == Taken(BlockState(old(counts.values), old(starts.values), old(ends.values)), i, coin, u1, u2)
  {
    counts.SetValue(i, counts.values[i] - 1);
    if counts.values[i] == -1 {
      return;
    }
    if counts.values[i] == 0 {
      if coin {
        starts.SetValue(i, ends.values[i]);
      } else {
        ends.SetValue(i, starts.values[i]);
      }
      return;
    }
    var blockStart := u1;
    var blockEnd := u2;
    if blockEnd < blockStart {
      var tmp := blockEnd;
      blockEnd := blockStart;
      blockStart := tmp;
    }
    starts.SetValue(i, blockStart);
    ends.SetValue(i, blockEnd);
  }

  /** One infection more on branch i: a first infection sits at f (start and
      end coincide), a block of several gets two ordered draws. */
  method PutOne(counts: IntegerParameter, starts: RealParameter, ends: RealParameter,
                i: nat, f: real, u1: real, u2: real)
    requires starts != ends
    requires i < |starts.values| && i < |ends.values| && i < |counts.values|
    modifies counts, starts, ends
    ensures counts.values == old(counts.values)[i := old(counts.values[i]) + 1]
    ensures counts.values[i] == 0 ==>
      && starts.values == old(starts.values)[i := f]
      && ends.values == old(ends.values)[i := f]
    ensures counts.values[i] > 0 ==>
      && starts.values == old(starts.values)[i := Ordered(u1, u2).0]
      && ends.values == old(ends.values)[i := Ordered(u1, u2).1]
    ensures Other(old(starts.values), starts.values, i) && Other(old(ends.values), ends.values, i)
    ensures Domain(old(counts.values)) ==> Domain(counts.values)
    ensures old(Consistent(counts.values, starts.values, ends.values)) ==>
      Consistent(counts.values, starts.values, ends.values)
    ensures BlockState(counts.values, starts.values, ends.values)
      == Put(BlockState(old(counts.values), old(starts.values), old(ends.values)), i, f, u1, u2)
  {
    counts.SetValue(i, counts.values[i] + 1);
    if counts.values[i] == 0 {
      starts.SetValue(i, f);
      ends.SetValue(i, f);
      return;
    }
    var blockStart := u1;
    var blockEnd := u2;
    if blockEnd < blockStart {
      var tmp := blockEnd;
      blockEnd := blockStart;
      blockStart := tmp;
    }
    starts.SetValue(i, blockStart);
    ends.SetValue(i, blockEnd);
  }
}
