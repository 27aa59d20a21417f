/** The random number generator the arrangement generator and the session
    ids draw from, made explicit: an injected stream of draws that is
    consumed one draw at a time. */
module Random {

  class Rng {
    /** The source of randomness; `draws(k)` is the k-th draw. */
    const draws: nat -> nat
    /** How many draws have been consumed. */
    var used: nat

    constructor (draws: nat -> nat)
      ensures this.draws == draws && used == 0
    {
      this.draws := draws;
      used := 0;
    }

    /** `random_range(0..bound)`: the next draw, reduced into range. */
    method Below(bound: nat) returns (r: nat)
      requires bound > 0
      modifies this
      ensures r < bound
      ensures r == draws(old(used)) % bound && used == old(used) + 1
    {
      r := draws(used) % bound;
      used := used + 1;
    }

    /** `SliceRandom::shuffle`: a Fisher-Yates shuffle in place; whatever the
        draws, the result is a permutation of the input. */
    method Shuffle<T>(a: array<T>)
      modifies this, a
      ensures multiset(a[..]) == old(multiset(a[..]))
      ensures used == old(used) + (if a.Length == 0 then 0 else a.Length - 1)
    {
      if a.Length <= 1 {
        return;
      }
      var i := 1;
      while i < a.Length
        invariant 1 <= i <= a.Length
        invariant multiset(a[..]) == old(multiset(a[..]))
        invariant used == old(used) + (i - 1)
      {
        var j := Below(i + 1);
        a[i], a[j] := a[j], a[i];
        i := i + 1;
      }
    }

    /** A shuffle of a copy of `s`. */
    method ShuffleSeq<T>(s: seq<T>) returns (r: seq<T>)
      modifies this
      ensures multiset(r) == multiset(s) && |r| == |s|
    {
      var a := new T[|s|](i requires 0 <= i < |s| => s[i]);
      assert a[..] == s;
      Shuffle(a);
      r := a[..];
    }
  }
}
