/** Python's `random` module as the sequence builder and the evaluation loop
    use it. The generator itself is not modelled: a seeded stream is a
    function `draw` from draw numbers to raw values, and `randbelow(n)` on the
    stream's `pos`-th draw is `draw(pos) % n`. `sample` and `shuffle` consume
    the stream in the order CPython's code does. */
module PyRandom {
  import opened Wrappers
  import opened PyList

  /** `randbelow(n)` on the `pos`-th draw. */
  function Below(draw: nat -> nat, pos: nat, n: nat): (j: nat)
    requires n > 0
    ensures j < n
  {
    draw(pos) % n
  }

  /** The live pool after picking index `j`: the last element moves into
      the hole and the pool shrinks by one. */
  function Remove<T>(pool: seq<T>, j: nat): (p: seq<T>)
    requires j < |pool|
    ensures |p| == |pool| - 1
  {
    pool[j := pool[|pool| - 1]][..|pool| - 1]
  }

  lemma RemoveTakesOne<T>(pool: seq<T>, j: nat)
    requires j < |pool|
    ensures multiset(Remove(pool, j)) == multiset(pool) - multiset{pool[j]}
  {
    var n := |pool|;
    assert pool == pool[..j] + [pool[j]] + pool[j + 1..];
    if j < n - 1 {
      assert Remove(pool, j) == pool[..j] + [pool[n - 1]] + pool[j + 1..n - 1];
      assert pool[j + 1..] == pool[j + 1..n - 1] + [pool[n - 1]];
    }
  }

  /** `k` picks without replacement from `pool`, starting at draw `pos`
      (the loop of `random.sample` that works on a copy of the population). */
  function Pick<T>(pool: seq<T>, k: nat, draw: nat -> nat, pos: nat): (r: seq<T>)
    requires k <= |pool|
    ensures |r| == k
    decreases k
  {
    if k == 0 then []
    else
      var j := Below(draw, pos, |pool|);
      [pool[j]] + Pick(Remove(pool, j), k - 1, draw, pos + 1)
  }

  lemma {:induction false} PickFromPool<T>(pool: seq<T>, k: nat, draw: nat -> nat, pos: nat)
    requires k <= |pool|
    ensures multiset(Pick(pool, k, draw, pos)) <= multiset(pool)
    decreases k
  {
    if k > 0 {
      var j := Below(draw, pos, |pool|);
      var rest := Pick(Remove(pool, j), k - 1, draw, pos + 1);
      RemoveTakesOne(pool, j);
      PickFromPool(Remove(pool, j), k - 1, draw, pos + 1);
      assert multiset(Pick(pool, k, draw, pos)) == multiset{pool[j]} + multiset(rest);
      assert pool[j] in multiset(pool);
    }
  }

  /** `random.sample(population, k)`; `None` is its `ValueError` for a
      sample larger than the population. */
  function Drawn<T>(population: seq<T>, k: nat, draw: nat -> nat, pos: nat): Option<seq<T>>
  {
    if k <= |population| then Some(Pick(population, k, draw, pos)) else None
  }

  /** At most as many copies as the multiset allows: a sub-multiset of a
      list without duplicates has no duplicates. */
  lemma {:induction false} SubMultisetDistinct<T>(r: seq<T>, pool: seq<T>)
    requires multiset(r) <= multiset(pool)
    requires Distinct(pool)
    ensures Distinct(r)
  {
    forall i, j | 0 <= i < j < |r| ensures r[i] != r[j] {
      if r[i] == r[j] {
        assert r == r[..i] + [r[i]] + r[i + 1..j] + [r[j]] + r[j + 1..];
        assert multiset(r)[r[i]] >= 2;
        DistinctCount(pool, r[i]);
        assert false;
      }
    }
  }

  lemma {:induction false} DistinctCount<T>(s: seq<T>, x: T)
    requires Distinct(s)
    ensures multiset(s)[x] <= 1
  {
    if s != [] {
      assert s == [s[0]] + s[1..];
      DistinctCount(s[1..], x);
      if s[0] == x {
        assert x !in s[1..];
      }
    }
  }

  /** What `random.sample` promises: exactly `k` values, all from the
      population, and no value more often than in the population (so no
      repetition when the population has none); it fails exactly when the
      population is too small. */
  lemma DrawnSpec<T>(population: seq<T>, k: nat, draw: nat -> nat, pos: nat)
    ensures Drawn(population, k, draw, pos).None? <==> |population| < k
    ensures Drawn(population, k, draw, pos).Some? ==>
      var r := Drawn(population, k, draw, pos).value;
      && |r| == k
      && multiset(r) <= multiset(population)
      && (forall i :: 0 <= i < k ==> r[i] in population)
      && (Distinct(population) ==> Distinct(r))
  {
    if k <= |population| {
      var r := Pick(population, k, draw, pos);
      PickFromPool(population, k, draw, pos);
      forall i | 0 <= i < k ensures r[i] in population {
        assert r[i] in multiset(r);
      }
      if Distinct(population) {
        SubMultisetDistinct(r, population);
      }
    }
  }

  /** `s` with the elements at `j <= i` exchanged. */
  function Swap<T>(s: seq<T>, i: nat, j: nat): (t: seq<T>)
    requires j <= i < |s|
    ensures |t| == |s|
  {
    s[i := s[j]][j := s[i]]
  }

  lemma SwapPermutes<T>(s: seq<T>, i: nat, j: nat)
    requires j <= i < |s|
    ensures multiset(Swap(s, i, j)) == multiset(s)
  {
    var t := Swap(s, i, j);
    if j < i {
      assert t == s[..j] + [s[i]] + s[j + 1..i] + [s[j]] + s[i + 1..];
      assert s == s[..j] + [s[j]] + s[j + 1..i] + [s[i]] + s[i + 1..];
    } else {
      assert t == s;
    }
  }

  /** The swap loop of `random.shuffle` from position `i` down to 1, the
      first swap using draw `pos`. */
  function ShuffleFrom<T>(s: seq<T>, i: nat, draw: nat -> nat, pos: nat): (r: seq<T>)
    requires i < |s|
    ensures |r| == |s|
    decreases i
  {
    if i == 0 then s
    else ShuffleFrom(Swap(s, i, Below(draw, pos, i + 1)), i - 1, draw, pos + 1)
  }

  /** One swap of the shuffle, from index `i`, keeps the outcome (a single
      unfolding of `ShuffleFrom`, stated separately to keep the loop's proof
      small). */
  lemma ShuffleFromStep<T>(s: seq<T>, i: nat, draw: nat -> nat, pos: nat, t: seq<T>, goal: seq<T>)
    requires 0 < i < |s|
    requires ShuffleFrom(s, i, draw, pos) == goal
    requires t == Swap(s, i, Below(draw, pos, i + 1))
    ensures ShuffleFrom(t, i - 1, draw, pos + 1) == goal
  {
  }

  /** `random.shuffle(s)`. */
  function Shuffled<T>(s: seq<T>, draw: nat -> nat, pos: nat): (r: seq<T>)
    ensures |r| == |s|
  {
    if s == [] then s else ShuffleFrom(s, |s| - 1, draw, pos)
  }

  lemma {:induction false} ShuffleFromPermutes<T>(s: seq<T>, i: nat, draw: nat -> nat, pos: nat)
    requires i < |s|
    ensures multiset(ShuffleFrom(s, i, draw, pos)) == multiset(s)
    decreases i
  {
    if i > 0 {
      var j := Below(draw, pos, i + 1);
      SwapPermutes(s, i, j);
      ShuffleFromPermutes(Swap(s, i, j), i - 1, draw, pos + 1);
    }
  }

  /** Shuffling only permutes: every value keeps its number of copies, for
      every stream and every starting draw. */
  lemma ShufflePermutes<T>(s: seq<T>, draw: nat -> nat, pos: nat)
    ensures |Shuffled(s, draw, pos)| == |s|
    ensures multiset(Shuffled(s, draw, pos)) == multiset(s)
  {
    if s != [] {
      ShuffleFromPermutes(s, |s| - 1, draw, pos);
    }
  }

  /** The number of draws `random.shuffle` takes from the stream. */
  function ShuffleDraws(n: nat): nat { if n == 0 then 0 else n - 1 }

  /** `a[i], a[j] = a[j], a[i]`. */
  method SwapElements<T>(a: array<T>, i: nat, j: nat)
    requires j <= i < a.Length
    modifies a
    ensures a[..] == Swap(old(a[..]), i, j)
  {
    var t := a[i];
    a[i] := a[j];
    a[j] := t;
  }

  /** A seeded generator (`random.seed(seed)` gives a fresh stream). */
  class RandomStream {
    const draw: nat -> nat
    var pos: nat

    constructor (draw: nat -> nat)
      ensures this.draw == draw && pos == 0
    {
      this.draw := draw;
      pos := 0;
    }

    method RandBelow(n: nat) returns (j: nat)
      requires n > 0
      modifies this
      ensures j == Below(draw, old(pos), n)
      ensures pos == old(pos) + 1
    {
      j := draw(pos) % n;
      pos := pos + 1;
    }

    /** `random.sample(population, k)`: the stream advances by one draw
        per pick, and not at all when the sample is refused. */
    method Sample<T>(population: seq<T>, k: nat) returns (r: Option<seq<T>>)
      modifies this
      ensures r == Drawn(population, k, draw, old(pos))
      ensures pos == old(pos) + (if r.Some? then k else 0)
    {
      r := Drawn(population, k, draw, pos);
      if r.Some? {
        pos := pos + k;
      }
    }

    /** `random.shuffle(a)`: for i from the last index down to 1, swap
        `a[i]` with `a[randbelow(i + 1)]`. */
    method Shuffle<T>(a: array<T>)
      modifies this, a
      ensures a[..] == Shuffled(old(a[..]), draw, old(pos))
      ensures pos == old(pos) + ShuffleDraws(a.Length)
    {
      if a.Length == 0 {
        return;
      }
      ghost var goal := Shuffled(a[..], draw, pos);
      ghost var start := pos;
      var i := a.Length - 1;
      while i > 0
        invariant 0 <= i < a.Length
        invariant pos == start + (a.Length - 1 - i)
        invariant ShuffleFrom(a[..], i, draw, pos) == goal
      {
        ghost var before, at := a[..], pos;
        var j := RandBelow(i + 1);
        SwapElements(a, i, j);
        ghost var after := a[..];
        ShuffleFromStep(before, i, draw, at, after, goal);
        i := i - 1;
        assert pos == at + 1 && after == a[..];
      }
    }
  }
}
