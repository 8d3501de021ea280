/**
 * The index dealer (GameDataManager.h): per repository name, the set of indices
 * already handed out, and a generator that draws indices in [0, size).  The generator
 * is the `rand()`-based one (StdRandGenerator.h); the values `rand()` will return are
 * the field `rands`, consumed one per call.
 */
module GameDataManager {
  import opened Wrappers
  import SRG = StdRandGenerator

  /** The index the generator makes of the `rand()` value `randValue` for a repository of `size` entries. */
  function Draw(size: int, randValue: nat): (index: int)
    requires size > 0
    ensures 0 <= index < size
  {
    SRG.GenerateIntInRange(0, size, randValue).value
  }

  /** There is a `rand()` value left whose draw is not in `used`. */
  predicate HasFreshDraw(rands: seq<nat>, used: set<int>, size: int)
    requires size > 0
  {
    exists k :: 0 <= k < |rands| && Draw(size, rands[k]) !in used
  }

  /** Position of the first `rand()` value whose draw is not in `used`. */
  function FirstFresh(rands: seq<nat>, used: set<int>, size: int): (k: nat)
    requires size > 0 && HasFreshDraw(rands, used, size)
    ensures k < |rands| && Draw(size, rands[k]) !in used
    ensures forall j :: 0 <= j < k ==> Draw(size, rands[j]) in used
  {
    if Draw(size, rands[0]) !in used then 0
    else
      var w :| 0 <= w < |rands| && Draw(size, rands[w]) !in used;
      assert Draw(size, rands[1..][w - 1]) !in used;
      1 + FirstFresh(rands[1..], used, size)
  }

  /**
   * What `generateUniqueRepositoryIndex` returns as written: the redraw loop declares
   * a second `index` that hides the first, so the later draws only decide when the
   * loop ends and the FIRST draw is returned and recorded.
   */
  function IndexAsWritten(rands: seq<nat>, size: int): (index: int)
    requires size > 0 && rands != []
    ensures 0 <= index < size
  {
    Draw(size, rands[0])
  }

  /** The evidently intended result: the first draw that is not yet used. */
  function IndexCorrected(rands: seq<nat>, used: set<int>, size: int): (index: int)
    requires size > 0 && HasFreshDraw(rands, used, size)
    ensures 0 <= index < size && index !in used
  {
    Draw(size, rands[FirstFresh(rands, used, size)])
  }

  /** As written, with index 0 already used and `rand()` giving 0 then 1, index 0 is handed out again. */
  lemma RepeatedIndexAsWritten()
    ensures HasFreshDraw([0, 1], {0}, 2)
    ensures IndexAsWritten([0, 1], 2) in {0}
    ensures IndexCorrected([0, 1], {0}, 2) == 1
  {
    assert Draw(2, [0, 1][1]) !in {0};
  }

  /** When the first draw happens to be unused, the original and the corrected dealer agree. */
  lemma FreshFirstDrawAgrees(rands: seq<nat>, used: set<int>, size: int)
    requires size > 0 && rands != [] && Draw(size, rands[0]) !in used
    ensures HasFreshDraw(rands, used, size)
    ensures IndexAsWritten(rands, size) == IndexCorrected(rands, used, size)
    ensures IndexAsWritten(rands, size) !in used
  {
  }

  /** Why the corrected dealer fails: the generator threw, or every index of the repository is used. */
  datatype IndexException =
    | GeneratorFailed(cause: SRG.StdRandGeneratorException)
    | Exhausted(name: string)

  /**
   * As written, the exhaustion test does nothing: once every index in [0, size) is
   * used, no `rand()` value draws a fresh one, so the redraw loop cannot end.
   */
  lemma ExhaustedHasNoFreshDraw(rands: seq<nat>, used: set<int>, size: int)
    requires size > 0 && forall i :: 0 <= i < size ==> i in used
    ensures !HasFreshDraw(rands, used, size)
  {
  }

  /** The indices of a repository of `n` entries. */
  function Indices(n: nat): (s: set<int>)
    ensures forall i :: i in s <==> 0 <= i < n
  {
    if n == 0 then {} else Indices(n - 1) + {n - 1}
  }

  lemma {:induction false} IndicesCount(n: nat)
    ensures |Indices(n)| == n
  {
    if n > 0 {
      IndicesCount(n - 1);
    }
  }

  /** A used set within [0, size) that misses an index holds fewer than size indices. */
  lemma MissingIndexShrinks(used: set<int>, size: nat, i: int)
    requires forall x :: x in used ==> 0 <= x < size
    requires 0 <= i < size && i !in used
    ensures |used| < size
  {
    IndicesCount(size);
    var others := Indices(size) - {i};
    assert |others| == size - 1;
    SubsetCount(used, others);
  }

  /**
   * For a used set within [0, size), the source's test `size() == repositorySize`
   * holds exactly when every index is used: the corrected dealer reports exhaustion
   * precisely when no draw could be fresh.
   */
  lemma FullIffExhausted(used: set<int>, size: nat)
    requires forall x :: x in used ==> 0 <= x < size
    ensures |used| == size <==> forall i :: 0 <= i < size ==> i in used
  {
    if forall i :: 0 <= i < size ==> i in used {
      IndicesCount(size);
      assert used == Indices(size);
    }
    if |used| == size {
      forall i | 0 <= i < size
        ensures i in used
      {
        if i !in used {
          MissingIndexShrinks(used, size, i);
        }
      }
    }
  }

  /** A subset has no more elements than the set holding it. */
  lemma SubsetCount(a: set<int>, b: set<int>)
    requires a <= b
    ensures |a| <= |b|
  {
    assert b == a + (b - a);
  }

  class GameDataManager {
    /** For each registered repository, the indices already handed out. */
    var usedIndices: map<string, set<int>>
    /** The values `rand()` returns from now on, in order. */
    var rands: seq<nat>

    constructor (rands: seq<nat>)
      ensures usedIndices == map[] && this.rands == rands
    {
      usedIndices := map[];
      this.rands := rands;
    }

    /** The used set of `name`; `std::map::operator[]` reads an absent name as an empty set. */
    function UsedOf(name: string): set<int>
      reads this
    {
      if name in usedIndices then usedIndices[name] else {}
    }

    /** Registers `name` with no index used, forgetting any earlier set under that name. */
    method AddRepository(name: string)
      modifies this`usedIndices
      ensures usedIndices == old(usedIndices)[name := {}]
      ensures forall other :: other != name ==> UsedOf(other) == old(UsedOf(other))
    {
      usedIndices := usedIndices[name := {}];
    }

    /**
     * `indexGenerator->generateIntInRange(minValue, maxValue)`: reversed bounds throw
     * before `rand()` is called; otherwise one `rand()` value is consumed.
     */
    method GenerateIntInRange(minValue: int, maxValue: int)
      returns (r: Result<int, SRG.StdRandGeneratorException>)
      requires maxValue < minValue || (maxValue != 0 && rands != [])
      modifies this`rands
      ensures maxValue < minValue ==> r.Err? && rands == old(rands)
      ensures minValue <= maxValue ==>
                r == SRG.GenerateIntInRange(minValue, maxValue, old(rands)[0])
                && rands == old(rands)[1..]
    {
      if maxValue < minValue {
        r := SRG.GenerateIntInRange(minValue, maxValue, 0);
      } else {
        r := SRG.GenerateIntInRange(minValue, maxValue, rands[0]);
        rands := rands[1..];
      }
    }

    /**
     * `generateUniqueRepositoryIndex(name, size)` as written.  The exhaustion test has
     * an empty body; its only effect is that `operator[]` registers an unknown name.
     * A negative size throws from the generator.  Otherwise values are drawn until one
     * is unused (the source loops forever when none comes, so one must), and the FIRST
     * draw is recorded and returned.
     */
    method GenerateUniqueRepositoryIndex(name: string, repositorySize: int)
      returns (r: Result<int, SRG.StdRandGeneratorException>)
      requires repositorySize != 0
      requires repositorySize > 0 ==> HasFreshDraw(rands, UsedOf(name), repositorySize)
      modifies this
      ensures repositorySize < 0 ==>
                r.Err? && rands == old(rands)
                && usedIndices == old(usedIndices)[name := old(UsedOf(name))]
      ensures repositorySize > 0 ==>
                r == Ok(IndexAsWritten(old(rands), repositorySize))
                && usedIndices == old(usedIndices)[name := old(UsedOf(name)) + {r.value}]
                && rands == old(rands)[FirstFresh(old(rands), old(UsedOf(name)), repositorySize) + 1..]
    {
      usedIndices := usedIndices[name := UsedOf(name)];
      r := GenerateIntInRange(0, repositorySize);
      if r.Err? {
        return;
      }
      var index := r.value;
      var found := index in usedIndices[name];
      ghost var used := old(UsedOf(name));
      ghost var last := 0;
      while found
        invariant usedIndices == old(usedIndices)[name := used]
        invariant last <= FirstFresh(old(rands), used, repositorySize)
        invariant rands == old(rands)[last + 1..]
        invariant found <==> Draw(repositorySize, old(rands)[last]) in used
        decreases |rands|
      {
        var next := GenerateIntInRange(0, repositorySize);
        last := last + 1;
        found := next.value in usedIndices[name];
      }
      usedIndices := usedIndices[name := usedIndices[name] + {index}];
    }

    /**
     * The corrected dealer: the exhaustion test throws, and the draw that ends the
     * loop is the one recorded and returned.
     */
    method GenerateUniqueRepositoryIndexCorrected(name: string, repositorySize: int)
      returns (r: Result<int, IndexException>)
      requires repositorySize != 0
      requires repositorySize > 0 && |UsedOf(name)| != repositorySize ==>
                 HasFreshDraw(rands, UsedOf(name), repositorySize)
      modifies this
      ensures repositorySize < 0 ==> r.Err? && r.error.GeneratorFailed? && rands == old(rands)
      ensures repositorySize > 0 && |old(UsedOf(name))| == repositorySize ==>
                r == Err(Exhausted(name)) && rands == old(rands)
                && usedIndices == old(usedIndices)[name := old(UsedOf(name))]
      ensures repositorySize > 0 && |old(UsedOf(name))| != repositorySize ==>
                r == Ok(IndexCorrected(old(rands), old(UsedOf(name)), repositorySize))
                && r.value !in old(UsedOf(name))
                && usedIndices == old(usedIndices)[name := old(UsedOf(name)) + {r.value}]
    {
      usedIndices := usedIndices[name := UsedOf(name)];
      if |usedIndices[name]| == repositorySize {
        return Err(Exhausted(name));
      }
      var drawn := GenerateIntInRange(0, repositorySize);
      if drawn.Err? {
        return Err(GeneratorFailed(drawn.error));
      }
      ghost var used := old(UsedOf(name));
      ghost var last := 0;
      while drawn.value in usedIndices[name]
        invariant usedIndices == old(usedIndices)[name := used]
        invariant last <= FirstFresh(old(rands), used, repositorySize)
        invariant rands == old(rands)[last + 1..]
        invariant drawn == Ok(Draw(repositorySize, old(rands)[last]))
        decreases |rands|
      {
        drawn := GenerateIntInRange(0, repositorySize);
        last := last + 1;
      }
      usedIndices := usedIndices[name := usedIndices[name] + {drawn.value}];
      r := Ok(drawn.value);
    }

    /** `generatePlayerIndex(n)` is one call of the generator on [0, n). */
    method GeneratePlayerIndex(numOfPlayers: int) returns (r: Result<int, SRG.StdRandGeneratorException>)
      requires numOfPlayers < 0 || (numOfPlayers != 0 && rands != [])
      modifies this`rands
      ensures numOfPlayers < 0 ==> r.Err? && rands == old(rands)
      ensures numOfPlayers > 0 ==>
                r == SRG.GenerateIntInRange(0, numOfPlayers, old(rands)[0])
                && 0 <= r.value < numOfPlayers && rands == old(rands)[1..]
    {
      r := GenerateIntInRange(0, numOfPlayers);
    }
  }
}
