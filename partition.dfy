/** Which split an author's posts go to, from one draw of the seeded generator. */
module Partition {

  /** The `DataCategory` enum. */
  datatype DataCategory = Training | Validation | Test {
    /** The directory the category writes into. */
    function DirName(): string {
      match this
      case Training => "training_ds"
      case Validation => "validation_ds"
      case Test => "test_ds"
    }

    function Rank(): nat {
      match this
      case Training => 0
      case Validation => 1
      case Test => 2
    }

    /** The draws that land in the category. */
    predicate Covers(r: real) {
      match this
      case Training => r < TrainingSplit
      case Validation => TrainingSplit <= r < TrainingSplit + ValidationSplit
      case Test => TrainingSplit + ValidationSplit <= r
    }
  }

  const TrainingSplit: real := 0.8
  const ValidationSplit: real := 0.1

  /** The if-chain on `randomNumber`. */
  function ChooseCategory(r: real): (c: DataCategory)
    ensures c.Covers(r)
  {
    if r < TrainingSplit then Training
    else if r < TrainingSplit + ValidationSplit then Validation
    else Test
  }

  /** Each draw lands in exactly one category. */
  lemma CategoriesPartition(r: real, c: DataCategory)
    ensures c.Covers(r) <==> c == ChooseCategory(r)
  {
  }

  /** A larger draw never picks an earlier category. */
  lemma ChooseMonotone(r: real, s: real)
    requires r <= s
    ensures ChooseCategory(r).Rank() <= ChooseCategory(s).Rank()
  {
  }

  /** Category directory names are distinct and hold no path separator. */
  lemma CategoryNames(c: DataCategory, d: DataCategory)
    ensures c.DirName() == d.DirName() <==> c == d
    ensures '/' !in c.DirName()
  {
  }

  /**
   * The seeded `random` module: the fixed stream of draws that `random.seed`
   * selects, and how many of them have been taken so far.
   */
  class Generator {
    const stream: nat -> real
    var taken: nat

    constructor (stream: nat -> real)
      ensures this.stream == stream && taken == 0
    {
      this.stream := stream;
      taken := 0;
    }

    /** `random.random()`: the next draw of the stream. */
    method Random() returns (r: real)
      modifies this
      ensures r == stream(old(taken)) && taken == old(taken) + 1
    {
      r := stream(taken);
      taken := taken + 1;
    }
  }
}
