/** The boolean helpers of `neko::util::logic`. The variadic folds
    `allTrue(args...)` and `anyTrue(args...)` take their arguments as a
    sequence. */
module Logic {
  /** `boolTo`: `rTrue` for true, `rFalse` for false. */
  function BoolTo<T>(v: bool, rTrue: T, rFalse: T): (r: T)
    ensures r == rTrue || r == rFalse
    ensures rTrue != rFalse ==> (r == rTrue <==> v)
  {
    if v then rTrue else rFalse
  }

  /** `boolTo` at its default type `std::string`, with the default texts
      `"true"` and `"false"`. */
  function BoolToText(v: bool, rTrue: string := "true", rFalse: string := "false"): (r: string)
    ensures v ==> r == rTrue
    ensures !v ==> r == rFalse
  {
    BoolTo(v, rTrue, rFalse)
  }

  /** `allTrue(args...)`: the fold `(true && ... && args)`. */
  function AllTrue(args: seq<bool>): (r: bool)
    ensures r <==> forall i :: 0 <= i < |args| ==> args[i]
  {
    if |args| == 0 then true else AllTrue(args[..|args| - 1]) && args[|args| - 1]
  }

  /** `anyTrue(args...)`: the fold `(false || ... || args)`. */
  function AnyTrue(args: seq<bool>): (r: bool)
    ensures r <==> exists i :: 0 <= i < |args| && args[i]
  {
    if |args| == 0 then false else AnyTrue(args[..|args| - 1]) || args[|args| - 1]
  }

  /** `anyTrue` is `allTrue` of the negations, negated. */
  lemma AnyTrueIsNotAllFalse(args: seq<bool>)
    ensures AnyTrue(args) == !AllTrue(seq(|args|, i requires 0 <= i < |args| => !args[i]))
  {
    var negated := seq(|args|, i requires 0 <= i < |args| => !args[i]);
    assert AllTrue(negated) <==> forall i :: 0 <= i < |args| ==> !args[i] by {
      assert forall i :: 0 <= i < |args| ==> negated[i] == !args[i];
    }
  }
}
