/**
 * Choice of the secret word (`generate_word` in src/main.rs): random words
 * are drawn until one has an acceptable length.
 *
 * The random word list is a foreign library; the model receives the words it
 * would produce, in order, as the sequence `draws`.
 */
module WordSource {
  import opened Basics

  const MinWordLength: nat := 4
  const MaxWordLength: nat := 6

  /** The loop condition of `generate_word`, negated: the word may be used. */
  predicate LengthOk(word: seq<char>)
  {
    MinWordLength <= |word| <= MaxWordLength
  }

  /** `generate_word`: the first draw whose length lies in
    * [MinWordLength, MaxWordLength], and how many draws it took. When no draw
    * qualifies the result is None: the source would go on drawing forever. */
  method GenerateWord(draws: seq<seq<char>>) returns (word: Option<seq<char>>, used: nat)
    ensures used <= |draws|
    ensures word.Some? ==> 0 < used && word.value == draws[used - 1] && LengthOk(word.value)
    ensures word.Some? ==> forall k :: 0 <= k < used - 1 ==> !LengthOk(draws[k])
    ensures word.None? ==> used == |draws| && forall k :: 0 <= k < |draws| ==> !LengthOk(draws[k])
  {
    var current: seq<char> := [];
    used := 0;
    while !LengthOk(current)
      invariant used <= |draws|
      invariant used == 0 ==> current == []
      invariant used > 0 ==> current == draws[used - 1]
      invariant forall k :: 0 <= k < used - 1 ==> !LengthOk(draws[k])
      decreases |draws| - used
    {
      if used == |draws| {
        return None, used;
      }
      current := draws[used];
      used := used + 1;
    }
    word := Some(current);
  }
}
