/**
 * Guess evaluation and pattern update of the Rustman game
 * (`check_guess` and `fill_answer` in src/main.rs).
 *
 * Words are sequences of characters. The source works on UTF-8 strings and
 * reports byte offsets; for the ASCII words the game uses, byte offsets and
 * character indices coincide, which is what this model assumes.
 */
module Guess {

  /** One element of the vector `check_guess` returns: the position of a
    * match and the matched text (always the guessed letter itself). */
  datatype Hit = Hit(index: nat, letter: char)

  /** The matches of `letter` in `word[from..]`, in increasing position. */
  function MatchesFrom(letter: char, word: seq<char>, from: nat): (r: seq<Hit>)
    requires from <= |word|
    ensures forall j :: 0 <= j < |r| ==>
      from <= r[j].index < |word| && word[r[j].index] == letter && r[j].letter == letter
    ensures forall j, k :: 0 <= j < k < |r| ==> r[j].index < r[k].index
    ensures forall i :: from <= i < |word| && word[i] == letter ==> Hit(i, letter) in r
    decreases |word| - from
  {
    if from == |word| then []
    else if word[from] == letter then [Hit(from, letter)] + MatchesFrom(letter, word, from + 1)
    else MatchesFrom(letter, word, from + 1)
  }

  /** `check_guess`: every position of `word` holding `letter`, ascending,
    * each paired with the letter. Empty exactly when the letter is absent. */
  function CheckGuess(letter: char, word: seq<char>): (hits: seq<Hit>)
    ensures forall j :: 0 <= j < |hits| ==>
      hits[j].index < |word| && word[hits[j].index] == letter && hits[j].letter == letter
    ensures forall j, k :: 0 <= j < k < |hits| ==> hits[j].index < hits[k].index
    ensures forall i :: 0 <= i < |word| && word[i] == letter ==> Hit(i, letter) in hits
    ensures hits == [] <==> letter !in word
  {
    var hits := MatchesFrom(letter, word, 0);
    assert hits != [] ==> word[hits[0].index] in word;
    assert letter in word ==> exists i :: 0 <= i < |word| && word[i] == letter;
    hits
  }

  /** No two hits name the same position. */
  predicate DistinctIndices(hits: seq<Hit>)
  {
    forall j, k :: 0 <= j < k < |hits| ==> hits[j].index != hits[k].index
  }

  /** Position `i` is named by no hit. */
  predicate NotHit(hits: seq<Hit>, i: nat)
  {
    forall j :: 0 <= j < |hits| ==> hits[j].index != i
  }

  /** The letters the inner loop of `fill_answer` has pushed for position
    * `i` after looking at the first `n` hits: one per hit naming `i`. */
  function HitLetters(hits: seq<Hit>, n: nat, i: nat): seq<char>
    requires n <= |hits|
  {
    if n == 0 then []
    else HitLetters(hits, n - 1, i) + (if hits[n - 1].index == i then [hits[n - 1].letter] else [])
  }

  /** What one iteration of the outer loop of `fill_answer` pushes: the hit
    * letters for `i`, or the previous character when there are none. */
  function Slot(hits: seq<Hit>, answer: seq<char>, i: nat): seq<char>
    requires i < |answer|
  {
    var pushed := HitLetters(hits, |hits|, i);
    if pushed == [] then [answer[i]] else pushed
  }

  /** What the outer loop of `fill_answer` has built after `n` iterations. */
  function FilledPrefix(hits: seq<Hit>, answer: seq<char>, n: nat): seq<char>
    requires n <= |answer|
  {
    if n == 0 then [] else FilledPrefix(hits, answer, n - 1) + Slot(hits, answer, n - 1)
  }

  /** The string `fill_answer` returns, for any list of hits. */
  function Fill(hits: seq<Hit>, answer: seq<char>): seq<char>
  {
    FilledPrefix(hits, answer, |answer|)
  }

  /** The inner loop of `fill_answer`: pushes the letter of every hit that
    * names position `i`, and reports whether it pushed anything. */
  method PushHitLetters(hits: seq<Hit>, i: nat, s: seq<char>) returns (t: seq<char>, pushed: bool)
    ensures t == s + HitLetters(hits, |hits|, i)
    ensures pushed <==> HitLetters(hits, |hits|, i) != []
  {
    t := s;
    pushed := false;
    for j := 0 to |hits|
      invariant t == s + HitLetters(hits, j, i)
      invariant pushed <==> HitLetters(hits, j, i) != []
    {
      if hits[j].index == i {
        t := t + [hits[j].letter];
        pushed := true;
      }
    }
  }

  /** `fill_answer`: for each position of the old pattern, the hit letters
    * for it, or the old character when no hit names it. */
  method FillAnswer(hits: seq<Hit>, answer: seq<char>) returns (newAnswer: seq<char>)
    ensures newAnswer == Fill(hits, answer)
  {
    newAnswer := [];
    for i := 0 to |answer|
      invariant newAnswer == FilledPrefix(hits, answer, i)
    {
      var pushed;
      newAnswer, pushed := PushHitLetters(hits, i, newAnswer);
      if !pushed {
        newAnswer := newAnswer + [answer[i]];
      }
    }
  }

  /** With distinct positions, a hit's position receives exactly its letter. */
  lemma {:induction false} HitLettersAt(hits: seq<Hit>, n: nat, j: nat)
    requires DistinctIndices(hits)
    requires j < n <= |hits|
    ensures HitLetters(hits, n, hits[j].index) == [hits[j].letter]
  {
    if j == n - 1 {
      HitLettersNone(hits, n - 1, hits[j].index);
    } else {
      HitLettersAt(hits, n - 1, j);
    }
  }

  /** A position none of the first `n` hits names receives no hit letter. */
  lemma {:induction false} HitLettersNone(hits: seq<Hit>, n: nat, i: nat)
    requires n <= |hits|
    requires forall j :: 0 <= j < n ==> hits[j].index != i
    ensures HitLetters(hits, n, i) == []
  {
    if n > 0 {
      HitLettersNone(hits, n - 1, i);
    }
  }

  /** When every slot is a single character, the prefix is the slots' characters. */
  lemma {:induction false} FilledPrefixSingles(hits: seq<Hit>, answer: seq<char>, n: nat)
    requires n <= |answer|
    requires forall i :: 0 <= i < n ==> |Slot(hits, answer, i)| == 1
    ensures |FilledPrefix(hits, answer, n)| == n
    ensures forall i :: 0 <= i < n ==> FilledPrefix(hits, answer, n)[i] == Slot(hits, answer, i)[0]
  {
    if n > 0 {
      FilledPrefixSingles(hits, answer, n - 1);
    }
  }

  /** `fill_answer` with hits at distinct positions keeps the length, puts
    * each hit letter at its position and leaves every other position alone. */
  lemma FillPointwise(hits: seq<Hit>, answer: seq<char>)
    requires DistinctIndices(hits)
    ensures |Fill(hits, answer)| == |answer|
    ensures forall j :: 0 <= j < |hits| && hits[j].index < |answer| ==>
      Fill(hits, answer)[hits[j].index] == hits[j].letter
    ensures forall i :: 0 <= i < |answer| && NotHit(hits, i) ==> Fill(hits, answer)[i] == answer[i]
  {
    forall i | 0 <= i < |answer|
      ensures |Slot(hits, answer, i)| == 1
      ensures NotHit(hits, i) ==> Slot(hits, answer, i) == [answer[i]]
    {
      if NotHit(hits, i) {
        HitLettersNone(hits, |hits|, i);
      } else {
        var j :| 0 <= j < |hits| && hits[j].index == i;
        HitLettersAt(hits, |hits|, j);
      }
    }
    FilledPrefixSingles(hits, answer, |answer|);
    forall j | 0 <= j < |hits| && hits[j].index < |answer|
      ensures Fill(hits, answer)[hits[j].index] == hits[j].letter
    {
      HitLettersAt(hits, |hits|, j);
    }
  }

  /** Filling with the hits of a guess reveals the letter at every position
    * of the word that holds it, and changes nothing else. */
  lemma RevealGuess(letter: char, word: seq<char>, answer: seq<char>)
    requires |answer| == |word|
    ensures |Fill(CheckGuess(letter, word), answer)| == |word|
    ensures forall i :: 0 <= i < |word| ==>
      Fill(CheckGuess(letter, word), answer)[i] == if word[i] == letter then letter else answer[i]
  {
    var hits := CheckGuess(letter, word);
    FillPointwise(hits, answer);
    forall i | 0 <= i < |word|
      ensures Fill(hits, answer)[i] == if word[i] == letter then letter else answer[i]
    {
      if word[i] == letter {
        var j :| 0 <= j < |hits| && hits[j] == Hit(i, letter);
      } else {
        assert NotHit(hits, i);
      }
    }
  }
}
