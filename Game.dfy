/**
 * The Rustman game itself (`main` and `ask` in src/main.rs): the state of
 * one game, the turn it plays for each accepted guess, and the game loop
 * that runs until the word is revealed or the guesses run out.
 *
 * Terminal input is a sequence of events given to the loop; when it runs
 * out while the prompt is still waiting, the run ends as Blocked (the
 * source would block on the keyboard). Terminal output is returned as the
 * screens the loop would draw.
 */
module Game {
  import opened Basics
  import opened Guess
  import opened Input
  import opened Display
  import opened WordSource

  /** The number of wrong guesses a game starts with. */
  const MaxGuesses: int := 6

  /** The character that masks a letter not yet revealed. */
  const Placeholder: char := '_'

  /** The number of placeholders among the first `n` characters of `s`. */
  function PlaceholdersIn(s: seq<char>, n: nat): (count: nat)
    requires n <= |s|
    ensures count <= n
    ensures count == 0 <==> forall i :: 0 <= i < n ==> s[i] != Placeholder
  {
    if n == 0 then 0
    else PlaceholdersIn(s, n - 1) + (if s[n - 1] == Placeholder then 1 else 0)
  }

  /** The number of letters of the pattern still hidden. */
  function Placeholders(s: seq<char>): nat
  {
    PlaceholdersIn(s, |s|)
  }

  /** A pattern made only of placeholders hides all its letters. */
  lemma {:induction false} AllPlaceholders(s: seq<char>, n: nat)
    requires n <= |s|
    requires forall i :: 0 <= i < n ==> s[i] == Placeholder
    ensures PlaceholdersIn(s, n) == n
  {
    if n > 0 {
      AllPlaceholders(s, n - 1);
    }
  }

  /** A pattern that keeps every placeholder of `before` or fewer has no more
    * placeholders, and strictly fewer once one of them was filled. */
  lemma {:induction false} FewerPlaceholders(before: seq<char>, after: seq<char>, n: nat)
    requires |before| == |after| && n <= |before|
    requires forall i :: 0 <= i < |after| && after[i] == Placeholder ==> before[i] == Placeholder
    ensures PlaceholdersIn(after, n) <= PlaceholdersIn(before, n)
    ensures (exists i :: 0 <= i < n && before[i] == Placeholder && after[i] != Placeholder) ==>
      PlaceholdersIn(after, n) < PlaceholdersIn(before, n)
  {
    if n > 0 {
      FewerPlaceholders(before, after, n - 1);
    }
  }

  /** Each position of the pattern is a placeholder or the word's letter
    * there, and a letter is shown only once it has been guessed. */
  predicate ShowsOnlyGuessed(word: seq<char>, guessed: seq<char>, answer: seq<char>)
  {
    |answer| == |word| &&
    forall i :: 0 <= i < |answer| ==>
      answer[i] == Placeholder || (answer[i] == word[i] && word[i] in guessed)
  }

  /** Revealing a guessed letter that is hidden in the pattern keeps it
    * showing only guessed letters, and fills at least one placeholder. */
  lemma RevealFillsPlaceholder(word: seq<char>, guessed: seq<char>, before: seq<char>, after: seq<char>, c: char)
    requires ShowsOnlyGuessed(word, guessed, before)
    requires c in guessed && c != Placeholder && c !in before && c in word
    requires |after| == |word|
    requires forall i :: 0 <= i < |word| ==> after[i] == if word[i] == c then c else before[i]
    ensures ShowsOnlyGuessed(word, guessed, after)
    ensures Placeholders(after) < Placeholders(before)
  {
    var k :| 0 <= k < |word| && word[k] == c;
    assert before[k] == Placeholder && after[k] != Placeholder;
    FewerPlaceholders(before, after, |after|);
  }

  /** The pattern shows exactly the letters of the word that were guessed. */
  predicate Consistent(word: seq<char>, guessed: seq<char>, answer: seq<char>)
  {
    |answer| == |word| &&
    forall i :: 0 <= i < |word| ==> answer[i] == if word[i] in guessed then word[i] else Placeholder
  }

  /** For a word without placeholders, a consistent pattern equals the word
    * exactly when every letter of the word has been guessed. */
  lemma WonIffAllGuessed(word: seq<char>, guessed: seq<char>, answer: seq<char>)
    requires Consistent(word, guessed, answer)
    requires Placeholder !in word
    ensures answer == word <==> forall i :: 0 <= i < |word| ==> word[i] in guessed
  {
    forall i | 0 <= i < |word| ensures answer[i] == word[i] <==> word[i] in guessed {
      assert word[i] != Placeholder;
    }
  }

  /** A letter not yet guessed is not shown anywhere in a consistent pattern. */
  lemma FreshLetterHidden(word: seq<char>, guessed: seq<char>, answer: seq<char>, c: char)
    requires Consistent(word, guessed, answer)
    requires c !in guessed && c != Placeholder
    ensures c !in answer
  {
    forall i | 0 <= i < |answer| ensures answer[i] != c {
      assert word[i] in guessed ==> word[i] != c;
    }
  }

  /** Guessing a fresh letter keeps the pattern consistent: a miss leaves it
    * unchanged, a hit reveals the letter at each of its positions. */
  lemma GuessKeepsConsistent(word: seq<char>, guessed: seq<char>, before: seq<char>, after: seq<char>, c: char)
    requires Consistent(word, guessed, before)
    requires |after| == |word|
    requires forall i :: 0 <= i < |word| ==> after[i] == if word[i] == c then c else before[i]
    ensures Consistent(word, guessed + [c], after)
  {
    forall i | 0 <= i < |word|
      ensures after[i] == if word[i] in guessed + [c] then word[i] else Placeholder
    {
      assert word[i] in guessed + [c] <==> word[i] in guessed || word[i] == c;
    }
  }

  /** The pattern `main` shows for `word` once the letters `guessed` have
    * been guessed. */
  function Pattern(word: seq<char>, guessed: seq<char>): (p: seq<char>)
    ensures Consistent(word, guessed, p)
  {
    seq(|word|, i requires 0 <= i < |word| => if word[i] in guessed then word[i] else Placeholder)
  }

  /** A consistent pattern is the pattern of the guessed letters. */
  lemma ConsistentIsPattern(word: seq<char>, guessed: seq<char>, answer: seq<char>)
    requires Consistent(word, guessed, answer)
    ensures answer == Pattern(word, guessed)
  {
  }

  /** The last of the letters `taken` is a fresh letter of the word: before
    * it, that letter was still hidden. */
  predicate WonOnLast(word: seq<char>, guessed0: seq<char>, taken: seq<char>)
  {
    0 < |taken| &&
    var c := taken[|taken| - 1];
    c in word && c != Placeholder && c !in guessed0 + taken[..|taken| - 1]
  }

  /** Guessing a hidden letter of the word makes it the winning letter. */
  lemma WonStep(word: seq<char>, guessed0: seq<char>, taken: seq<char>, c: char)
    requires c in word && c != Placeholder && c !in guessed0 + taken
    ensures WonOnLast(word, guessed0, taken + [c])
  {
    assert (taken + [c])[..|taken|] == taken;
  }

  /** A game won by the last of the letters `taken` was not won by any
    * shorter prefix of them: the pattern before each of those letters
    * differs from the word. */
  lemma WonFirst(word: seq<char>, guessed0: seq<char>, letters: seq<char>, taken: seq<char>)
    requires WonOnLast(word, guessed0, taken)
    requires |taken| <= |letters| && letters[..|taken|] == taken
    ensures forall t :: 0 <= t < |taken| ==> Pattern(word, guessed0 + letters[..t]) != word
  {
    var c := taken[|taken| - 1];
    var i :| 0 <= i < |word| && word[i] == c;
    forall t | 0 <= t < |taken|
      ensures Pattern(word, guessed0 + letters[..t]) != word
    {
      assert letters[..t] == taken[..|taken| - 1][..t];
      assert c !in guessed0 + letters[..t];
      assert Pattern(word, guessed0 + letters[..t])[i] == Placeholder;
    }
  }

  /** The number of letters in `letters` that do not occur in `word`: the
    * wrong guesses among them. */
  function Misses(word: seq<char>, letters: seq<char>): (count: nat)
    ensures count <= |letters|
  {
    if letters == [] then 0
    else (if letters[0] in word then 0 else 1) + Misses(word, letters[1..])
  }

  /** The wrong guesses of two runs of letters add up. */
  lemma {:induction false} MissesAppend(word: seq<char>, a: seq<char>, b: seq<char>)
    ensures Misses(word, a + b) == Misses(word, a) + Misses(word, b)
  {
    if a == [] {
      assert a + b == b;
    } else {
      assert (a + b)[0] == a[0] && (a + b)[1..] == a[1..] + b;
      MissesAppend(word, a[1..], b);
    }
  }

  /** `display` is the pattern of `word` for the letters `guessed`, as
    * `print_answer` spaces it out. */
  predicate Shows(display: seq<char>, word: seq<char>, guessed: seq<char>)
  {
    |display| == 2 * |word| &&
    forall i :: 0 <= i < |word| ==>
      display[2 * i] == (if word[i] in guessed then word[i] else Placeholder) && display[2 * i + 1] == ' '
  }

  /** How a call of the game loop ended. */
  datatype Outcome =
    | Won      // the pattern equals the word: `print_win`, then exit
    | Lost     // the guesses ran out: `print_lose`
    | Blocked  // the input ended while the prompt still waited for a letter

  /** What is drawn before a turn: the art and the spaced-out pattern. */
  datatype Screen = Screen(art: Option<Asset>, pattern: seq<char>)

  /** A screen drawn after the letters `taken` of a game that started with
    * the letters `guessed0` and the counter `left0`: its art is chosen by the
    * counter left after their misses, and its pattern shows the letters
    * guessed by then. */
  ghost predicate ScreenAfter(screen: Screen, word: seq<char>, guessed0: seq<char>,
                              left0: int, taken: seq<char>)
  {
    screen.art == RustmanArt(left0 - Misses(word, taken)) &&
    screen.art.Some? &&
    Shows(screen.pattern, word, guessed0 + taken)
  }

  /** Screen k of the history was drawn after the first k of `letters`. */
  ghost predicate ScreensMatch(screens: seq<Screen>, word: seq<char>, guessed0: seq<char>,
                               left0: int, letters: seq<char>)
  {
    screens == [] ||
    (|screens| <= |letters| + 1 &&
     ScreenAfter(screens[|screens| - 1], word, guessed0, left0, letters[..|screens| - 1]) &&
     ScreensMatch(screens[..|screens| - 1], word, guessed0, left0, letters))
  }

  /** Screen k of a matching history shows the state after k letters. */
  lemma {:induction false} ScreensMatchAt(screens: seq<Screen>, word: seq<char>, guessed0: seq<char>,
                                          left0: int, letters: seq<char>, k: nat)
    requires ScreensMatch(screens, word, guessed0, left0, letters) && k < |screens|
    ensures k <= |letters| && ScreenAfter(screens[k], word, guessed0, left0, letters[..k])
  {
    if k < |screens| - 1 {
      ScreensMatchAt(screens[..|screens| - 1], word, guessed0, left0, letters, k);
    }
  }

  /** Every screen of a matching history shows art, so before each of the
    * first `n` letters the counter had guesses left. */
  lemma ScreensLeaveGuesses(screens: seq<Screen>, word: seq<char>, guessed0: seq<char>,
                            left0: int, letters: seq<char>, n: nat)
    requires ScreensMatch(screens, word, guessed0, left0, letters) && n <= |screens|
    ensures forall t :: 0 <= t < n ==> 0 < left0 - Misses(word, letters[..t])
  {
    forall t | 0 <= t < n
      ensures 0 < left0 - Misses(word, letters[..t])
    {
      ScreensMatchAt(screens, word, guessed0, left0, letters, t);
    }
  }

  /** A screen drawn after all of `letters` extends a matching history. */
  lemma ScreensStep(screens: seq<Screen>, screen: Screen, word: seq<char>, guessed0: seq<char>,
                    left0: int, letters: seq<char>)
    requires ScreensMatch(screens, word, guessed0, left0, letters) && |screens| == |letters|
    requires ScreenAfter(screen, word, guessed0, left0, letters)
    ensures ScreensMatch(screens + [screen], word, guessed0, left0, letters)
  {
    assert (screens + [screen])[..|screens|] == screens;
    assert letters[..|screens|] == letters;
  }

  /** Letters accepted after the last screen do not change what it showed. */
  lemma {:induction false} ScreensExtend(screens: seq<Screen>, word: seq<char>, guessed0: seq<char>,
                                         left0: int, letters: seq<char>, rest: seq<char>)
    requires ScreensMatch(screens, word, guessed0, left0, letters)
    ensures ScreensMatch(screens, word, guessed0, left0, letters + rest)
  {
    if screens != [] {
      assert (letters + rest)[..|screens| - 1] == letters[..|screens| - 1];
      ScreensExtend(screens[..|screens| - 1], word, guessed0, left0, letters, rest);
    }
  }

  /** The loop's state after the letters `taken` of the replay `letters`, in
    * a game of `word` that started with the letters `guessed0` and the
    * counter `left0`: the events are read up to `position`, the rest of the
    * replay is what `ask` accepts from there, the guessed letters and the
    * counter account for exactly the letters taken, and every screen drawn so
    * far matches the state it was drawn in. */
  ghost predicate Replayed(word: seq<char>, events: seq<Event>, guessed0: seq<char>, left0: int,
                           letters: seq<char>, taken: seq<char>, guessed: seq<char>, left: int,
                           position: nat, screens: seq<Screen>)
  {
    position <= |events| &&
    letters == taken + AcceptedFrom(guessed, events, position) &&
    guessed == guessed0 + taken &&
    left == left0 - Misses(word, taken) &&
    ScreensMatch(screens, word, guessed0, left0, taken)
  }

  /** Concatenation is associative; stated for the replay's bookkeeping. */
  lemma Reassociate<T>(a: seq<T>, b: seq<T>, c: seq<T>)
    ensures a + (b + c) == (a + b) + c
  {
  }

  /** A pass of the loop that accepts `c` keeps the replay in step. */
  lemma ReplayedStep(word: seq<char>, events: seq<Event>, guessed0: seq<char>, left0: int,
                     letters: seq<char>, taken: seq<char>, guessed: seq<char>, left: int,
                     position: nat, screens: seq<Screen>, screen: Screen,
                     c: char, next: nat, guessed': seq<char>, left': int)
    requires Replayed(word, events, guessed0, left0, letters, taken, guessed, left, position, screens)
    requires |screens| == |taken|
    requires screen.art == RustmanArt(left) && screen.art.Some? && Shows(screen.pattern, word, guessed)
    requires next <= |events|
    requires AcceptedFrom(guessed, events, position) == [c] + AcceptedFrom(guessed', events, next)
    requires guessed' == guessed + [c] && left' == left - (if c in word then 0 else 1)
    ensures Replayed(word, events, guessed0, left0, letters, taken + [c], guessed', left', next, screens + [screen])
  {
    ScreensStep(screens, screen, word, guessed0, left0, taken);
    ScreensExtend(screens + [screen], word, guessed0, left0, taken, [c]);
    MissesAppend(word, taken, [c]);
    Reassociate(taken, [c], AcceptedFrom(guessed', events, next));
    Reassociate(guessed0, taken, [c]);
  }

  /** A pass of the loop that finds no letter draws one more screen and leaves
    * the replay finished. */
  lemma ReplayedBlocked(word: seq<char>, events: seq<Event>, guessed0: seq<char>, left0: int,
                        letters: seq<char>, taken: seq<char>, guessed: seq<char>, left: int,
                        position: nat, screens: seq<Screen>, screen: Screen)
    requires Replayed(word, events, guessed0, left0, letters, taken, guessed, left, position, screens)
    requires |screens| == |taken|
    requires screen.art == RustmanArt(left) && screen.art.Some? && Shows(screen.pattern, word, guessed)
    requires AcceptedFrom(guessed, events, position) == []
    ensures Replayed(word, events, guessed0, left0, letters, taken, guessed, left, position, screens + [screen])
    ensures letters == taken
  {
    ScreensStep(screens, screen, word, guessed0, left0, taken);
    assert letters == taken + [];
  }

  /** When the loop stops, the letters taken are a prefix of the replay and
    * every screen matches the replay itself. */
  lemma ReplayedDone(word: seq<char>, events: seq<Event>, guessed0: seq<char>, left0: int,
                     letters: seq<char>, taken: seq<char>, guessed: seq<char>, left: int,
                     position: nat, screens: seq<Screen>)
    requires Replayed(word, events, guessed0, left0, letters, taken, guessed, left, position, screens)
    ensures |taken| <= |letters| && letters[..|taken|] == taken
    ensures guessed == guessed0 + letters[..|taken|]
    ensures left == left0 - Misses(word, letters[..|taken|])
    ensures ScreensMatch(screens, word, guessed0, left0, letters)
  {
    ScreensExtend(screens, word, guessed0, left0, taken, AcceptedFrom(guessed, events, position));
  }

  class Game {
    /** The secret word. */
    const word: seq<char>
    /** The revealed pattern. */
    var answer: seq<char>
    /** The letters accepted so far, in the order they were guessed. */
    var guessed: seq<char>
    /** Wrong guesses still allowed. */
    var guessesLeft: int

    /** The invariant every operation keeps: the pattern has the word's
      * length and shows at each position either a placeholder or the word's
      * letter, and only letters already guessed; the guessed letters are
      * distinct lowercase letters; the counter stays within 0..MaxGuesses. */
    ghost predicate Valid()
      reads this
    {
      ShowsOnlyGuessed(word, guessed, answer) &&
      NoDuplicates(guessed) &&
      (forall c :: c in guessed ==> IsLowerLetter(c)) &&
      0 <= guessesLeft <= MaxGuesses
    }

    /** What still has to happen before the game ends: wrong guesses left
      * plus letters still hidden. Every turn lowers it. */
    ghost function Progress(): nat
      reads this
      requires Valid()
    {
      guessesLeft + Placeholders(answer)
    }

    /** The set-up of `main`: six guesses, nothing guessed, and a pattern of
      * one placeholder per letter of the word. */
    constructor (word: seq<char>)
      ensures this.word == word && guessed == [] && guessesLeft == MaxGuesses
      ensures |answer| == |word| && forall i :: 0 <= i < |answer| ==> answer[i] == Placeholder
      ensures Valid() && Consistent(word, guessed, answer)
      ensures Progress() == MaxGuesses + |word|
    {
      this.word := word;
      var pattern: seq<char> := [];
      for i := 0 to |word|
        invariant |pattern| == i
        invariant forall k :: 0 <= k < i ==> pattern[k] == Placeholder
      {
        pattern := pattern + [Placeholder];
      }
      AllPlaceholders(pattern, |pattern|);
      answer := pattern;
      guessed := [];
      guessesLeft := MaxGuesses;
    }

    /** `ask`: reads events until one is accepted, records that letter in the
      * guessed letters and returns it; `used` is the number of events read.
      * Rejected events, repeated letters among them, change nothing. */
    method Ask(events: seq<Event>) returns (letter: Option<char>, used: nat)
      requires Valid()
      modifies this
      ensures Valid()
      ensures answer == old(answer) && guessesLeft == old(guessesLeft)
      ensures used <= |events|
      ensures letter.Some? ==> 0 < used && Decide(old(guessed), events[used - 1]) == Accept(letter.value)
      ensures letter.Some? ==> letter.value !in old(guessed) && IsLowerLetter(letter.value)
      ensures letter.Some? ==> guessed == old(guessed) + [letter.value]
      ensures letter.Some? ==> forall k :: 0 <= k < used - 1 ==> !Decide(old(guessed), events[k]).Accept?
      ensures letter.None? ==> used == |events| && guessed == old(guessed)
      ensures letter.None? ==> forall k :: 0 <= k < |events| ==> !Decide(old(guessed), events[k]).Accept?
    {
      used := 0;
      while used < |events|
        invariant used <= |events|
        invariant guessed == old(guessed)
        invariant forall k :: 0 <= k < used ==> !Decide(guessed, events[k]).Accept?
      {
        var event := events[used];
        used := used + 1;
        match Decide(guessed, event)
        case Accept(c) =>
          AcceptKeepsDistinct(guessed, event);
          guessed := guessed + [c];
          return Some(c), used;
        case AlreadyGuessed(_) =>
        case Ignore =>
      }
      letter := None;
    }

    /** One turn of the loop of `main` for an accepted letter: a letter
      * absent from the word costs one guess and leaves the pattern alone; a
      * letter present is revealed at every position holding it, and the game
      * is won when the pattern then equals the word. */
    method Evaluate(letter: char) returns (won: bool)
      requires Valid()
      requires letter in guessed && letter !in answer
      requires guessesLeft > 0
      modifies this
      ensures Valid()
      ensures guessed == old(guessed)
      ensures letter !in word ==> guessesLeft == old(guessesLeft) - 1 && answer == old(answer) && !won
      ensures letter in word ==> guessesLeft == old(guessesLeft)
      ensures letter in word ==> (|answer| == |word| &&
        forall i :: 0 <= i < |word| ==> answer[i] == if word[i] == letter then letter else old(answer)[i])
      ensures letter in word ==> (won <==> answer == word)
      ensures Progress() < old(Progress())
    {
      var hits := CheckGuess(letter, word);
      if hits == [] {
        guessesLeft := guessesLeft - 1;
        won := false;
      } else {
        ghost var before := answer;
        RevealGuess(letter, word, answer);
        answer := FillAnswer(hits, answer);
        won := word == answer;
        RevealFillsPlaceholder(word, guessed, before, answer, letter);
      }
    }

    /** One pass of the loop of `main`: draw the art for the counter and the
      * spaced-out pattern, ask for a letter and play the turn. `letter` is
      * None when the events from `position` on hold no acceptable letter;
      * otherwise `next` is the position after the accepted event. */
    method Turn(events: seq<Event>, position: nat) returns (screen: Screen, letter: Option<char>, next: nat, won: bool)
      requires Valid() && Consistent(word, guessed, answer)
      requires guessesLeft > 0 && position <= |events|
      modifies this
      ensures Valid() && Consistent(word, guessed, answer)
      ensures screen.art == RustmanArt(old(guessesLeft)) && Shows(screen.pattern, word, old(guessed))
      ensures letter.None? ==>
        AcceptedFrom(old(guessed), events, position) == [] && !won &&
        guessed == old(guessed) && answer == old(answer) && guessesLeft == old(guessesLeft)
      ensures letter.Some? ==>
        position < next <= |events| &&
        letter.value !in old(guessed) && IsLowerLetter(letter.value) &&
        AcceptedFrom(old(guessed), events, position) == [letter.value] + AcceptedFrom(guessed, events, next) &&
        guessed == old(guessed) + [letter.value] &&
        guessesLeft == old(guessesLeft) - (if letter.value in word then 0 else 1) &&
        Progress() < old(Progress())
      ensures won ==> letter.Some? && letter.value in word && answer == word
      ensures !won ==> (old(answer) != word ==> answer != word)
    {
      var display := PrintAnswer(answer);
      screen := Screen(RustmanArt(guessesLeft), display);
      ghost var before := guessed;
      var used;
      letter, used := Ask(events[position..]);
      if letter.None? {
        AcceptedNone(before, events, position);
        return screen, letter, |events|, false;
      }
      var c := letter.value;
      AcceptedStep(before, events, position, used, c);
      next := position + used;
      FreshLetterHidden(word, before, answer, c);
      ghost var shown := answer;
      won := Evaluate(c);
      GuessKeepsConsistent(word, before, shown, answer, c);
    }

    /** The loop of `main`: while guesses remain, play a pass, stopping at
      * once on a win (the program's `exit(0)`); a loss when the counter
      * reaches zero. The accepted letters are a prefix of the replay of `ask`
      * on the events (all of it when the events run out), the counter drops
      * by one per wrong letter among them, screen k shows the art for the
      * counter and the pattern after the first k accepted letters, and the
      * number of turns is bounded by the progress measure, whatever the
      * input. */
    method Run(events: seq<Event>) returns (outcome: Outcome, turns: nat, screens: seq<Screen>)
      requires Valid() && Consistent(word, guessed, answer)
      modifies this
      ensures Valid() && Consistent(word, guessed, answer)
      ensures var letters := AcceptedFrom(old(guessed), events, 0);
        turns <= |letters| &&
        guessed == old(guessed) + letters[..turns] &&
        guessesLeft == old(guessesLeft) - Misses(word, letters[..turns]) &&
        (outcome == Blocked ==> turns == |letters|)
      ensures outcome == Won ==> answer == word && guessesLeft > 0
      ensures var letters := AcceptedFrom(old(guessed), events, 0);
        outcome == Won ==>
          0 < turns &&
          forall t :: 0 <= t < turns ==> Pattern(word, old(guessed) + letters[..t]) != word
      ensures outcome == Lost ==> guessesLeft == 0
      ensures outcome == Blocked ==> guessesLeft > 0
      ensures outcome != Won ==> (old(answer) != word ==> answer != word)
      ensures turns <= old(Progress())
      ensures |screens| == if outcome == Blocked then turns + 1 else turns
      ensures ScreensMatch(screens, word, old(guessed), old(guessesLeft),
                           AcceptedFrom(old(guessed), events, 0))
    {
      ghost var letters := AcceptedFrom(guessed, events, 0);
      ghost var taken: seq<char> := [];
      var position: nat := 0;
      var won, blocked := false, false;
      turns := 0;
      screens := [];
      while guessesLeft > 0 && !won && !blocked
        invariant Valid() && Consistent(word, guessed, answer)
        invariant Replayed(word, events, old(guessed), old(guessesLeft), letters, taken,
                           guessed, guessesLeft, position, screens)
        invariant |taken| == turns
        invariant turns + Progress() <= old(Progress())
        invariant won ==> answer == word && guessesLeft > 0 && !blocked && WonOnLast(word, old(guessed), taken)
        invariant !won ==> (old(answer) != word ==> answer != word)
        invariant blocked ==> letters == taken && guessesLeft > 0
        invariant |screens| == if blocked then turns + 1 else turns
        decreases Progress(), !blocked
      {
        ghost var before, left := guessed, guessesLeft;
        var screen, letter, next;
        screen, letter, next, won := Turn(events, position);
        if letter.None? {
          ReplayedBlocked(word, events, old(guessed), old(guessesLeft), letters, taken,
                          guessed, guessesLeft, position, screens, screen);
          blocked := true;
        } else {
          ReplayedStep(word, events, old(guessed), old(guessesLeft), letters, taken,
                       before, left, position, screens, screen,
                       letter.value, next, guessed, guessesLeft);
          if won {
            WonStep(word, old(guessed), taken, letter.value);
          }
          taken := taken + [letter.value];
          position := next;
          turns := turns + 1;
        }
        screens := screens + [screen];
      }
      ReplayedDone(word, events, old(guessed), old(guessesLeft), letters, taken,
                   guessed, guessesLeft, position, screens);
      if won {
        WonFirst(word, old(guessed), letters, taken);
      }
      outcome := if won then Won else if blocked then Blocked else Lost;
    }
  }

  /** What a finished loop over a fresh game of `w` tells about the letters
    * it took: the premises are what the loop promises, the conclusions are
    * stated in terms of the replay alone. */
  lemma FinishedGame(w: seq<char>, letters: seq<char>, turns: nat, outcome: Outcome,
                     start: seq<char>, guessed: seq<char>, answer: seq<char>, left: int,
                     screens: seq<Screen>)
    requires 0 < |w| && |start| == |w| && forall i :: 0 <= i < |start| ==> start[i] == Placeholder
    requires Consistent(w, guessed, answer)
    requires turns <= |letters| && guessed == [] + letters[..turns]
    requires left == MaxGuesses - Misses(w, letters[..turns])
    requires outcome == Won ==>
      answer == w && 0 < turns &&
      forall t :: 0 <= t < turns ==> Pattern(w, [] + letters[..t]) != w
    requires outcome == Lost ==> left == 0
    requires outcome == Blocked ==> turns == |letters| && left > 0
    requires outcome != Won ==> (start != w ==> answer != w)
    requires ScreensMatch(screens, w, [], MaxGuesses, letters) && turns <= |screens|
    ensures outcome == Won ==>
      0 < turns && Pattern(w, letters[..turns]) == w &&
      forall t :: 0 <= t < turns ==> Pattern(w, letters[..t]) != w
    ensures outcome == Lost ==> Misses(w, letters[..turns]) == MaxGuesses
    ensures outcome == Blocked ==> turns == |letters| && Misses(w, letters) < MaxGuesses
    ensures outcome != Won && Placeholder !in w ==> Pattern(w, letters[..turns]) != w
    ensures forall t :: 0 <= t < turns ==> Misses(w, letters[..t]) < MaxGuesses
  {
    assert [] + letters[..turns] == letters[..turns];
    ConsistentIsPattern(w, guessed, answer);
    if outcome == Won {
      forall t | 0 <= t < turns
        ensures Pattern(w, letters[..t]) != w
      {
        assert [] + letters[..t] == letters[..t];
      }
    }
    if outcome == Blocked {
      assert letters[..turns] == letters;
    }
    if outcome != Won && Placeholder !in w {
      assert w[0] != Placeholder;
    }
    ScreensLeaveGuesses(screens, w, [], MaxGuesses, letters, turns);
  }

  /** `main` without the welcome screen: choose the word, set up the game and
    * run the loop. The turns replay the letters `ask` accepts from the
    * events; a win comes on the first turn that completes the word, a loss
    * after MaxGuesses wrong letters. A game is over after at most
    * MaxGuesses + MaxWordLength accepted guesses, whatever the player types. */
  method PlayGame(draws: seq<seq<char>>, events: seq<Event>)
    returns (word: Option<seq<char>>, drawn: nat, outcome: Option<Outcome>, turns: nat)
    ensures drawn <= |draws|
    ensures word.None? <==> forall k :: 0 <= k < |draws| ==> !LengthOk(draws[k])
    ensures word.Some? ==> 0 < drawn && word.value == draws[drawn - 1] && LengthOk(word.value)
    ensures word.Some? ==> forall k :: 0 <= k < drawn - 1 ==> !LengthOk(draws[k])
    ensures outcome.Some? <==> word.Some?
    ensures turns <= MaxGuesses + MaxWordLength
    ensures var letters := AcceptedFrom([], events, 0);
      word.Some? ==> turns <= |letters|
    ensures var letters := AcceptedFrom([], events, 0);
      word.Some? && outcome == Some(Won) ==>
        0 < turns && Pattern(word.value, letters[..turns]) == word.value &&
        forall t :: 0 <= t < turns ==> Pattern(word.value, letters[..t]) != word.value
    ensures var letters := AcceptedFrom([], events, 0);
      word.Some? && outcome == Some(Lost) ==> Misses(word.value, letters[..turns]) == MaxGuesses
    ensures var letters := AcceptedFrom([], events, 0);
      word.Some? && outcome == Some(Blocked) ==>
        turns == |letters| && Misses(word.value, letters) < MaxGuesses
    ensures var letters := AcceptedFrom([], events, 0);
      word.Some? && outcome != Some(Won) && Placeholder !in word.value ==>
        Pattern(word.value, letters[..turns]) != word.value
    ensures var letters := AcceptedFrom([], events, 0);
      word.Some? ==> forall t :: 0 <= t < turns ==> Misses(word.value, letters[..t]) < MaxGuesses
  {
    word, drawn := GenerateWord(draws);
    if word.None? {
      return word, drawn, None, 0;
    }
    var game := new Game(word.value);
    ghost var start := game.answer;
    var result, screens;
    result, turns, screens := game.Run(events);
    FinishedGame(word.value, AcceptedFrom([], events, 0), turns, result, start,
                 game.guessed, game.answer, game.guessesLeft, screens);
    outcome := Some(result);
  }
}
