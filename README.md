# Rustman, modelled in Dafny

Rustman is a terminal Hangman game written in Rust (a single file,
`src/main.rs`). The player guesses a hidden word one letter at a time. Each
miss costs one of six guesses and rusts the robot a little more. The game is
won when the pattern of revealed letters equals the word. It is lost when the
guesses run out.

This project models the game logic of that file. Terminal and file I/O are
left out.

- `Basics.dfy`: the `Option` datatype.
- `Guess.dfy` (module `Guess`): `check_guess` as `CheckGuess` and
  `fill_answer` as `FillAnswer`. `FillAnswer` is a method with the source's
  outer loop; its inner loop over the hits is the method `PushHitLetters`. It is proved equal to the specification function `Fill`, which
  covers any hit list, including repeated positions and positions past the
  end. Lemmas then show that, for the hits of a guess, `Fill` reveals the
  letter at every position that holds it and changes nothing else.
- `Display.dfy` (module `Display`): `print_answer` as `PrintAnswer`, which
  returns the text it would print. The art selection of `print_rustman` is
  `RustmanArt`, which gives the file it would read and the caption it
  would print.
- `WordSource.dfy` (module `WordSource`): the length filter of
  `generate_word`. It takes the sequence of words the random source would
  produce.
- `Input.dfy` (module `Input`): the acceptance policy of `ask`, as a decision
  on one key event, and `AcceptedFrom`, the letters that repeated calls of
  `ask` accept from a sequence of events.
- `Game.dfy` (module `Game`): class `Game`, which holds the state of `main`:
  the word, the revealed pattern `answer`, the `guessed` letters and
  `guessesLeft`. Its constructor is the set-up. `Ask` is `ask`. `Evaluate`
  is one turn for an accepted letter. `Turn` is one pass of the loop: draw,
  ask, evaluate. `Run` is the game loop. `PlayGame` puts word choice, set-up
  and loop together.

The class invariant `Valid()` says six things:
- the pattern has the word's length;
- each position holds `'_'` or the word's letter;
- a letter is shown only once it has been guessed;
- no letter has been guessed twice;
- every guessed letter is a lowercase letter `'a'` to `'z'`;
- the counter stays within 0..6.

The game loop also keeps `Consistent`: the pattern shows exactly the guessed
letters of the word. The loop terminates because of the measure
`guessesLeft + (number of '_' in the pattern)`, which every turn that takes
a letter lowers. A pass that finds no letter ends the loop as `Blocked`.
Each accepted letter is new. A miss costs a guess. A hit fills at least one
placeholder. So a game ends after at most 6 + |word| ≤ 12 accepted guesses.

`Run` is tied to the input through `AcceptedFrom(guessed, events, 0)`, the
replay of `ask` on the events. The letters guessed during the loop are a
prefix of that replay, and all of it when the events run out. The counter
drops by `Misses`, the number of those letters that are not in the word.
Screen k shows the art for the counter after the first k letters, and the
pattern for the letters guessed by then (`ScreensMatch`, read one screen at a
time with `ScreensMatchAt`). A win ends the loop at the first pass that
completes the word: the pattern (`Pattern`) before each earlier pass still
differs from the word.

Inputs that the program reads from the outside world become parameters:
- the key events are a sequence `events`;
- the random words are a sequence `draws`.
When the events run out while the prompt is still waiting, `Run` ends with
`Blocked`; the program itself would wait on the keyboard forever. When no
draw has an acceptable length, `GenerateWord` returns `None`; the program
would keep drawing forever.

The model keeps these details of the code:
- The caption for one remaining guess is "1 guesses left"
  (src/main.rs:124).
- Art paths are the fixed Windows-style `res\rustman<n>.txt`. The code marks
  the path handling as unfinished (src/main.rs:88). The doc comment at
  src/main.rs:84 names the files `<number>_guesses_left.txt`, but the code
  reads `res\rustman<n>.txt`.
- `generate_word` has no cap on the number of draws (src/main.rs:75-77).
- The guessed letters are a string in the order they were guessed
  (src/main.rs:11, 148).

## Model

| member | source | states |
|---|---|---|
| Guess.MatchesFrom | src/main.rs:156 | the matches of a letter from a position on: every one is a position holding the letter, paired with the letter; they are strictly ascending; every position holding the letter appears |
| Guess.CheckGuess | src/main.rs:155-158 | returns exactly the positions of the word holding the letter, ascending and each paired with the letter; empty if and only if the letter does not occur in the word |
| Guess.PushHitLetters | src/main.rs:163-169 | the inner loop pushes, in order, the letter of every hit naming the position, and sets `pushed` exactly when it pushed something |
| Guess.FillAnswer | src/main.rs:160-175 | the string built by the nested loops equals `Fill(hits, answer)` for any list of hits |
| Guess.FillPointwise | src/main.rs:160-175 | with hits at distinct positions the result has the old pattern's length, each hit's position holds its letter, and every other position keeps its previous character |
| Guess.RevealGuess | src/main.rs:31-36 | filling with the hits `check_guess` returns puts the letter at every position of the word holding it and leaves every other position unchanged |
| Display.PrintAnswer | src/main.rs:177-185 | the display is twice as long as the pattern; character 2i is the pattern's character i and character 2i+1 is a space |
| Display.RustmanArt | src/main.rs:89-127 | an asset is selected exactly for the counts 1 to 6; any other count draws nothing |
| Display.RustmanArtPath | src/main.rs:89-125 | count n reads the file `res\rustman<n>.txt` |
| Display.RustmanArtCaption | src/main.rs:89-125 | count n prints the caption "<n> guesses left" |
| Display.RustmanArtInjective | src/main.rs:89-125 | different counts read different files and print different captions |
| WordSource.GenerateWord | src/main.rs:73-80 | the returned word is the first draw whose length lies in [4, 6]; every earlier draw was rejected; no word only when no draw qualifies |
| Input.Decide | src/main.rs:136-150 | an event is accepted exactly when it is a press of a lowercase letter not guessed before, and then yields that letter; a press of a letter already guessed is reported as such; everything else is ignored |
| Input.AcceptKeepsDistinct | src/main.rs:142-149 | appending an accepted letter to duplicate-free guessed letters keeps them duplicate-free |
| Input.UppercaseRejected | src/main.rs:147 | an uppercase key is never accepted: there is no case folding |
| Input.AcceptedSkips | src/main.rs:135-146 | events that `ask` does not accept are read past: the replay from the first of them equals the replay from after the last |
| Input.AcceptedStep | src/main.rs:135-149 | when the events before an accepting one are all rejected, the replay starts with the accepted letter and goes on from the next event with that letter recorded |
| Input.AcceptedNone | src/main.rs:135-152 | when no event from a position on is accepted, the replay from there is empty |
| Input.AcceptedFresh | src/main.rs:142-149 | every letter of a replay is a lowercase letter not guessed before it, and no letter is accepted twice |
| Game.Misses | src/main.rs:32-33 | at most one guess is lost per letter |
| Game.MissesAppend | src/main.rs:32-33 | the guesses lost over two runs of letters add up |
| Game.ScreensMatchAt | src/main.rs:25-27 | screen k of a matching history was drawn after the first k letters: its art is chosen by the counter left after their misses, and its pattern shows the letters guessed by then |
| Game.ReplayedStep | src/main.rs:25-42 | a pass that accepts a letter moves that letter from the replay to the letters taken, charges its miss to the counter and adds the screen it drew |
| Game.ReplayedBlocked | src/main.rs:25-29 | a pass whose events hold no acceptable letter adds the screen it drew, and the letters taken are the whole replay |
| Game.WonFirst | src/main.rs:39-41 | when the last accepted letter was a hidden letter of the word, the pattern after every shorter prefix of the letters differs from the word: the game was not won earlier |
| Game.ScreensLeaveGuesses | src/main.rs:25-27 | every drawn screen shows art, so before each of the letters behind them the counter still had guesses left |
| Game.FinishedGame | src/main.rs:25-46 | for a fresh game: a win is on the first turn whose pattern equals the word; a loss is at exactly six wrong letters; running out of events leaves fewer than six, with every accepted letter played; a game not won of a word without '_' ends with the pattern unequal to the word; every turn began with guesses left |
| Game.ReplayedDone | src/main.rs:25-45 | when the loop stops, the guessed letters and the counter account for a prefix of the replay, and the screens match the replay |
| Game.PlaceholdersIn | src/main.rs:20-23 | the count of placeholders in a prefix is at most its length, and zero exactly when the prefix has none |
| Game.AllPlaceholders | src/main.rs:20-23 | a pattern of placeholders only has as many placeholders as letters |
| Game.FewerPlaceholders | src/main.rs:31-36 | a pattern that creates no new placeholder has no more placeholders, and strictly fewer when it fills one |
| Game.RevealFillsPlaceholder | src/main.rs:31-36 | revealing a guessed, still hidden letter of the word keeps the pattern showing only guessed letters and lowers the number of placeholders |
| Game.GuessKeepsConsistent | src/main.rs:29-36 | after a fresh letter is guessed and revealed, the pattern again shows exactly the guessed letters of the word |
| Game.FreshLetterHidden | src/main.rs:142-146 | a letter not yet guessed appears nowhere in the pattern |
| Game.WonIffAllGuessed | src/main.rs:39 | for a word without `'_'`, the pattern equals the word exactly when every letter of the word has been guessed |
| Game.Game.constructor | src/main.rs:10-23 | six guesses, no guessed letters, and a pattern of one `'_'` per letter of the word; the invariant holds and the progress measure is 6 + length of the word |
| Game.Game.Ask | src/main.rs:133-153 | returns the letter of the first accepted event, which is a lowercase letter not guessed before, and appends it to the guessed letters; rejected events, repeated letters among them, change nothing; pattern and counter are untouched |
| Game.Game.Evaluate | src/main.rs:31-42 | a miss lowers the counter by exactly one and leaves the pattern unchanged; a hit keeps the counter and reveals the letter at every position holding it, winning exactly when the pattern then equals the word; the progress measure strictly decreases |
| Game.Game.Turn | src/main.rs:26-42 | draws the art for the current counter and the spaced-out current pattern; with no acceptable letter in the events nothing changes and the replay from this position is empty; otherwise the letter is the replay's next one, is recorded, costs a guess exactly when it is not in the word, and the progress measure drops; a win only on a letter of the word that completes the pattern |
| Game.Game.Run | src/main.rs:25-46 | the guessed letters are the start letters followed by the first `turns` letters of the replay of `ask` on the events, all of them when the events run out; the counter drops by exactly the misses among them; a win only with the pattern equal to the word and guesses left, on the first pass that completes the word (the pattern before every earlier pass differs from it); a loss only with the counter at zero, and with the pattern not equal to the word unless it already was at the start; one screen per pass, each matching the state it was drawn in; turns are bounded by the initial progress measure |
| Game.PlayGame | src/main.rs:9-47 | a game is played exactly when a draw has an acceptable length; the chosen word is the first such draw and every earlier draw was rejected; the turns are a prefix of the letters `ask` accepts from the events, each begun with guesses left; a win comes on the first turn whose pattern equals the word; a loss comes after exactly six wrong letters; running out of events comes after fewer than six wrong letters, with every accepted letter played; a game not won of a word without '_' ends with the word still unrevealed; a game ends within 12 accepted guesses |

## Left out

- The welcome screen (`print_welcome`): it prints text and waits for Enter. This is terminal I/O only.
- Clearing the screen and all `println!` output, including the win and loss messages. `Run` returns the outcome and the screens it would draw instead.
- Reading the art files and the panics when one cannot be opened. The model selects the file name and caption only.
- The random word library. Its words are the input `draws`, and endless drawing is cut off at the end of that sequence.
- The blocking keyboard read and its I/O errors (the `?` and the `unwrap` on `ask`). Events are the input `events`; running out of them is the `Blocked` outcome.
- `std::process::exit(0)` after a win. It is the `Won` outcome.
- Byte offsets. The source reports byte positions of UTF-8 strings, and `fill_answer` mixes byte lengths with character indexing. The model works on characters, which agrees with the source for ASCII words only.
- Input.Decide: accepts only 'a' to 'z'. The source's `is_alphabetic() && is_lowercase()` also accepts non-ASCII lowercase letters; Unicode character classes are not modelled.
- The 8-bit counter `num_guesses_left` is an unbounded integer. It only takes values 0 to 6, so no wrap-around can happen.
