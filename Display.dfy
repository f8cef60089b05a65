/**
 * What the Rustman game draws before each turn (`print_rustman` and
 * `print_answer` in src/main.rs), without the terminal: the model
 * computes the text that would be printed and the art file that would be read.
 */
module Display {
  import opened Basics

  /** An art asset: the file read from disk and the caption printed under it. */
  datatype Asset = Asset(path: string, caption: string)

  /** The decimal digit for a count from 0 to 9. */
  function DigitChar(n: int): (c: char)
    requires 0 <= n <= 9
    ensures '0' <= c <= '9' && c as int - '0' as int == n
  {
    ('0' as int + n) as char
  }

  /** `print_rustman`'s selection: a count from 1 to 6 picks the file
    * `res\rustman<n>.txt` and the caption "<n> guesses left"; any other
    * count draws nothing. */
  function RustmanArt(guessesLeft: int): (r: Option<Asset>)
    ensures r.Some? <==> 1 <= guessesLeft <= 6
  {
    match guessesLeft
    case 6 => Some(Asset("res\\rustman6.txt", "6 guesses left"))
    case 5 => Some(Asset("res\\rustman5.txt", "5 guesses left"))
    case 4 => Some(Asset("res\\rustman4.txt", "4 guesses left"))
    case 3 => Some(Asset("res\\rustman3.txt", "3 guesses left"))
    case 2 => Some(Asset("res\\rustman2.txt", "2 guesses left"))
    case 1 => Some(Asset("res\\rustman1.txt", "1 guesses left"))
    case _ => None
  }

  /** Every drawable count is drawn from the file named after its digit. */
  lemma RustmanArtPath(n: int)
    requires 1 <= n <= 6
    ensures RustmanArt(n).value.path == "res\\rustman" + [DigitChar(n)] + ".txt"
  {
    if n == 1 {
      assert "res\\rustman1.txt" == "res\\rustman" + "1" + ".txt";
    } else if n == 2 {
      assert "res\\rustman2.txt" == "res\\rustman" + "2" + ".txt";
    } else if n == 3 {
      assert "res\\rustman3.txt" == "res\\rustman" + "3" + ".txt";
    } else if n == 4 {
      assert "res\\rustman4.txt" == "res\\rustman" + "4" + ".txt";
    } else if n == 5 {
      assert "res\\rustman5.txt" == "res\\rustman" + "5" + ".txt";
    } else {
      assert "res\\rustman6.txt" == "res\\rustman" + "6" + ".txt";
    }
  }

  /** Every drawable count is captioned with its digit. */
  lemma RustmanArtCaption(n: int)
    requires 1 <= n <= 6
    ensures RustmanArt(n).value.caption == [DigitChar(n)] + " guesses left"
  {
    if n == 1 {
      assert "1 guesses left" == "1" + " guesses left";
    } else if n == 2 {
      assert "2 guesses left" == "2" + " guesses left";
    } else if n == 3 {
      assert "3 guesses left" == "3" + " guesses left";
    } else if n == 4 {
      assert "4 guesses left" == "4" + " guesses left";
    } else if n == 5 {
      assert "5 guesses left" == "5" + " guesses left";
    } else {
      assert "6 guesses left" == "6" + " guesses left";
    }
  }

  /** Different counts are drawn from different files and captioned differently. */
  lemma RustmanArtInjective(m: int, n: int)
    requires RustmanArt(m).Some? && RustmanArt(n).Some?
    requires m != n
    ensures RustmanArt(m).value.path != RustmanArt(n).value.path
    ensures RustmanArt(m).value.caption != RustmanArt(n).value.caption
  {
    RustmanArtPath(m);
    RustmanArtPath(n);
    RustmanArtCaption(m);
    RustmanArtCaption(n);
    assert RustmanArt(m).value.path[11] == DigitChar(m);
    assert RustmanArt(n).value.path[11] == DigitChar(n);
    assert RustmanArt(m).value.caption[0] == DigitChar(m);
    assert RustmanArt(n).value.caption[0] == DigitChar(n);
  }

  /** `print_answer`: each character of the pattern followed by one space. */
  method PrintAnswer(answer: seq<char>) returns (display: seq<char>)
    ensures |display| == 2 * |answer|
    ensures forall i :: 0 <= i < |answer| ==> display[2 * i] == answer[i] && display[2 * i + 1] == ' '
  {
    display := [];
    for i := 0 to |answer|
      invariant |display| == 2 * i
      invariant forall k :: 0 <= k < i ==> display[2 * k] == answer[k] && display[2 * k + 1] == ' '
    {
      display := display + [answer[i]];
      display := display + [' '];
    }
  }
}
