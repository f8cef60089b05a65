/**
 * The acceptance policy of the guess prompt (`ask` in src/main.rs) as a
 * decision on one terminal event, given the letters already guessed.
 */
module Input {

  /** A terminal event as `ask` sees it: the press of a character key, or
    * anything else (a release, a non-character key, a resize, ...). */
  datatype Event = CharPress(c: char) | OtherEvent

  /** What `ask` does with one event. */
  datatype Decision =
    | Ignore                  // not a character press, or not a lowercase letter
    | AlreadyGuessed(c: char) // the "already guessed" notice; reading goes on
    | Accept(letter: char)    // the letter is recorded and returned

  /** The letters `ask` accepts. The source asks for an alphabetic lowercase
    * character; the model restricts this to ASCII. */
  predicate IsLowerLetter(c: char)
  {
    'a' <= c <= 'z'
  }

  /** `ask`'s test of one event: a repeated character is reported first, then
    * only a lowercase letter is accepted; every other event is skipped. */
  function Decide(guessed: seq<char>, e: Event): (d: Decision)
    ensures d.Accept? <==> e.CharPress? && e.c !in guessed && IsLowerLetter(e.c)
    ensures d.Accept? ==> d.letter == e.c
    ensures d.AlreadyGuessed? <==> e.CharPress? && e.c in guessed
    ensures d.AlreadyGuessed? ==> d.c == e.c
  {
    match e
    case OtherEvent => Ignore
    case CharPress(c) =>
      if c in guessed then AlreadyGuessed(c)
      else if IsLowerLetter(c) then Accept(c)
      else Ignore
  }

  /** The letters `ask` accepts, in order, when it is called again and again
    * on `events` from position `k` on, starting with the letters `guessed`:
    * each accepted letter is recorded before the next event is read. */
  function AcceptedFrom(guessed: seq<char>, events: seq<Event>, k: nat): seq<char>
    requires k <= |events|
    decreases |events| - k
  {
    if k == |events| then []
    else match Decide(guessed, events[k])
      case Accept(c) => [c] + AcceptedFrom(guessed + [c], events, k + 1)
      case _ => AcceptedFrom(guessed, events, k + 1)
  }

  /** Events that are not accepted contribute nothing to the replay. */
  lemma {:induction false} AcceptedSkips(guessed: seq<char>, events: seq<Event>, p: nat, q: nat)
    requires p <= q <= |events|
    requires forall k :: p <= k < q ==> !Decide(guessed, events[k]).Accept?
    ensures AcceptedFrom(guessed, events, p) == AcceptedFrom(guessed, events, q)
    decreases q - p
  {
    if p < q {
      AcceptedSkips(guessed, events, p + 1, q);
    }
  }

  /** Reading `used` events of which only the last is accepted, as `ask`
    * does, takes exactly the first letter of the replay. */
  lemma AcceptedStep(guessed: seq<char>, events: seq<Event>, p: nat, used: nat, c: char)
    requires 0 < used && p + used <= |events|
    requires forall k :: p <= k < p + used - 1 ==> !Decide(guessed, events[k]).Accept?
    requires Decide(guessed, events[p + used - 1]) == Accept(c)
    ensures AcceptedFrom(guessed, events, p) == [c] + AcceptedFrom(guessed + [c], events, p + used)
  {
    AcceptedSkips(guessed, events, p, p + used - 1);
  }

  /** When no remaining event is accepted, the replay is over. */
  lemma AcceptedNone(guessed: seq<char>, events: seq<Event>, p: nat)
    requires p <= |events|
    requires forall k :: p <= k < |events| ==> !Decide(guessed, events[k]).Accept?
    ensures AcceptedFrom(guessed, events, p) == []
  {
    AcceptedSkips(guessed, events, p, |events|);
  }

  /** No letter occurs twice. */
  predicate NoDuplicates(s: seq<char>)
  {
    forall i, j :: 0 <= i < j < |s| ==> s[i] != s[j]
  }

  /** Recording an accepted letter never creates a duplicate. */
  lemma AcceptKeepsDistinct(guessed: seq<char>, e: Event)
    requires NoDuplicates(guessed)
    requires Decide(guessed, e).Accept?
    ensures NoDuplicates(guessed + [Decide(guessed, e).letter])
  {
    var g := guessed + [Decide(guessed, e).letter];
    forall i, j | 0 <= i < j < |g| ensures g[i] != g[j] {
      if j == |guessed| {
        assert g[i] == guessed[i];
      }
    }
  }

  /** An uppercase key is never accepted, even for a letter of the word: the
    * policy does not fold case. */
  lemma UppercaseRejected(guessed: seq<char>, c: char)
    requires 'A' <= c <= 'Z'
    ensures !Decide(guessed, CharPress(c)).Accept?
  {
  }

  /** Every letter of a replay is a lowercase letter that was not guessed
    * before it, and no letter is accepted twice. */
  lemma {:induction false} AcceptedFresh(guessed: seq<char>, events: seq<Event>, k: nat)
    requires k <= |events|
    ensures forall c :: c in AcceptedFrom(guessed, events, k) ==> IsLowerLetter(c) && c !in guessed
    ensures NoDuplicates(AcceptedFrom(guessed, events, k))
    decreases |events| - k
  {
    if k < |events| {
      match Decide(guessed, events[k])
      case Accept(c) =>
        var rest := AcceptedFrom(guessed + [c], events, k + 1);
        AcceptedFresh(guessed + [c], events, k + 1);
        assert forall x :: x in rest ==> x !in guessed && x != c;
        var r := [c] + rest;
        forall i, j | 0 <= i < j < |r| ensures r[i] != r[j] {
          if i == 0 {
            assert r[j] in rest;
          } else {
            assert r[i] == rest[i - 1] && r[j] == rest[j - 1];
          }
        }
      case _ =>
        AcceptedFresh(guessed, events, k + 1);
    }
  }
}
