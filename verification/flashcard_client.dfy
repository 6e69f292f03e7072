/**
 * The browser's side of a flashcard session: the position in the deck,
 * the known / not-known tallies of study mode, free navigation in regular
 * mode, the navigation buttons, the payload sent when a study session
 * ends, and the Fisher–Yates shuffle. DOM updates and animation are not
 * part of this model.
 */
module FlashcardClient {
  import opened Wrappers
  import Arith

  datatype Card = Card(front: string, back: string)

  /** `allFlashcards`, `currentIndex` and `stats`. */
  datatype Session = Session(deck: seq<Card>, index: int, known: int, notKnown: int)

  /** What `finishSession` posts: `{known, not_known, total}`. */
  datatype Payload = Payload(known: int, notKnown: int, total: nat)

  /** `resetLocalState`: the tallies and the index go back to zero, the deck stays as it is. */
  function ResetLocalState(s: Session): (r: Session)
    ensures r.deck == s.deck
    ensures r.index == 0 && r.known == 0 && r.notKnown == 0
  {
    Session(s.deck, 0, 0, 0)
  }

  /**
   * `regularNavigate(direction)`: "next" moves on only when a later card
   * exists, "prev" moves back only from a card after the first; anything
   * else changes nothing.
   */
  function RegularNavigate(s: Session, direction: string): (r: Session)
    ensures r.deck == s.deck && r.known == s.known && r.notKnown == s.notKnown
    ensures r.index != s.index ==>
              (direction == "next" && r.index == s.index + 1 && r.index <= |s.deck| - 1)
              || (direction == "prev" && r.index == s.index - 1 && r.index >= 0)
    ensures direction == "next" && s.index < |s.deck| - 1 ==> r.index == s.index + 1
    ensures direction == "prev" && s.index > 0 ==> r.index == s.index - 1
  {
    if direction == "next" && s.index < |s.deck| - 1 then s.(index := s.index + 1)
    else if direction == "prev" && s.index > 0 then s.(index := s.index - 1)
    else s
  }

  /** Regular navigation never leaves the deck. */
  lemma RegularNavigateStaysInDeck(s: Session, direction: string)
    requires 0 <= s.index < |s.deck|
    ensures 0 <= RegularNavigate(s, direction).index < |s.deck|
  {
  }

  /** `updateNavButtons`: whether Back and Proceed are disabled. */
  function NavButtons(s: Session): (disabled: (bool, bool))
    ensures disabled.0 <==> s.index == 0
    ensures disabled.1 <==> s.index >= |s.deck| - 1
  {
    (s.index == 0, s.index >= |s.deck| - 1)
  }

  /**
   * The buttons agree with what navigation would do: Proceed is enabled
   * exactly when "next" moves, and from a card of the deck Back is enabled
   * exactly when "prev" moves.
   */
  lemma ButtonsMatchNavigation(s: Session)
    ensures !NavButtons(s).1 <==> RegularNavigate(s, "next") != s
    ensures s.index >= 0 ==> (!NavButtons(s).0 <==> RegularNavigate(s, "prev") != s)
  {
  }

  /** The result of `studyAnswer`: the new session and, when the deck is used up, the payload sent. */
  datatype StudyStep = StudyStep(session: Session, sent: Option<Payload>)

  /** `finishSession`'s payload: the tallies and the deck size. */
  function FinishPayload(s: Session): (p: Payload)
    ensures p.known == s.known && p.notKnown == s.notKnown && p.total == |s.deck|
  {
    Payload(s.known, s.notKnown, |s.deck|)
  }

  /**
   * `studyAnswer(action)`: "known" counts as known and every other action
   * as not known; the index advances by one, and once it reaches the deck
   * size the session is sent.
   */
  function StudyAnswer(s: Session, action: string): (r: StudyStep)
    ensures r.session.deck == s.deck && r.session.index == s.index + 1
    ensures r.session.known + r.session.notKnown == s.known + s.notKnown + 1
    ensures r.session.known == s.known + 1 <==> action == "known"
    ensures r.sent.Some? <==> r.session.index >= |s.deck|
    ensures r.sent.Some? ==> r.sent.value == FinishPayload(r.session)
  {
    var counted := if action == "known" then s.(known := s.known + 1) else s.(notKnown := s.notKnown + 1);
    var moved := counted.(index := s.index + 1);
    if moved.index >= |s.deck| then StudyStep(moved, Some(FinishPayload(moved))) else StudyStep(moved, None)
  }

  /** A run of study answers. */
  function StudyRun(s: Session, actions: seq<string>): (r: Session)
    ensures r.deck == s.deck && r.index == s.index + |actions|
    ensures s.known <= r.known <= s.known + |actions|
    ensures s.notKnown <= r.notKnown <= s.notKnown + |actions|
    decreases |actions|
  {
    if |actions| == 0 then s else StudyRun(StudyAnswer(s, actions[0]).session, actions[1..])
  }

  /** While only study answers run, known + not known keeps pace with the index, and the deck is untouched. */
  lemma {:induction false} StudyRunKeepsCount(s: Session, actions: seq<string>)
    requires s.known + s.notKnown == s.index
    ensures StudyRun(s, actions).deck == s.deck
    ensures StudyRun(s, actions).index == s.index + |actions|
    ensures StudyRun(s, actions).known + StudyRun(s, actions).notKnown == StudyRun(s, actions).index
    decreases |actions|
  {
    if |actions| > 0 {
      StudyRunKeepsCount(StudyAnswer(s, actions[0]).session, actions[1..]);
    }
  }

  /** After a reset, the first |deck| - 1 answers send nothing and the last one sends the whole deck's tallies. */
  lemma ResetThenStudyToEnd(s: Session, actions: seq<string>, last: string)
    requires |actions| + 1 == |s.deck|
    ensures var t := StudyRun(ResetLocalState(s), actions);
            t.index == |s.deck| - 1
            && StudyAnswer(t, last).sent.Some?
            && StudyAnswer(t, last).sent.value.total == |s.deck|
            && StudyAnswer(t, last).sent.value.known + StudyAnswer(t, last).sent.value.notKnown == |s.deck|
  {
    StudyRunKeepsCount(ResetLocalState(s), actions);
  }

  // ---------------------------------------------------------------------
  // Shuffle

  /** `Math.floor(r * (i + 1))` for a draw `r` in [0, 1): a position in [0, i]. */
  function Pick(r: real, i: nat): (j: nat)
    requires 0.0 <= r < 1.0
    ensures j <= i
    ensures j as real <= r * (i + 1) as real < j as real + 1.0
  {
    var m := (i + 1) as real;
    var x := r * m;
    Arith.RealProductPositive(1.0 - r, m);
    assert m - x == (1.0 - r) * m;
    x.Floor
  }

  /** Every draw of `Math.random()` lies in [0, 1). */
  predicate Draws(rand: seq<real>) {
    forall k :: 0 <= k < |rand| ==> 0.0 <= rand[k] < 1.0
  }

  /**
   * `shuffle()`: for i from the last position down to 1, swap position i
   * with position `floor(r * (i + 1))` for the next draw r; then reset the
   * session. The draws come in as `rand`, one per swap.
   */
  method Shuffle(s: Session, rand: seq<real>) returns (r: Session)
    requires Draws(rand) && |rand| >= |s.deck| - 1
    ensures |r.deck| == |s.deck| && multiset(r.deck) == multiset(s.deck)
    ensures r.index == 0 && r.known == 0 && r.notKnown == 0
  {
    var a := s.deck;
    var i := |a| - 1;
    while i > 0
      invariant |a| == |s.deck|
      invariant multiset(a) == multiset(s.deck)
      invariant i <= |a| - 1
      decreases i
    {
      var j := Pick(rand[|a| - 1 - i], i);
      a := Swap(a, i, j);
      i := i - 1;
    }
    r := ResetLocalState(Session(a, s.index, s.known, s.notKnown));
  }

  /** `[xs[i], xs[j]] = [xs[j], xs[i]]`. */
  function Swap<T>(xs: seq<T>, i: nat, j: nat): (r: seq<T>)
    requires i < |xs| && j < |xs|
    ensures |r| == |xs| && r[i] == xs[j] && r[j] == xs[i]
    ensures forall k :: 0 <= k < |xs| && k != i && k != j ==> r[k] == xs[k]
    ensures multiset(r) == multiset(xs)
  {
    xs[i := xs[j]][j := xs[i]]
  }
}
