/**
 * The server's side of a flashcard session: moving through a deck by AJAX
 * (`flashcard_nav_ajax`) and answering cards through the non-AJAX fallback
 * (`answer_flashcard`), which advances the stored progress row and, at the
 * end of the deck, turns it into a session summary.
 */
module FlashcardServer {
  import opened Wrappers
  import opened JsonValues

  // ---------------------------------------------------------------------
  // Navigation

  /** The reply of `flashcard_nav_ajax`. */
  datatype NavReply =
    | InvalidBody                 // 400, "Invalid request body"
    | InvalidFormat               // 400, "Invalid data format"
    | Uncaught(error: PyError)    // 500: an exception the view does not catch
    | IndexOutOfRange             // 500: `flashcards[current_index]` raised IndexError
    | Moved(index: int, card: nat, total: nat)

  /** `parse_json_body`: a body that is not JSON reads as the empty object. */
  function ParseBody(body: Option<Json>): (data: Json)
    ensures body.None? ==> data == JObject([])
    ensures body.Some? ==> data == body.value
  {
    body.GetOr(JObject([]))
  }

  /**
   * One move from index `i` in a deck of `n` cards: "next" goes forward
   * but not past the last card, "prev" goes back but not before the first,
   * and any other direction (or none) stays put.
   */
  function Step(direction: Option<Json>, i: int, n: nat): (j: int)
    ensures direction == Some(JString("next")) ==> j <= i + 1 && j <= n - 1 && (j == i + 1 || j == n - 1)
    ensures direction == Some(JString("prev")) ==> j >= i - 1 && j >= 0 && (j == i - 1 || j == 0)
    ensures direction != Some(JString("next")) && direction != Some(JString("prev")) ==> j == i
  {
    if direction == Some(JString("next")) then (if i + 1 < n - 1 then i + 1 else n - 1)
    else if direction == Some(JString("prev")) then (if i - 1 > 0 then i - 1 else 0)
    else i
  }

  /** Python list indexing `xs[i]` on a list of length `n`: the position read, or None for IndexError. */
  function PyIndex(i: int, n: nat): (r: Option<nat>)
    ensures r.Some? <==> -(n as int) <= i < n
    ensures r.Some? ==> r.value < n && (if i >= 0 then r.value == i else r.value == n + i)
  {
    if 0 <= i < n then Some(i)
    else if -(n as int) <= i < 0 then Some(n + i)
    else None
  }

  /**
   * `flashcard_nav_ajax` on a deck of `n` cards. A falsy body is rejected;
   * a truthy body that is not an object has no `.get` and raises
   * AttributeError, which the view does not catch; an index on which `int()`
   * raises ValueError or TypeError is rejected, while an infinite index
   * raises OverflowError, which the view does not catch either; otherwise
   * the index moves and the card at the new index is read with Python
   * indexing, negative indices counting from the end.
   */
  function NavAjax(body: Option<Json>, n: nat): (r: NavReply)
    ensures !TruthyValue(ParseBody(body)) <==> r == InvalidBody
    ensures r == Uncaught(AttributeError) <==> TruthyValue(ParseBody(body)) && !ParseBody(body).JObject?
    ensures r == Uncaught(OverflowError) <==>
              ParseBody(body).JObject? && ParseBody(body).fields != []
              && IntOf(Get(ParseBody(body).fields, "current_index", JInt(0))) == Err(OverflowError)
    ensures r == InvalidFormat <==>
              ParseBody(body).JObject? && ParseBody(body).fields != []
              && IntOf(Get(ParseBody(body).fields, "current_index", JInt(0))).Err?
              && IntOf(Get(ParseBody(body).fields, "current_index", JInt(0))).error != OverflowError
    ensures r.Moved? ==> r.total == n && r.card < n
    ensures r.Moved? && r.index >= 0 ==> r.card == r.index
    ensures r.Moved? && r.index < 0 ==> r.card == n + r.index
  {
    var data := ParseBody(body);
    if !TruthyValue(data) then InvalidBody
    else if !data.JObject? then Uncaught(AttributeError)
    else
      var direction := Lookup(data.fields, "direction");
      var index := IntOf(Get(data.fields, "current_index", JInt(0)));
      if index.Err? then
        if index.error == OverflowError then Uncaught(OverflowError) else InvalidFormat
      else
        var j := Step(direction, index.value, n);
        var position := PyIndex(j, n);
        if position.None? then IndexOutOfRange else Moved(j, position.value, n)
  }

  /** From a card of a non-empty deck, every direction lands on a card of the deck. */
  lemma StepStaysInDeck(direction: Option<Json>, i: int, n: nat)
    requires 1 <= n && 0 <= i < n
    ensures 0 <= Step(direction, i, n) < n
    ensures Step(direction, i, n) - i in {-1, 0, 1}
  {
  }

  /** The request the page sends — a direction and the current index — moves to a card of the deck and reports it. */
  lemma NavFromCardStaysInDeck(direction: Json, i: int, n: nat)
    requires 1 <= n && 0 <= i < n
    ensures var r := NavAjax(Some(JObject([("direction", direction), ("current_index", JInt(i))])), n);
            r.Moved? && 0 <= r.index < n && r.card == r.index && r.total == n
  {
    var fields := [("direction", direction), ("current_index", JInt(i))];
    assert "direction" != "current_index" by { assert "direction"[0] != "current_index"[0]; }
    assert Lookup(fields, "current_index") == Some(JInt(i));
    assert Lookup(fields, "direction") == Some(direction);
    StepStaysInDeck(Some(direction), i, n);
  }

  /** An empty deck has no card to show: every request fails, none moves. */
  lemma EmptyDeckNeverMoves(body: Option<Json>)
    ensures !NavAjax(body, 0).Moved?
  {
  }

  /** A body that is not JSON at all is treated as the empty object and rejected. */
  lemma UndecodableBodyRejected(n: nat)
    ensures NavAjax(None, n) == InvalidBody
  {
  }

  /** A negative index the client sends is not clamped by a direction other than "next": -1 shows the last card. */
  lemma NegativeIndexReadsFromEnd()
    ensures NavAjax(Some(JObject([("current_index", JInt(-1))])), 3) == Moved(-1, 2, 3)
  {
    assert Lookup([("current_index", JInt(-1))], "direction") == None;
  }

  /** `{"current_index": Infinity}` decodes, but `int()` of an infinity raises OverflowError, which escapes the view. */
  lemma InfiniteIndexUncaught(negative: bool, n: nat)
    ensures NavAjax(Some(JObject([("current_index", JInfinity(negative))])), n) == Uncaught(OverflowError)
  {
    assert Lookup([("current_index", JInfinity(negative))], "current_index") == Some(JInfinity(negative));
  }

  /** `{"current_index": NaN}` makes `int()` raise ValueError, which the view reports as an invalid format. */
  lemma NaNIndexInvalidFormat(n: nat)
    ensures NavAjax(Some(JObject([("current_index", JNaN)])), n) == InvalidFormat
  {
    assert Lookup([("current_index", JNaN)], "current_index") == Some(JNaN);
  }

  // ---------------------------------------------------------------------
  // Answering through the progress row

  /** The counters of a `FlashcardSetProgress` row. */
  datatype Progress = Progress(index: int, known: int, notKnown: int)

  /** The session summary: `{"known", "not_known", "total"}`. */
  datatype Summary = Summary(known: int, notKnown: int, total: nat)

  /** After an answer the row is either saved with new counters or deleted in favour of a summary. */
  datatype AnswerOutcome =
    | Continue(progress: Progress)
    | Finished(summary: Summary)

  /** The known / not-known counts an outcome carries, wherever they ended up. */
  function Tally(r: AnswerOutcome): (int, int) {
    match r
    case Continue(p) => (p.known, p.notKnown)
    case Finished(s) => (s.known, s.notKnown)
  }

  /**
   * The counting step of `answer_flashcard` on a deck of `n` cards: the
   * named counter goes up by one (neither for an unknown action), the index
   * always advances by one, and reaching the end of the deck replaces the
   * row with a summary whose total is the deck size.
   */
  function Answer(p: Progress, action: string, n: nat): (r: AnswerOutcome)
    ensures r.Finished? <==> p.index + 1 >= n
    ensures r.Continue? ==> r.progress.index == p.index + 1
    ensures r.Finished? ==> r.summary.total == n
    ensures Tally(r).0 == p.known + 1 <==> action == "known"
    ensures Tally(r).1 == p.notKnown + 1 <==> action == "not_known"
    ensures Tally(r).0 in {p.known, p.known + 1} && Tally(r).1 in {p.notKnown, p.notKnown + 1}
  {
    var known := if action == "known" then p.known + 1 else p.known;
    var notKnown := if action == "not_known" then p.notKnown + 1 else p.notKnown;
    var index := p.index + 1;
    if index >= n then Finished(Summary(known, notKnown, n))
    else Continue(Progress(index, known, notKnown))
  }

  /**
   * A run of answers starting from `p`. Once the row is deleted later
   * answers find no row, so the run stops at the summary.
   */
  function Run(p: Progress, actions: seq<string>, n: nat): (r: AnswerOutcome)
    ensures r.Continue? ==> r.progress.index == p.index + |actions|
    ensures r.Finished? ==> r.summary.total == n && |actions| > 0
    ensures p.known <= Tally(r).0 && p.notKnown <= Tally(r).1
    ensures Tally(r).0 + Tally(r).1 <= p.known + p.notKnown + |actions|
    decreases |actions|
  {
    if |actions| == 0 then Continue(p)
    else match Answer(p, actions[0], n)
      case Finished(s) => Finished(s)
      case Continue(q) => Run(q, actions[1..], n)
  }

  /** Every answer is one of the two the page offers. */
  predicate Rated(actions: seq<string>) {
    forall k :: 0 <= k < |actions| ==> actions[k] in {"known", "not_known"}
  }

  /**
   * Answering only "known" / "not_known" keeps known + not_known equal to
   * the index; the session finishes exactly when the answers reach the end
   * of the deck, and then the summary's counts add up to its total.
   */
  lemma {:induction false} RunKeepsCount(p: Progress, actions: seq<string>, n: nat)
    requires Rated(actions)
    requires 0 <= p.index < n && p.known + p.notKnown == p.index
    ensures Run(p, actions, n).Finished? <==> p.index + |actions| >= n
    ensures Run(p, actions, n).Continue? ==>
              Run(p, actions, n).progress.index == p.index + |actions|
              && Run(p, actions, n).progress.known + Run(p, actions, n).progress.notKnown == p.index + |actions|
    ensures Run(p, actions, n).Finished? ==> Run(p, actions, n).summary.total == n
    ensures Run(p, actions, n).Finished? ==>
              Run(p, actions, n).summary.known + Run(p, actions, n).summary.notKnown == Run(p, actions, n).summary.total
    decreases |actions|
  {
    if |actions| > 0 {
      var a := Answer(p, actions[0], n);
      assert actions[0] in {"known", "not_known"};
      if a.Continue? {
        assert Rated(actions[1..]) by {
          forall k | 0 <= k < |actions[1..]| ensures actions[1..][k] in {"known", "not_known"} {
            assert actions[1..][k] == actions[k + 1];
          }
        }
        RunKeepsCount(a.progress, actions[1..], n);
      }
    }
  }

  /** A fresh session on a deck of `n` cards finishes after exactly `n` rated answers, all of them counted. */
  lemma FreshSessionCountsEveryCard(actions: seq<string>, n: nat)
    requires Rated(actions) && |actions| == n && n >= 1
    ensures Run(Progress(0, 0, 0), actions, n).Finished?
    ensures Run(Progress(0, 0, 0), actions, n).summary.total == n
    ensures Run(Progress(0, 0, 0), actions, n).summary.known + Run(Progress(0, 0, 0), actions, n).summary.notKnown == n
  {
    RunKeepsCount(Progress(0, 0, 0), actions, n);
  }

  // ---------------------------------------------------------------------
  // The view around the counting step

  /** A stored progress row: its owner, its set and its counters. */
  datatype ProgressRow = ProgressRow(owner: nat, setId: nat, progress: Progress)

  datatype ViewReply =
    | FieldErrorRaised            // 500: the lookup names a field the row does not have
    | NotFound                    // 404: no progress row for this user and set
    | MultipleRows                // 500: `get` found more than one row
    | Answered(rows: seq<ProgressRow>, outcome: AnswerOutcome)

  /** The positions of the rows of `user` for set `setId`. */
  function Matching(rows: seq<ProgressRow>, user: nat, setId: nat): (ks: seq<nat>)
    ensures forall j :: 0 <= j < |ks| ==> ks[j] < |rows| && rows[ks[j]].owner == user && rows[ks[j]].setId == setId
    ensures forall k :: 0 <= k < |rows| && rows[k].owner == user && rows[k].setId == setId ==> k in ks
  {
    if |rows| == 0 then []
    else
      var earlier := Matching(rows[..|rows| - 1], user, setId);
      var last := |rows| - 1;
      if rows[last].owner == user && rows[last].setId == setId then earlier + [last] else earlier
  }

  /** The row list without position `k`. */
  function Without(rows: seq<ProgressRow>, k: nat): (r: seq<ProgressRow>)
    requires k < |rows|
    ensures |r| == |rows| - 1
    ensures forall j :: 0 <= j < k ==> r[j] == rows[j]
    ensures forall j :: k <= j < |r| ==> r[j] == rows[j + 1]
  {
    rows[..k] + rows[k + 1..]
  }

  /**
   * `answer_flashcard` looking its row up by the keyword `ownerField`: a
   * progress row's owner column is called `owner`, so any other keyword
   * does not resolve; otherwise the one matching row is answered and saved,
   * or deleted when the session finishes.
   */
  function AnswerView(rows: seq<ProgressRow>, ownerField: string, user: nat, setId: nat, action: string, n: nat)
    : (r: ViewReply)
    ensures ownerField != "owner" <==> r == FieldErrorRaised
    ensures r.Answered? ==> |Matching(rows, user, setId)| == 1
    ensures r.Answered? && r.outcome.Continue? ==>
              r.rows == rows[Matching(rows, user, setId)[0] := ProgressRow(user, setId, r.outcome.progress)]
    ensures r.Answered? && r.outcome.Finished? ==> r.rows == Without(rows, Matching(rows, user, setId)[0])
    ensures r.Answered? ==> r.outcome == Answer(rows[Matching(rows, user, setId)[0]].progress, action, n)
    ensures ownerField == "owner" ==> (r == NotFound <==> |Matching(rows, user, setId)| == 0)
    ensures ownerField == "owner" ==> (r == MultipleRows <==> |Matching(rows, user, setId)| > 1)
  {
    if ownerField != "owner" then FieldErrorRaised
    else
      var ks := Matching(rows, user, setId);
      if |ks| == 0 then NotFound
      else if |ks| > 1 then MultipleRows
      else
        var row := rows[ks[0]];
        var outcome := Answer(row.progress, action, n);
        match outcome
        case Continue(q) => Answered(rows[ks[0] := ProgressRow(row.owner, row.setId, q)], outcome)
        case Finished(_) => Answered(Without(rows, ks[0]), outcome)
  }

  /** The view as the repository writes it: the row is looked up by `user`. */
  function AnswerFlashcardAsWritten(rows: seq<ProgressRow>, user: nat, setId: nat, action: string, n: nat): (r: ViewReply)
    ensures r == FieldErrorRaised
  {
    AnswerView(rows, "user", user, setId, action, n)
  }

  /**
   * As written, an answer fails even for a user who owns exactly one row for
   * the set, the case the lookup by `owner` answers.
   */
  lemma AnswerAsWrittenAlwaysFails(progress: Progress, user: nat, setId: nat, action: string, n: nat)
    ensures var rows := [ProgressRow(user, setId, progress)];
            AnswerFlashcardAsWritten(rows, user, setId, action, n) == FieldErrorRaised
            && AnswerFlashcard(rows, user, setId, action, n).Answered?
  {
    var rows := [ProgressRow(user, setId, progress)];
    assert Matching(rows, user, setId) == [0] by {
      assert rows[..0] == [];
    }
  }

  /** The view with the lookup by `owner`, which the rest of the model uses. */
  function AnswerFlashcard(rows: seq<ProgressRow>, user: nat, setId: nat, action: string, n: nat): (r: ViewReply)
    ensures r != FieldErrorRaised
    ensures r == NotFound <==> |Matching(rows, user, setId)| == 0
    ensures r == MultipleRows <==> |Matching(rows, user, setId)| > 1
    ensures r.Answered? <==> |Matching(rows, user, setId)| == 1
  {
    AnswerView(rows, "owner", user, setId, action, n)
  }

  /** With the lookup by `owner`, a user's single row for the set is answered and no other row changes. */
  lemma AnswerTouchesOnlyItsRow(rows: seq<ProgressRow>, k: nat, action: string, n: nat)
    requires k < |rows|
    requires forall j :: 0 <= j < |rows| && j != k ==> rows[j].owner != rows[k].owner || rows[j].setId != rows[k].setId
    ensures var r := AnswerFlashcard(rows, rows[k].owner, rows[k].setId, action, n);
            r.Answered?
            && r.outcome == Answer(rows[k].progress, action, n)
            && (r.outcome.Continue? ==> |r.rows| == |rows| && r.rows[k].progress == r.outcome.progress
                                        && forall j :: 0 <= j < |rows| && j != k ==> r.rows[j] == rows[j])
            && (r.outcome.Finished? ==> r.rows == Without(rows, k))
  {
    var ks := Matching(rows, rows[k].owner, rows[k].setId);
    assert k in ks;
    forall j | 0 <= j < |ks| ensures ks[j] == k {
    }
    assert |ks| == 1 by {
      if |ks| > 1 {
        assert ks[0] == k && ks[1] == k;
        MatchingStrictlyIncreasing(rows, rows[k].owner, rows[k].setId);
      }
    }
  }

  /** Positions listed in strictly increasing order, so none twice. */
  predicate Increasing(ks: seq<nat>) {
    forall a, b :: 0 <= a < b < |ks| ==> ks[a] < ks[b]
  }

  /** `Matching` lists positions in increasing order. */
  lemma {:induction false} MatchingStrictlyIncreasing(rows: seq<ProgressRow>, user: nat, setId: nat)
    ensures Increasing(Matching(rows, user, setId))
  {
    if |rows| > 0 {
      var prefix := rows[..|rows| - 1];
      var earlier := Matching(prefix, user, setId);
      var last := |rows| - 1;
      MatchingStrictlyIncreasing(prefix, user, setId);
      if rows[last].owner == user && rows[last].setId == setId {
        var ks := earlier + [last];
        assert Matching(rows, user, setId) == ks;
        forall a, b | 0 <= a < b < |ks| ensures ks[a] < ks[b] {
          assert ks[a] == earlier[a];
          assert earlier[a] < |prefix|;
          if b < |earlier| {
            assert ks[b] == earlier[b];
          }
        }
      } else {
        assert Matching(rows, user, setId) == earlier;
      }
    }
  }
}
