/** Clients of the Round class: the flush idempotence property stated on
    the class, and concrete timelines of one round, replayed
    step by step (times in milliseconds, window 60 s). */
module RoundScenarios {
  import opened RoundRules
  import opened RoundEngine

  /** A second flush at the same instant sends nothing and keeps every
      record the first flush kept. */
  method FlushTwice(round: Round, now: int)
    returns (first: seq<Notification>, flushed: seq<Qid>, second: seq<Notification>)
    requires round.Valid()
    modifies round
    ensures round.Valid()
    ensures Elems(flushed) == ExpiredKeys(old(round.winnersMap), now)
    ensures forall q :: q in flushed ==> q in old(round.winnersMap)
    ensures first == NotesFor(old(round.winnersMap), flushed)
    ensures second == []
    ensures round.winnersMap == Survivors(old(round.winnersMap), now)
  {
    var again;
    first, flushed := round.SendWinners(now);
    second, again := round.SendWinners(now);
    FlushIdempotent(old(round.winnersMap), now);
    EmptyOrder(again);
  }

  /** Question "1" published at 0 into a fresh server. */
  method Opened() returns (round: Round)
    ensures fresh(round) && round.Valid()
    ensures round.currentQuestion == Question("1", "Capital of France?", 0)
    ensures round.winnersMap == map["1" := Fresh(0)]
  {
    round := new Round(0);
    round.GetQuestion(Some(RawQuestion(Some("1"), Some("Capital of France?"))), 0);
  }

  /** Submit to question "1" while its window is open and wait for the
      oracle: the submission is accepted at `now` and `score` is folded
      into the record at `now2`. */
  method Answer(round: Round, before: WinnerRecord, uid: string, answer: string, now: int, score: int, now2: int)
    requires round.Valid()
    requires round.winnersMap == map["1" := before]
    requires now - before.time < WindowMs && uid != "" && answer != ""
    modifies round
    ensures round.Valid()
    ensures round.winnersMap == map["1" := Fold(before, Scored(uid, score))]
  {
    var v := round.CheckSubmission(Some(uid), Some("1"), Some(answer), now);
    round.ApplyScore(v.request, score, now2);
    assert map["1" := before]["1" := Fold(before, Scored(uid, score))] == map["1" := Fold(before, Scored(uid, score))];
  }

  /** Flush question "1" as its only record, once it has expired. */
  method FlushOnly(round: Round, rec: WinnerRecord, now: int) returns (notes: seq<Notification>)
    requires round.Valid()
    requires round.winnersMap == map["1" := rec]
    requires now - rec.time >= WindowMs
    modifies round
    ensures round.Valid()
    ensures round.winnersMap == map[]
    ensures notes == Announce("1", rec.winners)
  {
    var flushed;
    notes, flushed := round.SendWinners(now);
    FlushSingle("1", rec, now, flushed);
  }

  /** Two equal best scores: both submitters are notified. */
  method ScenarioTie() returns (notes: seq<Notification>)
    ensures notes == [Notification("alice", "1"), Notification("bob", "1")]
  {
    var round := Opened();
    Answer(round, Fresh(0), "alice", "Paris", 5000, 100, 7000);
    var alice := WinnerRecord(["alice"], 100, 0);
    Answer(round, alice, "bob", "paris", 10000, 100, 12000);
    var both := WinnerRecord(["alice", "bob"], 100, 0);
    assert Fold(alice, Scored("bob", 100)) == both;
    notes := FlushOnly(round, both, 61000);
  }

  /** A strictly better later score replaces the earlier winner. */
  method ScenarioBetterScoreWins() returns (notes: seq<Notification>)
    ensures notes == [Notification("dave", "1")]
  {
    var round := Opened();
    Answer(round, Fresh(0), "carol", "Lyon", 5000, 50, 7000);
    var carol := WinnerRecord(["carol"], 50, 0);
    Answer(round, carol, "dave", "Paris", 6000, 80, 8000);
    notes := FlushOnly(round, WinnerRecord(["dave"], 80, 0), 61000);
  }

  /** A submission one millisecond before the window closes is accepted;
      one at the closing instant or later is rejected as out of window,
      before any score is asked for, even though no flush has run. */
  method ScenarioWindowEdge() returns (early: Verdict, edge: Verdict, late: Verdict)
    ensures early == Accepted(ScoreRequest("eve", "1", "Paris"))
    ensures edge == Rejected(InvalidWindow) && late == Rejected(InvalidWindow)
  {
    var round := Opened();
    early := round.CheckSubmission(Some("eve"), Some("1"), Some("Paris"), 59999);
    edge := round.CheckSubmission(Some("eve"), Some("1"), Some("Paris"), 60000);
    late := round.CheckSubmission(Some("eve"), Some("1"), Some("Paris"), 65000);
  }

  /** A submission with an empty answer is rejected for missing fields. */
  method ScenarioMissingField() returns (v: Verdict)
    ensures v == Rejected(MissingFields)
  {
    var round := Opened();
    v := round.CheckSubmission(Some("eve"), Some("1"), Some(""), 1000);
  }

  /** A question without text leaves the previous question current and
      opens no record. */
  method ScenarioBadQuestion() returns (current: Question, open: set<Qid>)
    ensures current == Question("1", "Capital of France?", 0)
    ensures open == {"1"}
  {
    var round := Opened();
    round.GetQuestion(Some(RawQuestion(Some("2"), None)), 60000);
    current := round.currentQuestion;
    open := round.winnersMap.Keys;
  }

  /** A first score of 0 ties the initial maxScore of 0, so while the
      best score is 0 every distinct submitter scoring 0 joins the
      winners; a repeated zero scorer is listed once. Both are notified. */
  method ScenarioZeroScores() returns (notes: seq<Notification>)
    ensures notes == [Notification("frank", "1"), Notification("grace", "1")]
  {
    var round := Opened();
    Answer(round, Fresh(0), "frank", "Rome", 5000, 0, 7000);
    var frank := WinnerRecord(["frank"], 0, 0);
    assert Fold(Fresh(0), Scored("frank", 0)) == frank;
    Answer(round, frank, "grace", "Oslo", 6000, 0, 8000);
    var both := WinnerRecord(["frank", "grace"], 0, 0);
    assert Fold(frank, Scored("grace", 0)) == both;
    Answer(round, both, "frank", "Bern", 9000, 0, 11000);
    notes := FlushOnly(round, both, 60000);
  }

  /** A score that arrives after its question was flushed reopens the
      record, so its submitter is notified a second time for the same
      question at a later flush. */
  method ScenarioLateScoreRenotifies() returns (first: seq<Notification>, second: seq<Notification>)
    ensures first == [Notification("alice", "1")]
    ensures second == [Notification("alice", "1")]
  {
    var round := Opened();
    var req := ScoreRequest("alice", "1", "Paris");
    var v1 := round.CheckSubmission(Some("alice"), Some("1"), Some("Paris"), 5000);
    var v2 := round.CheckSubmission(Some("alice"), Some("1"), Some("Paris"), 50000);
    assert v1 == v2 == Accepted(req);
    round.ApplyScore(req, 100, 7000);
    var alice := WinnerRecord(["alice"], 100, 0);
    assert Fold(Fresh(0), Scored("alice", 100)) == alice;
    assert round.winnersMap == map["1" := alice];
    first := FlushOnly(round, alice, 60000);
    // the oracle's reply to the second submission arrives after the flush
    round.ApplyScore(req, 100, 62000);
    var reopened := WinnerRecord(["alice"], 100, 62000);
    assert Fold(Fresh(62000), Scored("alice", 100)) == reopened;
    assert round.winnersMap == map["1" := reopened];
    second := FlushOnly(round, reopened, 122000);
  }

  /** Publishing an id whose record is still open resets that record: the
      scores folded so far are discarded and their submitters are never
      notified for that question. */
  method ScenarioRepublishResets() returns (notes: seq<Notification>)
    ensures notes == []
  {
    var round := Opened();
    Answer(round, Fresh(0), "alice", "Paris", 5000, 100, 7000);
    round.GetQuestion(Some(RawQuestion(Some("1"), Some("Capital of France?"))), 30000);
    assert round.winnersMap == map["1" := Fresh(30000)];
    notes := FlushOnly(round, Fresh(30000), 90000);
  }
}
