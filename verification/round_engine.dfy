/** The server's round state and the operations that change it:
    publishing a question, checking a submission, folding the oracle's
    score into the question's record, and flushing expired records. */
module RoundEngine {
  import opened RoundRules

  /** What the question oracle returned; `None` fields stand for any
      missing or falsy value. */
  datatype RawQuestion = RawQuestion(id: Option<string>, text: Option<string>)

  /** The oracle call an accepted submission leads to, with the submitter
      waiting for its score. */
  datatype ScoreRequest = ScoreRequest(uid: Uid, qid: Qid, answer: string)

  datatype Reason = MissingFields | InvalidWindow

  /** The answer to a submission: accepted (with the oracle call still to
      make) or rejected with a reason. */
  datatype Verdict = Accepted(request: ScoreRequest) | Rejected(reason: Reason)

  /** A question the publisher may use: it exists and has an id and a text. */
  predicate Usable(fetched: Option<RawQuestion>)
  {
    fetched.Some? && Present(fetched.value.id) && Present(fetched.value.text)
  }

  /** Whether all three submission fields are given. */
  predicate Complete(uid: Option<string>, qid: Option<string>, answer: Option<string>)
  {
    Present(uid) && Present(qid) && Present(answer)
  }

  /** The in-memory state of the server: the current question and one
      winner record per open question. */
  class Round {
    var currentQuestion: Question
    var winnersMap: map<Qid, WinnerRecord>
    /** The scores folded into each live record since it was opened. */
    ghost var scored: map<Qid, seq<Scored>>

    /** Every live record is exactly the fold of the scores applied to it,
        starting from the fresh record opened at its time. */
    ghost predicate Valid()
      reads this
    {
      Consistent(winnersMap, scored)
    }

    /** Consequences of Valid() for every live record: the best score
        seen, exactly the distinct submitters who reached it, no duplicates. */
    lemma RecordsAreFolds()
      requires Valid()
      ensures forall q :: q in winnersMap ==>
                && winnersMap[q].maxScore == MaxSeen(scored[q])
                && Elems(winnersMap[q].winners) == Scorers(scored[q], MaxSeen(scored[q]))
                && NoDup(winnersMap[q].winners)
    {
      forall q | q in winnersMap
        ensures && winnersMap[q].maxScore == MaxSeen(scored[q])
                && Elems(winnersMap[q].winners) == Scorers(scored[q], MaxSeen(scored[q]))
                && NoDup(winnersMap[q].winners)
      {
        FoldAllFromFresh(winnersMap[q].time, scored[q]);
      }
    }

    /** The server at start-up: an empty current question and no records. */
    constructor (start: int)
      ensures Valid()
      ensures currentQuestion == Question("", "", start)
      ensures winnersMap == map[]
    {
      currentQuestion := Question("", "", start);
      winnersMap := map[];
      scored := map[];
    }

    /** getQuestion: publish what the oracle returned at time `now`, or
        change nothing when it has no id or no text. */
    method GetQuestion(fetched: Option<RawQuestion>, now: int)
      requires Valid()
      modifies this
      ensures Valid()
      ensures Usable(fetched) ==>
                var id := fetched.value.id.value;
                && currentQuestion == Question(id, fetched.value.text.value, now)
                && winnersMap == old(winnersMap)[id := Fresh(now)]
      ensures Usable(fetched) ==> scored == old(scored)[fetched.value.id.value := []]
      ensures !Usable(fetched) ==>
                currentQuestion == old(currentQuestion) && winnersMap == old(winnersMap)
      ensures !Usable(fetched) ==> scored == old(scored)
    {
      if !Usable(fetched) {
        return;
      }
      var question := fetched.value;
      currentQuestion := Question(question.id.value, question.text.value, now);
      winnersMap := winnersMap[currentQuestion.id := Fresh(currentQuestion.time)];
      scored := scored[currentQuestion.id := []];
    }

    /** The /submitanswer handler up to the oracle call, at arrival time
        `now`: reject missing fields, then a closed or unknown question;
        otherwise accept and say which oracle call to make. Nothing changes. */
    method CheckSubmission(uid: Option<string>, qid: Option<string>, answer: Option<string>, now: int)
      returns (v: Verdict)
      ensures v == Rejected(MissingFields) <==> !Complete(uid, qid, answer)
      ensures v == Rejected(InvalidWindow) <==>
                Complete(uid, qid, answer) && !IsWindowOpen(winnersMap, qid.value, now)
      ensures v.Accepted? <==> Complete(uid, qid, answer) && IsWindowOpen(winnersMap, qid.value, now)
      ensures v.Accepted? ==> v.request == ScoreRequest(uid.value, qid.value, answer.value)
    {
      if !Present(uid) || !Present(qid) || !Present(answer) {
        return Rejected(MissingFields);
      }
      var q := qid.value;
      if !(q in winnersMap && now - winnersMap[q].time < WindowMs) {
        return Rejected(InvalidWindow);
      }
      v := Accepted(ScoreRequest(uid.value, q, answer.value));
    }

    /** The /submitanswer handler after the oracle replied `score` at time
        `now2`: fold the score into the question's record, first opening a
        fresh record at `now2` if a flush removed it in the meantime. */
    method ApplyScore(req: ScoreRequest, score: int, now2: int)
      requires Valid()
      modifies this
      ensures Valid()
      ensures currentQuestion == old(currentQuestion)
      ensures winnersMap ==
                old(winnersMap)[req.qid := Fold(Rebased(old(winnersMap), req.qid, now2), Scored(req.uid, score))]
      ensures req.qid !in old(winnersMap) ==> winnersMap[req.qid].time == now2
      ensures scored == old(scored)[req.qid :=
                (if req.qid in old(scored) then old(scored)[req.qid] else []) + [Scored(req.uid, score)]]
    {
      var qid := req.qid;
      ghost var s := Scored(req.uid, score);
      ghost var history := if qid in scored then scored[qid] else [];
      // app.js:70-72 first stores a fresh record for a missing question;
      // nothing runs before the fold below, so it is stored once, folded.
      var rec;
      if qid in winnersMap {
        rec := winnersMap[qid];
      } else {
        rec := Fresh(now2);
      }
      ghost var base := rec;
      assert base == Rebased(winnersMap, qid, now2) == FoldAll(Fresh(base.time), history);
      if score > rec.maxScore {
        rec := rec.(winners := [req.uid], maxScore := score);
      } else if score == rec.maxScore {
        if req.uid !in rec.winners {
          rec := rec.(winners := rec.winners + [req.uid]);
        }
      }
      assert rec == Fold(base, s);
      FoldAllSnoc(Fresh(base.time), history, s);
      ConsistentUpdate(winnersMap, scored, qid, rec, history + [s]);
      winnersMap := winnersMap[qid := rec];
      scored := scored[qid := history + [s]];
    }

    /** sendWinners at time `now`: visit every record; for each expired
        one, notify each of its winners and delete it. Returns the
        notifications in sending order and the questions flushed, in the
        order they were visited (the model fixes no visiting order). */
    method SendWinners(now: int) returns (notes: seq<Notification>, flushed: seq<Qid>)
      requires Valid()
      modifies this
      ensures Valid()
      ensures currentQuestion == old(currentQuestion)
      ensures winnersMap == Survivors(old(winnersMap), now)
      ensures NoDup(flushed) && Elems(flushed) == ExpiredKeys(old(winnersMap), now)
      ensures forall q :: q in flushed ==> q in old(winnersMap)
      ensures notes == NotesFor(old(winnersMap), flushed)
      ensures scored == Only(old(scored), winnersMap.Keys)
    {
      ghost var m0, s0 := winnersMap, scored;
      FlushBounds(m0, now);
      var pending := winnersMap.Keys;
      notes, flushed := [], [];
      while pending != {}
        invariant pending <= m0.Keys
        invariant winnersMap == KeptSoFar(m0, pending, now)
        invariant scored == Only(s0, winnersMap.Keys)
        invariant NoDup(flushed) && Elems(flushed) == FlushedSoFar(m0, pending, now)
        invariant forall q :: q in flushed ==> q in m0
        invariant notes == NotesFor(m0, flushed)
        invariant currentQuestion == old(currentQuestion)
        decreases pending
      {
        var qid :| qid in pending;
        FlushStep(m0, pending, qid, now);
        var sent, expired := FlushIfExpired(qid, now);
        if expired {
          notes := notes + sent;
          NotesForSnoc(m0, flushed, qid);
          AppendFresh(flushed, qid);
          ElemsAppend(flushed, qid);
          OnlyRemove(s0, KeptSoFar(m0, pending, now).Keys, qid);
          flushed := flushed + [qid];
        }
        pending := pending - {qid};
      }
      ConsistentRestrict(m0, s0, now);
    }

    /** One pass of the sendWinners loop: if the record of `qid` has
        expired, notify its winners and delete it; otherwise leave it. */
    method FlushIfExpired(qid: Qid, now: int) returns (sent: seq<Notification>, expired: bool)
      requires qid in winnersMap
      modifies this
      ensures expired == (now - old(winnersMap)[qid].time >= WindowMs)
      ensures currentQuestion == old(currentQuestion)
      ensures expired ==> && winnersMap == old(winnersMap) - {qid}
                          && scored == old(scored) - {qid}
                          && sent == Announce(qid, old(winnersMap)[qid].winners)
      ensures !expired ==> winnersMap == old(winnersMap) && scored == old(scored) && sent == []
    {
      var rec := winnersMap[qid];
      expired := now - rec.time >= WindowMs;
      sent := [];
      if expired {
        sent := NotifyWinners(qid, rec.winners);
        winnersMap := winnersMap - {qid};
        scored := scored - {qid};
      }
    }
  }

  /** The forEach over one expired record's winners: one notification per
      entry, addressed to that winner, in list order. */
  method NotifyWinners(qid: Qid, winners: seq<Uid>) returns (sent: seq<Notification>)
    ensures |sent| == |winners|
    ensures forall i :: 0 <= i < |winners| ==> sent[i] == Notification(winners[i], qid)
    ensures sent == Announce(qid, winners)
  {
    sent := [];
    var i := 0;
    while i < |winners|
      invariant 0 <= i <= |winners|
      invariant sent == Announce(qid, winners[..i])
    {
      sent := sent + [Notification(winners[i], qid)];
      assert winners[..i + 1][..i] == winners[..i];
      i := i + 1;
    }
    assert winners[..i] == winners;
  }
}
