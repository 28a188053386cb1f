/** The rules of one trivia round, as pure definitions over values:
    how a score is folded into a question's winner record, when a
    question's answer window is open, which records a flush removes and
    which notifications it sends. The class in RoundEngine is proved
    against these definitions. */
module RoundRules {

  /** Participant ids and question ids are the string keys the server
      uses (object keys in the source are strings). */
  type Uid = string
  type Qid = string

  /** Q_TIME_WINDOW is 60 seconds; time is kept in integer milliseconds. */
  const WindowMs: int := 60000

  datatype Option<T> = None | Some(value: T)

  /** The current question: its id, its text and when it was published. */
  datatype Question = Question(id: Qid, text: string, time: int)

  /** What the server keeps per open question: the winners so far, the
      best score so far and the time the record was opened. */
  datatype WinnerRecord = WinnerRecord(winners: seq<Uid>, maxScore: int, time: int)

  /** One score returned by the scoring oracle for one submitter. */
  datatype Scored = Scored(uid: Uid, score: int)

  /** One "you won" event addressed to participant `uid` for question `qid`. */
  datatype Notification = Notification(uid: Uid, qid: Qid)

  /** A request field counts as given when it is a non-empty string;
      every other falsy value of the request is `None`. */
  predicate Present(f: Option<string>)
  {
    f.Some? && f.value != ""
  }

  predicate NoDup<T(==)>(s: seq<T>)
  {
    forall i, j :: 0 <= i < j < |s| ==> s[i] != s[j]
  }

  function Elems<T>(s: seq<T>): set<T>
  {
    set x | x in s
  }

  function Max(a: int, b: int): int
  {
    if a < b then b else a
  }

  /** The record a newly published question starts with. */
  function Fresh(t: int): WinnerRecord
  {
    WinnerRecord([], 0, t)
  }

  // ---------------------------------------------------------------------
  // Folding scores into a record
  // ---------------------------------------------------------------------

  /** The max/tie rule applied to one score: a strictly better score
      replaces the winners by its submitter, an equal score adds its
      submitter unless already present, a lower score changes nothing. */
  function Fold(rec: WinnerRecord, s: Scored): (r: WinnerRecord)
    ensures r.maxScore == Max(rec.maxScore, s.score)
    ensures r.time == rec.time
    ensures s.score > rec.maxScore ==> r.winners == [s.uid]
    ensures s.score == rec.maxScore ==>
              rec.winners <= r.winners && Elems(r.winners) == Elems(rec.winners) + {s.uid}
    ensures s.score == rec.maxScore && s.uid in rec.winners ==> r == rec
    ensures s.score < rec.maxScore ==> r == rec
    ensures NoDup(rec.winners) ==> NoDup(r.winners)
  {
    if s.score > rec.maxScore then
      rec.(winners := [s.uid], maxScore := s.score)
    else if s.score == rec.maxScore then
      if s.uid in rec.winners then rec else rec.(winners := rec.winners + [s.uid])
    else
      rec
  }

  /** The record after folding a history of scores, oldest first. */
  function FoldAll(rec: WinnerRecord, subs: seq<Scored>): (r: WinnerRecord)
    ensures r.time == rec.time
    ensures r.maxScore >= rec.maxScore
    decreases |subs|
  {
    if subs == [] then rec
    else Fold(FoldAll(rec, subs[..|subs| - 1]), subs[|subs| - 1])
  }

  /** Folding one more score extends the history by that score. */
  lemma FoldAllSnoc(rec: WinnerRecord, subs: seq<Scored>, s: Scored)
    ensures FoldAll(rec, subs + [s]) == Fold(FoldAll(rec, subs), s)
  {
    assert (subs + [s])[..|subs|] == subs;
  }

  /** The best score in a history, or 0 (the initial maxScore) when no
      score exceeds 0. */
  function MaxSeen(subs: seq<Scored>): (m: int)
    ensures m >= 0
    ensures forall s :: s in subs ==> s.score <= m
    ensures m == 0 || exists s :: s in subs && s.score == m
    decreases |subs|
  {
    if subs == [] then 0
    else
      var init, last := subs[..|subs| - 1], subs[|subs| - 1];
      assert subs == init + [last];
      Max(MaxSeen(init), last.score)
  }

  /** The distinct submitters in a history whose score equals `m`. */
  function Scorers(subs: seq<Scored>, m: int): set<Uid>
  {
    set s | s in subs && s.score == m :: s.uid
  }

  lemma ScorersSnoc(init: seq<Scored>, last: Scored, m: int)
    ensures Scorers(init + [last], m) ==
            Scorers(init, m) + (if last.score == m then {last.uid} else {})
  {
    var subs := init + [last];
    forall u | u in Scorers(subs, m)
      ensures u in Scorers(init, m) + (if last.score == m then {last.uid} else {})
    {
      var s :| s in subs && s.score == m && s.uid == u;
      if s != last {
        assert s in init;
      }
    }
  }

  /** Starting from a fresh record, after any history of folds the record
      holds the best score seen (or 0), its winners are exactly the
      distinct submitters who reached that score, and none is listed twice. */
  lemma {:induction false} FoldAllFromFresh(t: int, subs: seq<Scored>)
    ensures FoldAll(Fresh(t), subs).maxScore == MaxSeen(subs)
    ensures Elems(FoldAll(Fresh(t), subs).winners) == Scorers(subs, MaxSeen(subs))
    ensures NoDup(FoldAll(Fresh(t), subs).winners)
    decreases |subs|
  {
    if subs != [] {
      var init, last := subs[..|subs| - 1], subs[|subs| - 1];
      assert subs == init + [last];
      FoldAllFromFresh(t, init);
      var m0 := MaxSeen(init);
      ScorersSnoc(init, last, MaxSeen(subs));
      if last.score > m0 {
        // every earlier score is at most m0, so none reaches the new maximum
        assert Scorers(init, last.score) == {};
      }
    }
  }

  /** The round's state invariant: each live record is exactly the fold of
      the scores applied to it (`history[q]`), starting from the fresh
      record opened at its time. */
  ghost predicate Consistent(records: map<Qid, WinnerRecord>, history: map<Qid, seq<Scored>>)
  {
    && records.Keys == history.Keys
    && forall q :: q in records ==> records[q] == FoldAll(Fresh(records[q].time), history[q])
  }

  lemma ConsistentUpdate(records: map<Qid, WinnerRecord>, history: map<Qid, seq<Scored>>,
                         qid: Qid, rec: WinnerRecord, h: seq<Scored>)
    requires Consistent(records, history)
    requires rec == FoldAll(Fresh(rec.time), h)
    ensures Consistent(records[qid := rec], history[qid := h])
  {
  }

  /** Keeping only the unexpired records (with their histories) keeps the
      invariant. */
  lemma ConsistentRestrict(records: map<Qid, WinnerRecord>, history: map<Qid, seq<Scored>>, now: int)
    requires Consistent(records, history)
    ensures Consistent(KeptSoFar(records, {}, now), Only(history, KeptSoFar(records, {}, now).Keys))
  {
  }

  /** maxScore never decreases: every prefix of a history leaves a best
      score no larger than the whole history does. */
  lemma {:induction false} FoldAllMaxMonotone(rec: WinnerRecord, subs: seq<Scored>, k: nat)
    requires k <= |subs|
    ensures FoldAll(rec, subs[..k]).maxScore <= FoldAll(rec, subs).maxScore
    decreases |subs|
  {
    if k < |subs| {
      var init := subs[..|subs| - 1];
      assert init[..k] == subs[..k];
      FoldAllMaxMonotone(rec, init, k);
    } else {
      assert subs[..k] == subs;
    }
  }

  /** The best score and the set of winners do not depend on the order in
      which the oracle's answers arrive. */
  lemma FoldOrderIrrelevant(t: int, a: seq<Scored>, b: seq<Scored>)
    requires multiset(a) == multiset(b)
    ensures FoldAll(Fresh(t), a).maxScore == FoldAll(Fresh(t), b).maxScore
    ensures Elems(FoldAll(Fresh(t), a).winners) == Elems(FoldAll(Fresh(t), b).winners)
  {
    FoldAllFromFresh(t, a);
    FoldAllFromFresh(t, b);
    assert forall s :: s in a <==> s in b by {
      forall s ensures s in a <==> s in b {
        assert s in a <==> s in multiset(a);
        assert s in b <==> s in multiset(b);
      }
    }
    MaxSeenDeterminedBy(a, b);
    MaxSeenDeterminedBy(b, a);
  }

  lemma MaxSeenDeterminedBy(a: seq<Scored>, b: seq<Scored>)
    requires forall s :: s in a ==> s in b
    ensures MaxSeen(a) <= MaxSeen(b)
  {
    if MaxSeen(a) != 0 {
      var s :| s in a && s.score == MaxSeen(a);
      assert s in b;
    }
  }

  // ---------------------------------------------------------------------
  // The answer window and expiry
  // ---------------------------------------------------------------------

  /** checkAnswerValidity: the question has a record and less than the
      window has passed since the record's time. */
  predicate IsWindowOpen(m: map<Qid, WinnerRecord>, qid: Qid, now: int)
  {
    qid in m && now - m[qid].time < WindowMs
  }

  /** The questions a flush at `now` finds expired. */
  function ExpiredKeys(m: map<Qid, WinnerRecord>, now: int): (expired: set<Qid>)
    ensures expired !! Survivors(m, now).Keys
    ensures expired + Survivors(m, now).Keys == m.Keys
  {
    set q | q in m && now - m[q].time >= WindowMs
  }

  /** The records a flush at `now` keeps. */
  function Survivors(m: map<Qid, WinnerRecord>, now: int): (kept: map<Qid, WinnerRecord>)
    ensures forall q :: q in kept ==> q in m && kept[q] == m[q] && IsWindowOpen(m, q, now)
  {
    map q | q in m && now - m[q].time < WindowMs :: m[q]
  }

  /** A submission is accepted for exactly the questions a flush at the
      same instant would keep; every other known question is one that
      flush removes. */
  lemma WindowOpenIffSurvives(m: map<Qid, WinnerRecord>, qid: Qid, now: int)
    ensures IsWindowOpen(m, qid, now) <==> qid in Survivors(m, now)
    ensures IsWindowOpen(m, qid, now) ==> Survivors(m, now)[qid] == m[qid]
    ensures qid in m ==> (!IsWindowOpen(m, qid, now) <==> qid in ExpiredKeys(m, now))
  {
  }

  /** Once closed, a window stays closed for later instants (as long as
      the record is not replaced). */
  lemma WindowStaysClosed(m: map<Qid, WinnerRecord>, qid: Qid, now: int, later: int)
    requires now <= later
    requires !IsWindowOpen(m, qid, now)
    ensures !IsWindowOpen(m, qid, later)
  {
  }

  /** Part way through a flush that still has `pending` to visit: the
      records kept so far (unvisited ones and unexpired ones) ... */
  function KeptSoFar(m: map<Qid, WinnerRecord>, pending: set<Qid>, now: int): map<Qid, WinnerRecord>
  {
    map q | q in m && (q in pending || now - m[q].time < WindowMs) :: m[q]
  }

  /** ... and the questions flushed so far (visited and expired). */
  function FlushedSoFar(m: map<Qid, WinnerRecord>, pending: set<Qid>, now: int): set<Qid>
  {
    set q | q in m && q !in pending && now - m[q].time >= WindowMs
  }

  /** Before the first visit nothing is flushed; after the last, the kept
      records are the survivors and the flushed ones the expired ones. */
  lemma FlushBounds(m: map<Qid, WinnerRecord>, now: int)
    ensures KeptSoFar(m, m.Keys, now) == m && FlushedSoFar(m, m.Keys, now) == {}
    ensures KeptSoFar(m, {}, now) == Survivors(m, now) && FlushedSoFar(m, {}, now) == ExpiredKeys(m, now)
  {
  }

  /** Visiting `qid` removes it from the kept records and adds it to the
      flushed ones exactly when it has expired. */
  lemma FlushStep(m: map<Qid, WinnerRecord>, pending: set<Qid>, qid: Qid, now: int)
    requires qid in pending && pending <= m.Keys
    ensures qid in KeptSoFar(m, pending, now) && KeptSoFar(m, pending, now)[qid] == m[qid]
    ensures qid !in FlushedSoFar(m, pending, now)
    ensures now - m[qid].time >= WindowMs ==>
              && KeptSoFar(m, pending - {qid}, now) == KeptSoFar(m, pending, now) - {qid}
              && FlushedSoFar(m, pending - {qid}, now) == FlushedSoFar(m, pending, now) + {qid}
    ensures now - m[qid].time < WindowMs ==>
              && KeptSoFar(m, pending - {qid}, now) == KeptSoFar(m, pending, now)
              && FlushedSoFar(m, pending - {qid}, now) == FlushedSoFar(m, pending, now)
  {
  }

  /** The entries of `m` whose keys are in `keys`. */
  function Only<V>(m: map<Qid, V>, keys: set<Qid>): map<Qid, V>
  {
    map q | q in m && q in keys :: m[q]
  }

  lemma OnlyRemove<V>(m: map<Qid, V>, keys: set<Qid>, qid: Qid)
    ensures Only(m, keys - {qid}) == Only(m, keys) - {qid}
  {
  }

  /** A second flush at the same instant finds nothing expired and keeps
      every record. */
  lemma FlushIdempotent(m: map<Qid, WinnerRecord>, now: int)
    ensures ExpiredKeys(Survivors(m, now), now) == {}
    ensures Survivors(Survivors(m, now), now) == Survivors(m, now)
  {
  }

  // ---------------------------------------------------------------------
  // Notifications
  // ---------------------------------------------------------------------

  /** One notification per entry of `ws`, in order, for question `q`. */
  function Announce(q: Qid, ws: seq<Uid>): (r: seq<Notification>)
    ensures |r| == |ws|
    ensures forall i :: 0 <= i < |ws| ==> r[i] == Notification(ws[i], q)
    decreases |ws|
  {
    if ws == [] then []
    else Announce(q, ws[..|ws| - 1]) + [Notification(ws[|ws| - 1], q)]
  }

  /** The notifications sent when the records of `order` are flushed in
      that order. */
  function NotesFor(m: map<Qid, WinnerRecord>, order: seq<Qid>): (r: seq<Notification>)
    requires forall q :: q in order ==> q in m
    ensures forall n :: n in r ==> n.qid in order && n.uid in m[n.qid].winners
    decreases |order|
  {
    if order == [] then []
    else
      var last := order[|order| - 1];
      NotesFor(m, order[..|order| - 1]) + Announce(last, m[last].winners)
  }

  lemma ElemsOfFirstTwo<T>(s: seq<T>)
    ensures |s| > 0 ==> s[0] in Elems(s)
    ensures |s| > 1 ==> s[1] in Elems(s)
  {
  }

  /** An order that visits nothing sends nothing. */
  lemma EmptyOrder(order: seq<Qid>)
    requires Elems(order) == {}
    ensures order == []
  {
    ElemsOfFirstTwo(order);
  }

  /** The only duplicate-free order of a single question. */
  lemma SingleOrder(order: seq<Qid>, q: Qid)
    requires NoDup(order) && Elems(order) == {q}
    ensures order == [q]
  {
    ElemsOfFirstTwo(order);
  }

  /** Flushing a state holding one expired record: that record is the
      only one visited, and its winners are notified in list order. */
  lemma FlushSingle(q: Qid, rec: WinnerRecord, now: int, order: seq<Qid>)
    requires now - rec.time >= WindowMs
    requires NoDup(order) && Elems(order) == ExpiredKeys(map[q := rec], now)
    ensures order == [q]
    ensures NotesFor(map[q := rec], order) == Announce(q, rec.winners)
    ensures Survivors(map[q := rec], now) == map[]
  {
    assert ExpiredKeys(map[q := rec], now) == {q};
    SingleOrder(order, q);
  }

  lemma ElemsAppend<T>(s: seq<T>, x: T)
    ensures Elems(s + [x]) == Elems(s) + {x}
  {
  }

  /** Appending a new element keeps a sequence duplicate-free. */
  lemma AppendFresh<T>(s: seq<T>, x: T)
    requires NoDup(s) && x !in s
    ensures NoDup(s + [x])
    ensures forall y :: y in s + [x] <==> y in s || y == x
  {
  }

  lemma NotesForSnoc(m: map<Qid, WinnerRecord>, order: seq<Qid>, q: Qid)
    requires forall k :: k in order ==> k in m
    requires q in m
    ensures NotesFor(m, order + [q]) == NotesFor(m, order) + Announce(q, m[q].winners)
  {
    assert (order + [q])[..|order|] == order;
  }

  lemma AnnounceCount(q: Qid, ws: seq<Uid>, n: Notification)
    ensures multiset(Announce(q, ws))[n] == if n.qid == q then multiset(ws)[n.uid] else 0
  {
    var r := Announce(q, ws);
    assert r == seq(|ws|, i requires 0 <= i < |ws| => Notification(ws[i], q));
    if n.qid == q {
      MapCount(ws, q, n.uid);
    } else {
      assert n !in r;
    }
  }

  lemma {:induction false} MapCount(ws: seq<Uid>, q: Qid, u: Uid)
    ensures multiset(Announce(q, ws))[Notification(u, q)] == multiset(ws)[u]
    decreases |ws|
  {
    if ws != [] {
      var init := ws[..|ws| - 1];
      assert ws == init + [ws[|ws| - 1]];
      MapCount(init, q, u);
    }
  }

  /** Flushing distinct records sends, for each (participant, question),
      as many notifications as the participant appears among that
      record's winners, and none for questions not flushed. */
  lemma {:induction false} NotesForCount(m: map<Qid, WinnerRecord>, order: seq<Qid>, n: Notification)
    requires forall q :: q in order ==> q in m
    requires NoDup(order)
    ensures multiset(NotesFor(m, order))[n] ==
            if n.qid in order then multiset(m[n.qid].winners)[n.uid] else 0
    decreases |order|
  {
    if order != [] {
      var init, last := order[..|order| - 1], order[|order| - 1];
      assert order == init + [last];
      NotesForCount(m, init, n);
      AnnounceCount(last, m[last].winners, n);
      assert last !in init;
    }
  }

  lemma {:induction false} NoDupCount<T>(s: seq<T>, x: T)
    requires NoDup(s)
    ensures multiset(s)[x] == if x in s then 1 else 0
    decreases |s|
  {
    if s != [] {
      var init := s[..|s| - 1];
      assert s == init + [s[|s| - 1]];
      NoDupCount(init, x);
    }
  }

  /** When the winner lists have no duplicates, each winner of each
      flushed record gets exactly one notification and nobody else gets
      any; a record with no winners is removed silently. */
  lemma EachWinnerNotifiedOnce(m: map<Qid, WinnerRecord>, order: seq<Qid>, n: Notification)
    requires forall q :: q in order ==> q in m
    requires NoDup(order)
    requires forall q :: q in m ==> NoDup(m[q].winners)
    ensures multiset(NotesFor(m, order))[n] ==
            if n.qid in order && n.uid in m[n.qid].winners then 1 else 0
  {
    NotesForCount(m, order, n);
    if n.qid in order {
      NoDupCount(m[n.qid].winners, n.uid);
    }
  }

  /** A flush that visits each expired record once (in any order) sends
      each winner of each expired record exactly one notification, and
      none to anyone else, provided winner lists hold no duplicates. */
  lemma FlushNotifiesEachWinnerOnce(m: map<Qid, WinnerRecord>, now: int, flushed: seq<Qid>, n: Notification)
    requires NoDup(flushed) && Elems(flushed) == ExpiredKeys(m, now)
    requires forall q :: q in m ==> NoDup(m[q].winners)
    ensures forall q :: q in flushed ==> q in m
    ensures multiset(NotesFor(m, flushed))[n] ==
            if n.qid in ExpiredKeys(m, now) && n.uid in m[n.qid].winners then 1 else 0
  {
    assert forall q :: q in flushed ==> q in Elems(flushed);
    EachWinnerNotifiedOnce(m, flushed, n);
  }

  // ---------------------------------------------------------------------
  // A score arriving after its record was flushed
  // ---------------------------------------------------------------------

  /** The record a score is folded into: the live one, or, when the
      question has no record any more, a new one opened at the time the
      score arrives. */
  function Rebased(m: map<Qid, WinnerRecord>, qid: Qid, now2: int): WinnerRecord
  {
    if qid in m then m[qid] else Fresh(now2)
  }

  /** A score whose record a flush removed while the oracle was working is
      not dropped: it reopens the record at its own arrival time, with its
      submitter as a winner, so that a later flush notifies that submitter
      again for the same question. */
  lemma LateScoreResurrects(m: map<Qid, WinnerRecord>, now: int, qid: Qid, s: Scored, now2: int)
    requires qid in ExpiredKeys(m, now)
    requires s.score >= 0
    ensures qid !in Survivors(m, now)
    ensures Fold(Rebased(Survivors(m, now), qid, now2), s) == WinnerRecord([s.uid], s.score, now2)
  {
  }
}
