# qgame round engine in Dafny

This project models the round engine of the qgame trivia server (`app.js`).
The server keeps two pieces of in-memory state:

- `currentQuestion`: the question now on offer, with its id, text and publication time.
- `winnersMap`: one winner record per open question. A record holds the winners so far, the best score so far and the time it was opened.

Three operations change that state:

- **publish** (`getQuestion`): takes the question the question service returned. If it has an id and a text, the question becomes current and gets a fresh record. Otherwise nothing changes.
- **submit** (`/submitanswer`): rejects a submission with a missing field, then one whose question has no record or whose 60-second window has closed. It then asks the scoring service for a score and folds that score into the record with the max/tie rule.
- **flush** (`sendWinners`): visits every record. For each one that is 60 seconds old or older, it sends one "you won" notification per listed winner and deletes the record.

The modules are:

- `RoundRules` (`round_rules.dfy`): the rules as pure definitions over values, with the lemmas about them. This covers the fold rule, the fold of a whole score history, the answer window, which records a flush keeps and removes, and which notifications it sends.
- `RoundEngine` (`round_engine.dfy`): the class `Round`, holding `currentQuestion` and `winnersMap` as mutable fields. Its methods carry out publish, the two halves of submit and flush, in place. Each is proved against the `RoundRules` definitions. A ghost field records, for each live question, the scores folded into its record. The class invariant `Valid()` says every record is exactly the fold of that history.
- `RoundScenarios` (`round_scenarios.dfy`): client code that replays concrete timelines on a `Round`. The timelines cover ties, a better score, the window edge, missing fields, a malformed question, zero scores, a late score and a re-published question. It also shows that a second flush at the same instant sends nothing.

Modelling choices:

- Time is an integer number of milliseconds passed in by the caller. The window check `(now - time) / 1000 < 60` becomes `now - time < 60000`, which is equivalent for integer milliseconds.
- The scoring and question services are inputs. Publish takes the fetched question, and the second half of submit takes the score.
- The submit handler is split at its `await`:
  - `CheckSubmission` validates at arrival time `now` and changes nothing. It returns either a rejection with its reason or the scoring request to make.
  - `ApplyScore` folds the returned score at a later time `now2`. A flush may have run in between.
- Request fields and question fields are `Option<string>`. A field counts as given only when it is a non-empty string, which is how the source tests them for truthiness.
- The order in which `for...in` visits the records is left open. `SendWinners` picks any unvisited key, and it returns the order it used together with the notifications in sending order.

Where the intended behaviour of a round and the code differ, the model follows the code:

- **Late scores reopen flushed records.** A score that arrives after its record was flushed is meant to be dropped. The code instead re-creates the missing record with the current time (app.js:70-72) and folds the score into it. A later flush therefore notifies that submitter a second time for the same question. `LateScoreResurrects` and `ScenarioLateScoreRenotifies` state this.
- **Re-publishing resets a live record.** Each record is meant to be read exactly once, by the flush that deletes it. But publishing an id whose record is still open overwrites that record with a fresh one (app.js:128). The scores folded so far are discarded, and their submitters are never notified for that question. `GetQuestion` states the overwrite and `ScenarioRepublishResets` shows the lost notification.
- **Zero scores.** A zero score is meant to win at most as the first submission for a question. In the code the record starts with `maxScore` 0 and ties are tested with `===`. So while the best score is 0, every distinct submitter scoring 0 is added as a winner (`ScenarioZeroScores`). Consequently the rule "winners non-empty only if maxScore > 0" does not hold for the code. What does hold is `FoldAllFromFresh`: the winners are exactly the distinct submitters whose score equals the best score seen, or 0 if no score was positive.

## Model

| member | source | states |
|---|---|---|
| RoundRules.Fold | app.js:75-82 | A strictly better score makes maxScore that score and the winners exactly [uid]. An equal score leaves the record unchanged when uid is already listed, and otherwise keeps the old winners as a prefix and adds uid. A lower score leaves the record unchanged. maxScore becomes the max of old and new, the time is kept, and a duplicate-free winner list stays duplicate-free. |
| RoundRules.FoldAll | app.js:69-82 | Folding any history of scores keeps the record's time and never lowers its maxScore. |
| RoundRules.FoldAllSnoc | app.js:69-82 | The fold of a history extended by one score is the fold of that score into the fold of the history (arrival order is fold order). |
| RoundRules.MaxSeen | app.js:71 | The best score of a history is at least the initial 0, bounds every score in it, and is either 0 or reached by some score. |
| RoundRules.ScorersSnoc | app.js:78-81 | One more score adds its submitter to the scorers of value m exactly when it scored m. |
| RoundRules.FoldAllFromFresh | app.js:75-82 | From a fresh record, after any history of folds, maxScore is the best score seen (or 0). The winners are exactly the distinct submitters who scored it, listed without duplicates. No assumption on the sign of scores is needed. |
| RoundRules.ConsistentUpdate | app.js:69-82 | Replacing one record by the fold of its extended history keeps every record equal to the fold of its own history. |
| RoundRules.ConsistentRestrict | app.js:95-108 | Keeping only the unexpired records, with their histories, keeps that invariant. |
| RoundRules.FoldAllMaxMonotone | app.js:75-77 | maxScore never decreases: every prefix of a history leaves a best score no larger than the whole history does. |
| RoundRules.FoldOrderIrrelevant | app.js:69-82 | Two histories with the same scores in a different arrival order give the same maxScore and the same set of winners. |
| RoundRules.WindowOpenIffSurvives | app.js:136-143 | A submission is accepted at `now` exactly for the questions a flush at `now` keeps, whose records it keeps unchanged. Every other known question is one that flush removes. |
| RoundRules.WindowStaysClosed | app.js:136-143 | A window closed at one instant is closed at every later instant while the record is unchanged. |
| RoundRules.FlushBounds | app.js:95-109 | Before a flush visits anything it has kept every record and flushed none. After it has visited everything, the kept records are the survivors and the flushed ones the expired ones. |
| RoundRules.FlushStep | app.js:96-108 | Visiting one question moves it from kept to flushed exactly when its record is 60 s old or older, and otherwise changes neither. |
| RoundRules.FlushIdempotent | app.js:95-109 | A second flush at the same instant finds nothing expired and keeps every record. |
| RoundRules.Announce | app.js:103-105 | One notification per entry of the winners, in list order, each addressed to that winner for that question. |
| RoundRules.EmptyOrder | app.js:95-109 | A visiting order with no elements is the empty order; used for a flush that finds nothing expired. |
| RoundRules.SingleOrder | app.js:95-109 | The only duplicate-free order whose elements are {q} is [q]; used for a flush with one expired record. |
| RoundRules.FlushSingle | app.js:95-109 | Flushing a state holding one expired record flushes just that record, sends exactly its winners' notifications in list order, and keeps nothing. |
| RoundRules.NotesForSnoc | app.js:99-108 | The notifications for an order extended by q are those for the order followed by q's announcements. |
| RoundRules.AnnounceCount | app.js:103-105 | The notifications for one record name that record's question only, each as often as the winner is listed. |
| RoundRules.MapCount | app.js:103-105 | A winner listed k times in a record receives k notifications for that question. |
| RoundRules.NotesForCount | app.js:95-108 | Flushing distinct records sends each (participant, question) pair as many notifications as the participant appears among that record's winners. Questions not flushed get none. |
| RoundRules.EachWinnerNotifiedOnce | app.js:95-108 | With duplicate-free winner lists, each winner of each flushed record gets exactly one notification and nobody else gets any. A record with no winners is removed silently. |
| RoundRules.FlushNotifiesEachWinnerOnce | app.js:95-109 | A flush visiting exactly the expired records, in any order, notifies each winner of each expired record exactly once and no one else. |
| RoundRules.LateScoreResurrects | app.js:69-72 | A score whose record an earlier flush removed is not dropped. It reopens the record at its own arrival time with its submitter as the sole winner. |
| RoundRules.Fresh | app.js:71 | The record a question starts with: no winners, maxScore 0, opened at the given time (also app.js:128). |
| RoundRules.IsWindowOpen | app.js:136-143 | checkAnswerValidity: the question has a record and fewer than 60 000 ms have passed since the record's time. |
| RoundRules.ExpiredKeys | app.js:96-99 | The questions a flush at `now` finds 60 s old or older. They and the survivors split the map's keys with no overlap. |
| RoundRules.Survivors | app.js:96-99 | The records a flush at `now` keeps: a sub-map of the old map, with every record unchanged and its window still open. |
| RoundRules.NotesFor | app.js:95-108 | The notifications sent when the records in `order` are flushed in that order. Each names a flushed question and one of its record's winners. |
| RoundRules.Rebased | app.js:70-72 | The record a returned score is folded into: the live record, or a fresh one opened at the score's arrival time when the question has no record. |
| RoundEngine.Usable | app.js:117 | A fetched question is published only when it exists and has a non-empty id and a non-empty text. |
| RoundEngine.Complete | app.js:60 | A submission passes the field check only when uid, qid and answer are all non-empty. |
| RoundEngine.Round.RecordsAreFolds | app.js:15-17 | For every live record, maxScore is the best score folded into it and the winners are exactly the distinct submitters who reached it, without duplicates. |
| RoundEngine.Round.constructor | app.js:14-17 | Start-up state: an empty current question and no records. |
| RoundEngine.Round.GetQuestion | app.js:115-131 | Given a question with an id and a text, it becomes current, stamped with `now`, and its record is reset to fresh (even a live one) with an empty score history, while all others are kept. Given a missing question, id or text, nothing changes. The invariant is kept. |
| RoundEngine.Round.CheckSubmission | app.js:58-67 | Rejected for missing fields exactly when uid, qid or answer is missing. Rejected as out of window exactly when the fields are present but the window is closed or the question unknown. Accepted exactly otherwise, with the scoring request for those fields. The state never changes. |
| RoundEngine.Round.ApplyScore | app.js:69-82 | The question's record becomes the fold of the score into the live record, or into a fresh record opened at `now2` if it was flushed. Every other record and the current question are unchanged, and the invariant is kept. |
| RoundEngine.Round.SendWinners | app.js:92-110 | The records left are exactly those younger than 60 s, unchanged. The flushed questions are exactly the expired ones, each once. The score histories are kept for exactly the surviving records. The notifications sent are those winners' notifications in flush order. The current question is unchanged and the invariant is kept. |
| RoundEngine.Round.FlushIfExpired | app.js:96-108 | If the record is 60 s old or older, its winners are notified in order and it is deleted. Otherwise nothing changes and nothing is sent. |
| RoundEngine.NotifyWinners | app.js:103-105 | Sends exactly one notification per listed winner, in list order. |
| RoundScenarios.FlushTwice | app.js:92-110 | The first flush removes and announces the expired records. The second flush at the same instant sends nothing and keeps the survivors. |
| RoundScenarios.Opened | app.js:115-131 | Publishing question "1" at 0 into a fresh server makes it current with a fresh record. |
| RoundScenarios.Answer | app.js:58-82 | A complete submission inside the window is accepted, and its score is folded into the record. |
| RoundScenarios.FlushOnly | app.js:95-109 | Flushing the only record once it expired announces its winners in order and leaves no records. |
| RoundScenarios.ScenarioTie | app.js:78-81 | Two equal best scores: both submitters are notified, in submission order. |
| RoundScenarios.ScenarioBetterScoreWins | app.js:75-77 | A strictly better later score replaces the earlier winner. |
| RoundScenarios.ScenarioWindowEdge | app.js:136-143 | A submission 59.999 s after publication is accepted. One at exactly 60 s or later is rejected as out of window, even though no flush has run. |
| RoundScenarios.ScenarioMissingField | app.js:60-62 | An empty answer is rejected for missing fields. |
| RoundScenarios.ScenarioBadQuestion | app.js:117-120 | A question without text leaves the previous question current and opens no record. |
| RoundScenarios.ScenarioZeroScores | app.js:78-81 | While the best score is 0, every distinct zero scorer becomes a winner, a repeated one is listed once, and each is notified. |
| RoundScenarios.ScenarioRepublishResets | app.js:128 | Re-publishing question "1" while alice's winning score is still open discards her record, so the later flush notifies nobody. |
| RoundScenarios.ScenarioLateScoreRenotifies | app.js:69-72 | A score arriving after its record was flushed reopens the record, so its submitter is notified a second time for the same question. |

## Left out

- Express routing, body parsing and the HTTP status codes and JSON bodies (app.js:1-23, 48-51, 84-86, 156-158) are transport. Only the accept/reject outcome and its reason are modelled. The `GET /question` handler only reads `currentQuestion`.
- socket.io connections, rooms and `emit` (app.js:28-42, 104) are I/O. A notification is a `(uid, qid)` value in an output sequence. Whether the winner has a connected socket, and so whether the event reaches anyone, is not modelled.
- The `setInterval` timers and the start-up call (app.js:145-153) are process wiring. Publish and flush are methods the caller invokes with an explicit time.
- The concurrency around `await qs_checkAnswer` is not modelled. Only its sequential effect is: validation at `now`, then the fold at `now2`, with any publish or flush possibly in between. The `await` in `getQuestion` is likewise folded into its input.
- `Date` objects and the floating-point division by 1000 are replaced by integer milliseconds.
- qservicemock.js, the stand-in scoring and question service, is not part of this model. Its results are inputs, as an optional question and an integer score.
- Logging (`console.log`, `console.error`) is not modelled.
- The `for...in` key order of JavaScript objects is not modelled. The model allows any visiting order and proves its results for every order.
- Ids are modelled as strings only. JavaScript object keys are strings, so a numeric question id becomes its string form as a key, and `includes` compares uids by value. Non-string uids and ids, and keys such as `__proto__`, are not modelled.
- Scores are integers. Non-integer, `NaN` and non-numeric scores from the scoring service are not modelled.
