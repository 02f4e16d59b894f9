/**
  Quiz sessions on mutable state: start, answer and finish, with the answers map in a cache that
  may expire at any time.
 */
module QuizSessions {

  import opened Basics
  import opened Wrappers
  import opened SeededShuffle
  import opened CivicQuiz

  datatype Session = Session(userId: Option<string>, totalQuestions: nat, isCompleted: bool, result: Score, duration: int)

  datatype Answer = Answer(session: string, question: string, isCorrect: bool)

  /** A row of the experience log written by `finishSession`. */
  datatype Credit = Credit(session: string, user: string, amount: nat)

  datatype Reply = NotFound | Graded(isCorrect: bool, correctIndex: int)

  // ---------- Views of the tables ----------

  /** The grades of a session, in the order of the answers. */
  function Grades(answers: seq<Answer>, session: string): seq<bool> {
    if answers == [] then []
    else
      var last, before := answers[|answers| - 1], Grades(answers[..|answers| - 1], session);
      if last.session == session then before + [last.isCorrect] else before
  }

  lemma GradesSnoc(answers: seq<Answer>, a: Answer, session: string)
    ensures Grades(answers + [a], session) ==
            if a.session == session then Grades(answers, session) + [a.isCorrect] else Grades(answers, session)
  {
    assert (answers + [a])[..|answers|] == answers;
  }

  function Credited(credits: seq<Credit>, user: string): nat {
    if credits == [] then 0
    else
      var last := credits[|credits| - 1];
      Credited(credits[..|credits| - 1], user) + if last.user == user then last.amount else 0
  }

  lemma CreditedSnoc(credits: seq<Credit>, c: Credit, user: string)
    ensures Credited(credits + [c], user) == Credited(credits, user) + if c.user == user then c.amount else 0
  {
    assert (credits + [c])[..|credits|] == credits;
  }

  // ---------- Levels ----------

  /** The ids of one level: `skip` and `take` on the ids in order. */
  function LevelOf(ids: seq<string>, level: nat, count: nat): seq<string>
    requires level >= 1
  {
    Page(ids, level, count)
  }

  /** Every available level is full and has no question twice. */
  lemma LevelsAreFull(ids: seq<string>, level: nat, count: nat)
    requires count > 0 && 1 <= level <= |ids| / count && Distinct(ids)
    ensures |LevelOf(ids, level, count)| == count
    ensures Distinct(LevelOf(ids, level, count))
    ensures forall id | id in LevelOf(ids, level, count) :: id in ids
  {
    PageBounds(level, count);
    MoreIsMore(level, |ids| / count, count);
  }

  /** No id is in two levels. */
  lemma LevelsAreDisjoint(ids: seq<string>, a: nat, b: nat, count: nat)
    requires 1 <= a < b && Distinct(ids)
    ensures forall id | id in LevelOf(ids, a, count) :: id !in LevelOf(ids, b, count)
  {
    PageBounds(a, count);
    PageBounds(b, count);
    MoreIsMore(a, b - 1, count);
  }

  // ---------- The choice of questions ----------

  /** `Math.floor(total / count)`, the number of full levels; negative counts give none. */
  function MaxLevels(total: nat, count: int): int
    requires count != 0
  {
    if count > 0 then total / count else -((total - count - 1) / -count)
  }

  /** The length of `slice(0, count)`: a negative count leaves out that many at the end. */
  function SliceLength(total: nat, count: int): nat {
    if count >= 0 then Min(count, total) else Max(total + count, 0)
  }

  /** Why a session is refused: a level that does not exist, or too few questions. */
  predicate IsRefused(total: nat, count: int, levelNumber: int)
    requires count != 0
  {
    if levelNumber > 0 then levelNumber > MaxLevels(total, count) else total < count
  }

  /** A level is full or refused; otherwise a negative count opens a session on all questions save the last ones. */
  lemma WhatIsSelected(total: nat, count: int, levelNumber: int)
    requires count != 0 && !IsRefused(total, count, levelNumber)
    ensures levelNumber > 0 ==> count > 0 && levelNumber <= total / count
    ensures count > 0 && levelNumber <= 0 ==> SliceLength(total, count) == count
    ensures count < 0 ==> levelNumber <= 0 && SliceLength(total, count) == if total > -count then total + count else 0
  {
    if count < 0 {
      assert (total - count - 1) / -count >= 0;
    }
  }

  lemma LevelFits(total: nat, count: nat, level: nat)
    requires count > 0
    ensures level <= total / count <==> level * count <= total
  {
    var n := total / count;
    assert total == n * count + total % count;
    if level <= n {
      MoreIsMore(level, n, count);
    } else {
      MoreIsMore(n + 1, level, count);
    }
  }

  /** Refused: a level that goes beyond the questions, any level of a negative size, or too few questions. */
  lemma RefusedExactly(total: nat, count: int, levelNumber: int)
    requires count != 0
    ensures IsRefused(total, count, levelNumber) <==>
            if levelNumber > 0 then count < 0 || levelNumber * count > total else total < count
  {
    if levelNumber > 0 && count > 0 {
      LevelFits(total, count, levelNumber);
    } else if count < 0 {
      assert (total - count - 1) / -count >= 0;
    }
  }

  /** A level is the slice of that number. */
  lemma LevelSlice(ids: seq<string>, level: nat, count: nat)
    requires level >= 1 && level * count <= |ids|
    ensures 0 <= (level - 1) * count <= level * count
    ensures LevelOf(ids, level, count) == ids[(level - 1) * count..level * count]
  {
    PageIsSlice(ids, level, count);
  }

  lemma SliceFits(total: nat, count: int)
    requires count <= total
    ensures SliceLength(total, count) <= total
  {
  }

  // ---------- The service ----------

  /** Two answers of a session are to different questions. */
  ghost predicate OncePerQuestion(answers: seq<Answer>) {
    forall i, j | 0 <= i < j < |answers| ::
      answers[i].session != answers[j].session || answers[i].question != answers[j].question
  }

  /** A finished session carries the score of its answers. */
  ghost predicate Scored(sessions: map<string, Session>, answers: seq<Answer>) {
    && (forall a | a in answers :: a.session in sessions)
    && (forall s | s in sessions && sessions[s].isCompleted :: IsScoreOf(sessions[s].result, Grades(answers, s)))
  }

  /** A finished session of a known user is paid once, and balances are what was paid. */
  ghost predicate PaidOnce(sessions: map<string, Session>, credits: seq<Credit>, xp: map<string, nat>) {
    && (forall c | c in credits ::
          c.session in sessions && sessions[c.session].isCompleted && sessions[c.session].userId == Some(c.user)
          && c.amount == sessions[c.session].result.xpEarned > 0)
    && (forall i, j | 0 <= i < j < |credits| :: credits[i].session != credits[j].session)
    && (forall s | s in sessions && sessions[s].isCompleted && sessions[s].userId.Some? && sessions[s].result.xpEarned > 0 ::
          Credit(s, sessions[s].userId.value, sessions[s].result.xpEarned) in credits)
    && (forall u :: (if u in xp then xp[u] else 0) == Credited(credits, u))
  }

  /** Every entry of an answers map belongs to a version of the question shown in that session. */
  ghost predicate MapsMatch(questions: map<string, Question>, shown: map<string, map<string, Question>>,
                            maps: map<string, map<string, Meta>>)
  {
    forall s, q | s in maps && q in maps[s] :: EntryMatches(questions, shown, maps, s, q)
  }

  ghost predicate EntryMatches(questions: map<string, Question>, shown: map<string, map<string, Question>>,
                               maps: map<string, map<string, Meta>>, s: string, q: string)
    requires s in maps && q in maps[s]
  {
    && s in shown && q in shown[s] && q in questions
    && Shows(shown[s][q], questions[q]) && maps[s][q] == MetaOf(shown[s][q])
  }

  /** Every session has shown as many questions as it counts. */
  ghost predicate ShownAgree(sessions: map<string, Session>, shown: map<string, map<string, Question>>) {
    forall s | s in sessions :: s in shown && |shown[s]| == sessions[s].totalQuestions
  }

  // ---------- How much a session can score ----------

  /** The questions answered in a session. */
  function Answered(answers: seq<Answer>, session: string): set<string> {
    set a | a in answers && a.session == session :: a.question
  }

  lemma AnsweredSnoc(answers: seq<Answer>, a: Answer, session: string)
    ensures Answered(answers + [a], session) ==
            Answered(answers, session) + if a.session == session then {a.question} else {}
  {
    assert forall b :: b in answers + [a] <==> b in answers || b == a;
  }

  lemma LastIsNew(answers: seq<Answer>, a: Answer, session: string)
    requires OncePerQuestion(answers + [a])
    ensures OncePerQuestion(answers) && (a.session == session ==> a.question !in Answered(answers, session))
  {
    var all := answers + [a];
    assert all[|answers|] == a;
    assert forall i | 0 <= i < |answers| :: all[i] == answers[i];
  }

  /** A session has a grade for each question answered in it. */
  lemma {:induction false} OneGradeAQuestion(answers: seq<Answer>, session: string)
    requires OncePerQuestion(answers)
    ensures |Grades(answers, session)| == |Answered(answers, session)|
  {
    if answers == [] {
      assert Answered(answers, session) == {};
    } else {
      hide OncePerQuestion, Grades, Answered;
      var before, last := answers[..|answers| - 1], answers[|answers| - 1];
      assert answers == before + [last];
      LastIsNew(before, last, session);
      AnsweredSnoc(before, last, session);
      GradesSnoc(before, last, session);
      OneGradeAQuestion(before, session);
    }
  }

  lemma {:induction false} TrueAtMost(bits: seq<bool>)
    ensures CountTrue(bits) <= |bits|
  {
    if bits != [] {
      TrueAtMost(bits[..|bits| - 1]);
    }
  }

  /**
    A score is at most the number of questions shown plus the number of other questions answered;
    so it is within the total if only questions that the session has shown are answered.
   */
  lemma ScoreWithinTotal(answers: seq<Answer>, session: string, shownHere: map<string, Question>)
    requires OncePerQuestion(answers)
    ensures CountTrue(Grades(answers, session)) <= |shownHere| + |Answered(answers, session) - shownHere.Keys|
    ensures Answered(answers, session) <= shownHere.Keys ==> CountTrue(Grades(answers, session)) <= |shownHere|
  {
    hide Grades, CountTrue;
    OneGradeAQuestion(answers, session);
    TrueAtMost(Grades(answers, session));
    var all := Answered(answers, session);
    SubsetSize(all, shownHere.Keys + (all - shownHere.Keys));
    assert |shownHere.Keys + (all - shownHere.Keys)| == |shownHere.Keys| + |all - shownHere.Keys|;
    if all <= shownHere.Keys {
      SubsetSize(all, shownHere.Keys);
    }
  }

  /** The questions answered right in a session. */
  function RightlyAnswered(answers: seq<Answer>, session: string): set<string> {
    set a | a in answers && a.session == session && a.isCorrect :: a.question
  }

  lemma RightlyAnsweredSnoc(answers: seq<Answer>, a: Answer, session: string)
    ensures RightlyAnswered(answers + [a], session) ==
            RightlyAnswered(answers, session) + if a.session == session && a.isCorrect then {a.question} else {}
    ensures RightlyAnswered(answers, session) <= Answered(answers, session)
  {
    assert forall b :: b in answers + [a] <==> b in answers || b == a;
  }

  /** The score of a session is the number of questions that were answered right in it. */
  lemma {:induction false} RightAnswers(answers: seq<Answer>, session: string)
    requires OncePerQuestion(answers)
    ensures CountTrue(Grades(answers, session)) == |RightlyAnswered(answers, session)|
  {
    if answers == [] {
      assert RightlyAnswered(answers, session) == {};
    } else {
      hide OncePerQuestion, Grades, CountTrue, Answered, RightlyAnswered;
      var before, last := answers[..|answers| - 1], answers[|answers| - 1];
      assert answers == before + [last];
      LastIsNew(before, last, session);
      GradesSnoc(before, last, session);
      CountTrueSnoc(Grades(before, session), last.isCorrect);
      RightAnswers(before, session);
      RightlyAnsweredSnoc(before, last, session);
    }
  }

  lemma CountTrueSnoc(bits: seq<bool>, b: bool)
    ensures CountTrue(bits + [b]) == CountTrue(bits) + if b then 1 else 0
  {
    assert (bits + [b])[..|bits|] == bits;
  }

  lemma ScoreColumns(r: Score, answers: seq<Answer>, session: string, shownHere: map<string, Question>)
    requires IsScoreOf(r, Grades(answers, session)) && OncePerQuestion(answers)
    ensures r.xpEarned == 10 * r.score + if r.streakMax >= 5 then 15 else if r.streakMax >= 3 then 10 else 0
    ensures Answered(answers, session) <= shownHere.Keys ==> r.score <= |shownHere|
  {
    hide Grades, IsLongestStreak, CountTrue;
    ScoreWithinTotal(answers, session, shownHere);
  }

  // ---------- What each step keeps ----------

  lemma OpeningKeepsScores(sessions: map<string, Session>, answers: seq<Answer>, id: string, row: Session)
    requires Scored(sessions, answers) && id !in sessions && !row.isCompleted
    ensures Scored(sessions[id := row], answers)
  {
  }

  lemma OpeningKeepsPayments(sessions: map<string, Session>, credits: seq<Credit>, xp: map<string, nat>,
                             id: string, row: Session)
    requires PaidOnce(sessions, credits, xp) && id !in sessions && !row.isCompleted
    ensures PaidOnce(sessions[id := row], credits, xp)
  {
  }

  lemma OpeningKeepsMaps(questions: map<string, Question>, shown: map<string, map<string, Question>>,
                         maps: map<string, map<string, Meta>>,
                         id: string, entries: map<string, Meta>, shownHere: map<string, Question>)
    requires MapsMatch(questions, shown, maps) && EntriesMatch(questions, shownHere, entries)
    ensures MapsMatch(questions, shown[id := shownHere], maps[id := entries])
  {
    hide Shows, MetaOf;
    var shown', maps' := shown[id := shownHere], maps[id := entries];
    forall s, q | s in maps' && q in maps'[s] ensures EntryMatches(questions, shown', maps', s, q) {
      if s != id {
        assert EntryMatches(questions, shown, maps, s, q);
      }
    }
  }

  lemma ExpiryKeepsMaps(questions: map<string, Question>, shown: map<string, map<string, Question>>,
                        maps: map<string, map<string, Meta>>, session: string)
    requires MapsMatch(questions, shown, maps)
    ensures MapsMatch(questions, shown, maps - {session})
  {
    hide Shows, MetaOf;
    var maps' := maps - {session};
    forall s, q | s in maps' && q in maps'[s] ensures EntryMatches(questions, shown, maps', s, q) {
      assert EntryMatches(questions, shown, maps, s, q);
    }
  }

  lemma FinishingKeepsScores(sessions: map<string, Session>, answers: seq<Answer>, id: string, done: Session)
    requires Scored(sessions, answers) && id in sessions && IsScoreOf(done.result, Grades(answers, id))
    ensures Scored(sessions[id := done], answers)
  {
    hide IsScoreOf, Grades;
  }

  /** A first answer to a question, in a session that runs. */
  lemma RecordingKeeps(sessions: map<string, Session>, answers: seq<Answer>, a: Answer)
    requires OncePerQuestion(answers) && Scored(sessions, answers)
    requires a.session in sessions && !sessions[a.session].isCompleted
    requires forall b | b in answers :: b.session != a.session || b.question != a.question
    ensures OncePerQuestion(answers + [a]) && Scored(sessions, answers + [a])
  {
    hide IsScoreOf, Grades;
    forall s ensures s != a.session ==> Grades(answers + [a], s) == Grades(answers, s) {
      GradesSnoc(answers, a, s);
    }
  }

  /** The experience log after a finished session: a known user is credited a positive amount. */
  function CreditsAfter(credits: seq<Credit>, id: string, done: Session): seq<Credit> {
    if done.userId.Some? && done.result.xpEarned > 0
    then credits + [Credit(id, done.userId.value, done.result.xpEarned)] else credits
  }

  function XpAfter(xp: map<string, nat>, done: Session): map<string, nat> {
    if done.userId.Some? && done.result.xpEarned > 0
    then xp[done.userId.value := (if done.userId.value in xp then xp[done.userId.value] else 0) + done.result.xpEarned]
    else xp
  }

  lemma PaidColumns(credits: seq<Credit>, xp: map<string, nat>, id: string, done: Session)
    ensures done.userId.Some? && done.result.xpEarned > 0 ==>
              var u, n := done.userId.value, done.result.xpEarned;
              && CreditsAfter(credits, id, done) == credits + [Credit(id, u, n)]
              && XpAfter(xp, done) == xp[u := n + if u in xp then xp[u] else 0]
    ensures !(done.userId.Some? && done.result.xpEarned > 0) ==>
              CreditsAfter(credits, id, done) == credits && XpAfter(xp, done) == xp
  {
  }

  lemma FinishingPays(sessions: map<string, Session>, credits: seq<Credit>, xp: map<string, nat>,
                      id: string, done: Session)
    requires PaidOnce(sessions, credits, xp)
    requires id in sessions && !sessions[id].isCompleted && sessions[id].userId == done.userId && done.isCompleted
    ensures PaidOnce(sessions[id := done], CreditsAfter(credits, id, done), XpAfter(xp, done))
  {
    hide Credited;
    var after := CreditsAfter(credits, id, done);
    assert forall c | c in credits :: c.session != id;
    if after != credits {
      var u, n := done.userId.value, done.result.xpEarned;
      assert forall c :: c in after <==> c in credits || c == Credit(id, u, n);
      forall v ensures Credited(after, v) == Credited(credits, v) + if v == u then n else 0 {
        CreditedSnoc(credits, Credit(id, u, n), v);
      }
    }
  }

  /** The entries of one answers map, against the questions as shown. */
  ghost predicate EntriesMatch(questions: map<string, Question>, shownHere: map<string, Question>,
                               entries: map<string, Meta>)
  {
    forall q | q in entries ::
      q in shownHere && q in questions && Shows(shownHere[q], questions[q]) && entries[q] == MetaOf(shownHere[q])
  }

  /** What has been prepared for the questions `ids`: how they are shown, and the entries of the map. */
  ghost predicate Prepared(questions: map<string, Question>, ids: seq<string>, display: seq<Question>,
                           entries: map<string, Meta>, shownHere: map<string, Question>)
  {
    && Ids(display) == ids
    && (forall q | q in display :: q.id in shownHere && shownHere[q.id] == q)
    && (forall q | q in display :: q.id in questions && Shows(q, questions[q.id]))
    && EntriesMatch(questions, shownHere, entries)
    && (forall id | id in ids :: id in entries)
    && shownHere.Keys == Elements(ids)
  }

  lemma NothingPrepared(questions: map<string, Question>)
    ensures Prepared(questions, [], [], map[], map[])
  {
  }

  lemma PreparedSnoc(questions: map<string, Question>, ids: seq<string>, display: seq<Question>,
                     entries: map<string, Meta>, shownHere: map<string, Question>, q: Question)
    requires Prepared(questions, ids, display, entries, shownHere)
    requires q.id !in ids && q.id in questions && Shows(q, questions[q.id])
    ensures Prepared(questions, ids + [q.id], display + [q], entries[q.id := MetaOf(q)], shownHere[q.id := q])
  {
    hide Shows, MetaOf, EntriesMatch, Ids;
    IdsSnoc(display, q);
    EntryAdded(questions, shownHere, entries, q);
    forall p | p in display ensures p.id != q.id {
      IdOfShown(display, p);
    }
  }

  /** Shuffle the questions and the choices of each, and note where the right choice went. */
  method Prepare(questions: map<string, Question>, selected: seq<string>,
                 random: nat -> real, choiceRandom: string -> nat -> real)
    returns (display: seq<Question>, entries: map<string, Meta>, ghost shownHere: map<string, Question>)
    requires forall q | q in selected :: q in questions && questions[q].id == q
    requires Distinct(selected)
    requires IsRandom(random) && forall q :: IsRandom(choiceRandom(q))
    ensures multiset(Ids(display)) == multiset(selected)
    ensures forall q | q in display :: q.id in shownHere && shownHere[q.id] == q
    ensures forall q | q in display :: q.id in questions && Shows(q, questions[q.id])
    ensures EntriesMatch(questions, shownHere, entries)
    ensures forall q | q in selected :: q in entries
    ensures |shownHere| == |selected|
  {
    hide Drawn, PicksOf, Shows, MetaOf, EntriesMatch, Ids, Prepared;
    var randomized := ShuffleArray(selected, random);
    SameMembers(selected, randomized);
    DistinctPermutation(selected, randomized);
    NothingPrepared(questions);
    display, entries, shownHere := [], map[], map[];
    for i := 0 to |randomized|
      invariant Prepared(questions, randomized[..i], display, entries, shownHere)
    {
      var question := questions[randomized[i]];
      var q := ShuffleChoices(question, choiceRandom(question.id));
      ShownId(q, question);
      PreparedSnoc(questions, randomized[..i], display, entries, shownHere, q);
      assert randomized[..i] + [q.id] == randomized[..i + 1];
      display := display + [q];
      entries := entries[q.id := MetaOf(q)];
      shownHere := shownHere[q.id := q];
    }
    assert randomized[..|randomized|] == randomized;
    PreparedAll(questions, randomized, display, entries, shownHere);
  }

  lemma PreparedAll(questions: map<string, Question>, ids: seq<string>, display: seq<Question>,
                    entries: map<string, Meta>, shownHere: map<string, Question>)
    requires Prepared(questions, ids, display, entries, shownHere) && Distinct(ids)
    ensures Ids(display) == ids && EntriesMatch(questions, shownHere, entries) && |shownHere| == |ids|
    ensures forall q | q in display :: q.id in shownHere && shownHere[q.id] == q
    ensures forall q | q in display :: q.id in questions && Shows(q, questions[q.id])
    ensures forall id | id in ids :: id in entries
  {
    hide Shows, EntriesMatch, Ids;
    DistinctSize(ids);
  }

  lemma FirstOfPermutation(s: seq<string>, t: seq<string>, n: nat)
    requires Distinct(s) && multiset(s) == multiset(t) && n <= |s|
    ensures n <= |t| && Distinct(t[..n]) && forall x | x in t[..n] :: x in s
  {
    assert |multiset(t)| == |multiset(s)|;
    DistinctPermutation(s, t);
    forall x | x in t[..n] ensures x in s {
      assert x in multiset(t);
    }
  }

  lemma EntryAdded(questions: map<string, Question>, shownHere: map<string, Question>, entries: map<string, Meta>,
                   q: Question)
    requires EntriesMatch(questions, shownHere, entries) && q.id in questions && Shows(q, questions[q.id])
    ensures EntriesMatch(questions, shownHere[q.id := q], entries[q.id := MetaOf(q)])
  {
  }

  lemma ShownId(shown: Question, q: Question)
    requires Shows(shown, q)
    ensures shown.id == q.id
  {
  }

  lemma {:induction false} IdOfShown(display: seq<Question>, q: Question)
    requires q in display
    ensures q.id in Ids(display)
  {
    var before := display[..|display| - 1];
    if q in before {
      IdOfShown(before, q);
    }
  }

  lemma IdsSnoc(display: seq<Question>, q: Question)
    ensures Ids(display + [q]) == Ids(display) + [q.id]
  {
    assert (display + [q])[..|display|] == display;
  }

  class QuizService {
    const questions: map<string, Question>
    var sessions: map<string, Session>
    var answers: seq<Answer>
    var answersMaps: map<string, map<string, Meta>>
    var credits: seq<Credit>
    var xp: map<string, nat>
    ghost var shown: map<string, map<string, Question>>

    ghost predicate Valid()
      reads this
    {
      && OncePerQuestion(answers)
      && Scored(sessions, answers)
      && PaidOnce(sessions, credits, xp)
      && MapsMatch(questions, shown, answersMaps)
      && ShownAgree(sessions, shown)
    }

    constructor (questions: map<string, Question>)
      ensures Valid() && this.questions == questions && sessions == map[] && answers == [] && credits == [] && xp == map[]
    {
      this.questions := questions;
      sessions, answers, answersMaps, credits, xp, shown := map[], [], map[], [], map[], map[];
    }

    /** The choice of questions: a level by number, or the first of a scrambled list. */
    method Select(matching: seq<string>, scrambled: seq<string>, questionCount: int, levelNumber: int)
      returns (selected: Option<seq<string>>)
      requires questionCount != 0
      requires multiset(scrambled) == multiset(matching)
      requires Distinct(matching)
      ensures selected == None <==> IsRefused(|matching|, questionCount, levelNumber)
      ensures selected.Some? ==>
                && |selected.value| == (if levelNumber > 0 then questionCount else SliceLength(|matching|, questionCount))
                && Distinct(selected.value)
                && (forall id | id in selected.value :: id in matching)
                && (if levelNumber > 0
                    then
                      var from, to := (levelNumber - 1) * questionCount, levelNumber * questionCount;
                      0 <= from <= to <= |matching| && selected.value == matching[from..to]
                    else |selected.value| <= |scrambled| && selected.value == scrambled[..|selected.value|])
    {
      hide LevelOf, SliceLength, MaxLevels;
      var maxLevels := MaxLevels(|matching|, questionCount);
      if levelNumber > 0 {
        if levelNumber > maxLevels {
          return None;
        }
        WhatIsSelected(|matching|, questionCount, levelNumber);
        LevelsAreFull(matching, levelNumber, questionCount);
        LevelFits(|matching|, questionCount, levelNumber);
        LevelSlice(matching, levelNumber, questionCount);
        selected := Some(LevelOf(matching, levelNumber, questionCount));
      } else {
        if |matching| < questionCount {
          return None;
        }
        SliceFits(|matching|, questionCount);
        FirstOfPermutation(matching, scrambled, SliceLength(|matching|, questionCount));
        selected := Some(scrambled[..SliceLength(|matching|, questionCount)]);
      }
    }

    /** `startSession`; an absent or zero count stands for ten, as the request handler has it. */
    method StartSession(id: string, userId: Option<string>, matching: seq<string>, scrambled: seq<string>,
                        requested: int, levelNumber: int, random: nat -> real, choiceRandom: string -> nat -> real)
      returns (display: Option<seq<Question>>)
      requires Valid() && id !in sessions
      requires forall q | q in matching :: q in questions && questions[q].id == q
      requires Distinct(matching) && multiset(scrambled) == multiset(matching)
      requires IsRandom(random) && forall q :: IsRandom(choiceRandom(q))
      modifies this
      ensures Valid()
      ensures display == None <==>
                var count := if requested == 0 then 10 else requested;
                if levelNumber > 0 then count < 0 || levelNumber * count > |matching| else |matching| < count
      ensures display == None ==> sessions == old(sessions) && answersMaps == old(answersMaps)
      ensures answers == old(answers) && credits == old(credits) && xp == old(xp)
      ensures display.Some? ==>
                var count := if requested == 0 then 10 else requested;
                var n := if count > 0 then count else if |matching| + count > 0 then |matching| + count else 0;
                && |display.value| == n && Distinct(Ids(display.value))
                && (if levelNumber > 0
                    then
                      var from, to := (levelNumber - 1) * count, levelNumber * count;
                      0 <= from <= to <= |matching| && multiset(Ids(display.value)) == multiset(matching[from..to])
                    else n <= |scrambled| && multiset(Ids(display.value)) == multiset(scrambled[..n]))
                && (forall q | q in display.value :: q.id in questions && Shows(q, questions[q.id]))
                && sessions == old(sessions)[id := Session(userId, n, false, Score(0, 0, 0), 0)]
                && id in shown && (forall q | q in display.value :: q.id in shown[id] && shown[id][q.id] == q)
                && id in answersMaps && (forall q | q in display.value :: q.id in answersMaps[id])
    {
      hide OncePerQuestion, Scored, PaidOnce, MapsMatch, ShownAgree, Shows, IsRandom, IsRefused, SliceLength;
      var questionCount := OrDefault(requested, 10);
      RefusedExactly(|matching|, questionCount, levelNumber);
      if !IsRefused(|matching|, questionCount, levelNumber) {
        WhatIsSelected(|matching|, questionCount, levelNumber);
      }
      var selected := Select(matching, scrambled, questionCount, levelNumber);
      if selected == None {
        return None;
      }
      var questionsShown := OpenSession(id, userId, selected.value, random, choiceRandom);
      DistinctPermutation(selected.value, Ids(questionsShown));
      forall q | q in questionsShown ensures q.id in answersMaps[id] {
        IdOfShown(questionsShown, q);
        assert q.id in multiset(Ids(questionsShown));
      }
      display := Some(questionsShown);
    }

    /** `startSession` after the choice of questions: shuffle them, shuffle their choices, keep the map. */
    method OpenSession(id: string, userId: Option<string>, selected: seq<string>,
                       random: nat -> real, choiceRandom: string -> nat -> real)
      returns (display: seq<Question>)
      requires Valid() && id !in sessions
      requires forall q | q in selected :: q in questions && questions[q].id == q
      requires Distinct(selected)
      requires IsRandom(random) && forall q :: IsRandom(choiceRandom(q))
      modifies this
      ensures Valid()
      ensures |display| == |selected|
      ensures id in shown && forall q | q in display :: q.id in shown[id] && shown[id][q.id] == q
      ensures multiset(Ids(display)) == multiset(selected)
      ensures forall q | q in display :: q.id in questions && Shows(q, questions[q.id])
      ensures sessions == old(sessions)[id := Session(userId, |selected|, false, Score(0, 0, 0), 0)]
      ensures id in answersMaps && forall q | q in selected :: q in answersMaps[id]
      ensures answers == old(answers) && credits == old(credits) && xp == old(xp)
    {
      hide Grades, Credited, MapsMatch, PaidOnce, Scored, Shows, OncePerQuestion, IsRandom, EntriesMatch, Ids;
      var map';
      ghost var shownHere;
      display, map', shownHere := Prepare(questions, selected, random, choiceRandom);
      assert |Ids(display)| == |selected| by {
        assert |multiset(Ids(display))| == |multiset(selected)|;
      }
      var row := Session(userId, |display|, false, Score(0, 0, 0), 0);
      OpeningKeepsScores(sessions, answers, id, row);
      OpeningKeepsPayments(sessions, credits, xp, id, row);
      OpeningKeepsMaps(questions, shown, answersMaps, id, map', shownHere);
      sessions := sessions[id := row];
      answersMaps := answersMaps[id := map'];
      shown := shown[id := shownHere];
    }

    /** `answerSessionQuestion` */
    method AnswerQuestion(fold: string -> string, session: string, question: string,
                          index: Option<int>, text: Option<string>) returns (reply: Reply)
      requires Valid()
      modifies this`answers
      ensures Valid()
      ensures reply == NotFound <==>
                session !in sessions || (!sessions[session].isCompleted && question !in questions)
      ensures session in sessions && sessions[session].isCompleted ==>
                answers == old(answers) &&
                reply == Graded(false, if question in questions then questions[question].answerIndex else 0)
      // a running session: graded against the entry of the map, or against the stored question
      ensures session in sessions && !sessions[session].isCompleted && question in questions ==>
                var q := questions[question];
                var kept := session in answersMaps && question in answersMaps[session];
                var right := if kept then answersMaps[session][question].correctChoice
                             else if 0 <= q.answerIndex < |q.choices| then q.choices[q.answerIndex] else "";
                && reply.Graded?
                && reply.correctIndex == (if kept then answersMaps[session][question].answerIndex else q.answerIndex)
                && (0 <= q.answerIndex < |q.choices| ==> right == q.choices[q.answerIndex])
                && ((exists a :: a in old(answers) && a.session == session && a.question == question) ==>
                      answers == old(answers) && Answer(session, question, reply.isCorrect) in answers)
                && ((forall a | a in old(answers) :: a.session != session || a.question != question) ==>
                      && answers == old(answers) + [Answer(session, question, reply.isCorrect)]
                      && (reply.isCorrect <==>
                          || index == Some(reply.correctIndex)
                          || (text.Some? && right != "" && fold(text.value) == fold(right))))
      ensures reply == NotFound ==> answers == old(answers)
      ensures ByPosition(session, question, index, text) && !sessions[session].isCompleted
              && (forall a | a in old(answers) :: a.session != session || a.question != question) ==>
                (reply.Graded? && reply.isCorrect <==>
                 shown[session][question].choices[index.value] == CorrectText(questions[question]))
    {
      hide Scored, OncePerQuestion, PaidOnce, ShownAgree, FirstAnswer, CorrectOnce, Shows;
      if session !in sessions {
        return NotFound;
      }
      if sessions[session].isCompleted {
        return Graded(false, if question in questions then questions[question].answerIndex else 0);
      }
      if question !in questions {
        return NotFound;
      }
      var expected := Expected(session, question);
      ExpectedText(session, question);
      FirstAnswerFinds(answers, session, question);
      var existing := FirstAnswer(answers, session, question);
      if existing.Some? {
        return Graded(existing.value, expected.answerIndex);
      }
      var isCorrect := IsCorrect(fold, expected, index, text);
      RecordingKeeps(sessions, answers, Answer(session, question, isCorrect));
      answers := answers + [Answer(session, question, isCorrect)];
      if ByPosition(session, question, index, text) {
        GradingCommutesWithShuffling(fold, questions[question], shown[session][question]);
      }
      reply := Graded(isCorrect, expected.answerIndex);
    }

    /** A position that was shown, in a session whose map is still there, to a question with one right choice. */
    ghost predicate ByPosition(session: string, question: string, index: Option<int>, text: Option<string>)
      reads this
    {
      && session in sessions && session in answersMaps && question in answersMaps[session]
      && session in shown && question in shown[session] && question in questions
      && InRange(questions[question]) && CorrectOnce(questions[question])
      && text == None && index.Some? && 0 <= index.value < |shown[session][question].choices|
    }

    /** The entry of the answers map, or the stored question when there is none. */
    function Expected(session: string, question: string): Meta
      requires question in questions
      reads this`answersMaps
    {
      if session in answersMaps && question in answersMaps[session] then answersMaps[session][question]
      else MetaOf(questions[question])
    }

    /** With the map or without it, the text that counts is that of the right choice. */
    lemma ExpectedText(session: string, question: string)
      requires Valid() && question in questions
      ensures InRange(questions[question]) ==> Expected(session, question).correctChoice == CorrectText(questions[question])
    {
      if session in answersMaps && question in answersMaps[session] {
        assert EntryMatches(questions, shown, answersMaps, session, question);
      }
    }

    /** `finishSession`: scored and paid the first time, left alone afterwards. */
    method FinishSession(session: string, duration: int) returns (found: bool)
      requires Valid()
      modifies this`sessions, this`credits, this`xp
      ensures Valid()
      ensures found == (session in old(sessions))
      ensures !found || old(sessions)[session].isCompleted ==>
                sessions == old(sessions) && credits == old(credits) && xp == old(xp)
      ensures found && !old(sessions)[session].isCompleted ==>
                var was := old(sessions)[session];
                && session in sessions
                && IsScoreOf(sessions[session].result, Grades(answers, session))
                && sessions == old(sessions)[session := was.(isCompleted := true, result := sessions[session].result,
                                                             duration := duration)]
                && xp == XpAfter(old(xp), sessions[session])
                && credits == old(credits) +
                   (if was.userId.Some? && sessions[session].result.xpEarned > 0
                    then [Credit(session, was.userId.value, sessions[session].result.xpEarned)] else [])
                && var r := sessions[session].result;
                && r.xpEarned == 10 * r.score + (if r.streakMax >= 5 then 15 else if r.streakMax >= 3 then 10 else 0)
                && (Answered(answers, session) <= shown[session].Keys ==>
                      sessions[session].result.score <= was.totalQuestions)
    {
      if session !in sessions {
        return false;
      }
      found := true;
      if sessions[session].isCompleted {
        return;
      }
      hide OncePerQuestion, Scored, PaidOnce, MapsMatch, Grades, IsScoreOf, Answered, XpAfter;
      Settle(session, duration);
      ScoreColumns(sessions[session].result, answers, session, shown[session]);
    }

    /** Score, close and pay a running session. */
    method Settle(session: string, duration: int)
      requires session in sessions && !sessions[session].isCompleted
      requires Scored(sessions, answers) && PaidOnce(sessions, credits, xp)
      modifies this`sessions, this`credits, this`xp
      ensures Scored(sessions, answers) && PaidOnce(sessions, credits, xp)
      ensures var was := old(sessions)[session];
              && session in sessions
              && IsScoreOf(sessions[session].result, Grades(answers, session))
              && sessions == old(sessions)[session := was.(isCompleted := true, result := sessions[session].result,
                                                           duration := duration)]
              && xp == XpAfter(old(xp), sessions[session])
              && credits == old(credits) +
                 if was.userId.Some? && sessions[session].result.xpEarned > 0
                 then [Credit(session, was.userId.value, sessions[session].result.xpEarned)] else []
    {
      hide Grades, IsScoreOf, Scored, PaidOnce, CreditsAfter, XpAfter;
      var row := sessions[session];
      var result := ComputeScore(Grades(answers, session));
      var done := row.(isCompleted := true, result := result, duration := duration);
      FinishingKeepsScores(sessions, answers, session, done);
      FinishingPays(sessions, credits, xp, session, done);
      PaidColumns(credits, xp, session, done);
      sessions := sessions[session := done];
      if row.userId.Some? && result.xpEarned > 0 {
        var user := row.userId.value;
        xp := xp[user := (if user in xp then xp[user] else 0) + result.xpEarned];
        credits := credits + [Credit(session, user, result.xpEarned)];
      }
    }

    /** The end of the lifetime of an answers map. */
    method ExpireMap(session: string)
      requires Valid()
      modifies this`answersMaps
      ensures Valid() && answersMaps == old(answersMaps) - {session}
    {
      hide MapsMatch;
      ExpiryKeepsMaps(questions, shown, answersMaps, session);
      answersMaps := answersMaps - {session};
    }
  }

  // ---------- A score beyond the total ----------

  const ONE := Question("1", ["yes"], 0)
  const TWO := Question("2", ["yes"], 0)

  lemma TwoGrades(a: Answer, b: Answer)
    requires a.session == b.session && a.isCorrect && b.isCorrect
    ensures var grades := Grades([a] + [b], a.session); |grades| == 2 && CountTrue(grades) == 2
  {
    hide Grades;
    NoGrades(a.session);
    GradesSnoc([], a, a.session);
    GradesSnoc([a], b, a.session);
    assert [] + [a] == [a];
    assert [true, true][..1] == [true] && [true][..0] == [];
  }

  lemma NoGrades(session: string)
    ensures Grades([], session) == []
  {
  }

  lemma NotAnswered(answers: seq<Answer>, session: string, question: string)
    requires forall a | a in answers :: a.question != question
    ensures FirstAnswer(answers, session, question) == None
  {
    FirstAnswerFinds(answers, session, question);
  }

  /** The only choice is right, however the question is shown, and whether it is shown or not. */
  lemma OnlyChoiceIsRight(service: QuizService, fold: string -> string, session: string, q: string)
    requires service.Valid() && q in service.questions
    requires service.questions[q].choices == ["yes"] && service.questions[q].answerIndex == 0
    ensures IsCorrect(fold, service.Expected(session, q), None, Some("yes"))
  {
    hide OncePerQuestion, Scored, PaidOnce, ShownAgree;
  }

  /** A session of one question, of two that are stored. */
  method OpenWithOne(random: nat -> real, choiceRandom: string -> nat -> real) returns (service: QuizService)
    requires IsRandom(random) && forall q :: IsRandom(choiceRandom(q))
    ensures fresh(service) && service.Valid() && service.questions == map["1" := ONE, "2" := TWO]
    ensures service.sessions == map["s" := Session(Some("u"), 1, false, Score(0, 0, 0), 0)]
    ensures service.answers == [] && service.xp == map[]
  {
    hide QuizService.Valid, IsRandom, Shows;
    service := new QuizService(map["1" := ONE, "2" := TWO]);
    var display := service.StartSession("s", Some("u"), ["1"], ["1"], 1, 0, random, choiceRandom);
    assert display.Some?;
  }

  /** Both questions are answered, the one that was not shown as well. */
  method AnswerBoth(service: QuizService, fold: string -> string)
    requires service.Valid() && service.questions == map["1" := ONE, "2" := TWO] && service.answers == []
    requires "s" in service.sessions && !service.sessions["s"].isCompleted
    modifies service`answers
    ensures service.Valid() && service.answers == [Answer("s", "1", true)] + [Answer("s", "2", true)]
  {
    hide QuizService.Valid, QuizService.Expected, QuizService.ByPosition, IsCorrect, FirstAnswer, CorrectText;
    var one, two := Answer("s", "1", true), Answer("s", "2", true);
    OnlyChoiceIsRight(service, fold, "s", "1");
    NotAnswered([], "s", "1");
    var first := service.AnswerQuestion(fold, "s", "1", None, Some("yes"));
    assert service.answers == [one];
    OnlyChoiceIsRight(service, fold, "s", "2");
    NotAnswered([one], "s", "2");
    var second := service.AnswerQuestion(fold, "s", "2", None, Some("yes"));
  }

  /**
    A session of one question: the other question, never shown, is answered as well, and the
    session scores two of one and is paid for both.
   */
  method ScoreBeyondTotal(fold: string -> string, random: nat -> real, choiceRandom: string -> nat -> real)
    returns (service: QuizService)
    requires IsRandom(random) && forall q :: IsRandom(choiceRandom(q))
    ensures fresh(service) && service.Valid()
    ensures "s" in service.sessions && service.sessions["s"].isCompleted
    ensures service.sessions["s"].totalQuestions == 1 && service.sessions["s"].result.score == 2
    ensures service.xp == map["u" := 20]
  {
    hide QuizService.Valid, Grades, CountTrue, IsLongestStreak, Answered, IsRandom;
    service := OpenWithOne(random, choiceRandom);
    AnswerBoth(service, fold);
    TwoGrades(Answer("s", "1", true), Answer("s", "2", true));
    var _ := service.FinishSession("s", 60);
    StreakOfTwo(service.sessions["s"].result, Grades(service.answers, "s"));
  }

  /** Two answers are too few for a bonus. */
  lemma StreakOfTwo(r: Score, bits: seq<bool>)
    requires IsScoreOf(r, bits) && |bits| == 2
    ensures r.xpEarned == 10 * r.score
  {
    ScoreBounds(r, r, bits);
  }

  function Ids(display: seq<Question>): (ids: seq<string>)
    ensures |ids| == |display|
  {
    if display == [] then [] else Ids(display[..|display| - 1]) + [display[|display| - 1].id]
  }

  /** The grade of the first answer to a question in a session. */
  function FirstAnswer(answers: seq<Answer>, session: string, question: string): Option<bool> {
    if answers == [] then None
    else
      var before := FirstAnswer(answers[..|answers| - 1], session, question);
      var last := answers[|answers| - 1];
      if before.Some? then before
      else if last.session == session && last.question == question then Some(last.isCorrect) else None
  }

  lemma {:induction false} FirstAnswerFinds(answers: seq<Answer>, session: string, question: string)
    ensures FirstAnswer(answers, session, question) == None <==>
            forall a | a in answers :: a.session != session || a.question != question
    ensures FirstAnswer(answers, session, question).Some? ==>
              Answer(session, question, FirstAnswer(answers, session, question).value) in answers
  {
    if answers != [] {
      var before, last := answers[..|answers| - 1], answers[|answers| - 1];
      FirstAnswerFinds(before, session, question);
      assert forall a :: a in answers <==> a in before || a == last;
    }
  }
}
