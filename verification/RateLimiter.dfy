/** The sliding-window limiter on issue attempts. Models `record_certificate_issue_attempt`
    of src/store.rs: a prune and a conditional insert, which other runs may separate. */
module RateLimiter {
  import opened Prelude

  const WINDOW_SECONDS: nat := 3_600
  const RETENTION_SECONDS: nat := 86_400

  datatype Attempt = Attempt(account: Text, developer: Text, subjectKey: Text, at: int)

  /** What a limit counts by. */
  datatype Dimension = ByAccount(account: Text) | ByDeveloper(developer: Text) | BySubjectKey(subjectKey: Text)

  predicate Concerns(a: Attempt, d: Dimension) {
    match d
    case ByAccount(account) => a.account == account
    case ByDeveloper(developer) => a.developer == developer
    case BySubjectKey(subjectKey) => a.subjectKey == subjectKey
  }

  function Limit(d: Dimension): nat {
    match d
    case ByAccount(_) => 20
    case ByDeveloper(_) => 20
    case BySubjectKey(_) => 10
  }

  /** SELECT COUNT(*) ... WHERE created_at > since. */
  function Recent(attempts: seq<Attempt>, d: Dimension, since: int): nat {
    if attempts == [] then 0
    else
      var last := attempts[|attempts| - 1];
      Recent(attempts[..|attempts| - 1], d, since) + if Concerns(last, d) && last.at > since then 1 else 0
  }

  /** The attempts of this dimension that were made after `since`. */
  function Since(attempts: seq<Attempt>, d: Dimension, since: int): set<nat> {
    set i: nat | i < |attempts| && Matches(attempts[i], d) && since < attempts[i].at
  }

  /** Each attempt counts in three dimensions. */
  predicate Matches(a: Attempt, d: Dimension) {
    d == ByAccount(a.account) || d == ByDeveloper(a.developer) || d == BySubjectKey(a.subjectKey)
  }

  /** The count that the query answers is the number of those attempts. */
  lemma {:induction false} RecentCounts(attempts: seq<Attempt>, d: Dimension, since: int)
    ensures Recent(attempts, d, since) == |Since(attempts, d, since)|
  {
    if attempts != [] {
      RecentCounts(attempts[..|attempts| - 1], d, since);
      SinceGrows(attempts, d, since);
    }
  }

  lemma SinceGrows(attempts: seq<Attempt>, d: Dimension, since: int)
    requires attempts != []
    ensures var n := |attempts| - 1;
      var front := Since(attempts[..n], d, since);
      && n !in front
      && Since(attempts, d, since) == if Matches(attempts[n], d) && since < attempts[n].at then front + {n} else front
  {
    hide Matches;
  }

  predicate Admits(attempts: seq<Attempt>, a: Attempt) {
    && Recent(attempts, ByAccount(a.account), a.at - WINDOW_SECONDS) < 20
    && Recent(attempts, ByDeveloper(a.developer), a.at - WINDOW_SECONDS) < 20
    && Recent(attempts, BySubjectKey(a.subjectKey), a.at - WINDOW_SECONDS) < 10
  }

  function Kept(attempts: seq<Attempt>, now: int): seq<Attempt> {
    if attempts == [] then []
    else
      var last := attempts[|attempts| - 1];
      Kept(attempts[..|attempts| - 1], now) + if last.at > now - RETENTION_SECONDS then [last] else []
  }

  class Limiter {
    var attempts: seq<Attempt>

    method Prune(now: int)
      modifies this
      ensures attempts == Kept(old(attempts), now)
    {
      var kept := [];
      for i := 0 to |attempts|
        invariant attempts == old(attempts) && kept == Kept(attempts[..i], now)
      {
        assert attempts[..i + 1][..i] == attempts[..i];
        if attempts[i].at > now - RETENTION_SECONDS {
          kept := kept + [attempts[i]];
        }
      }
      assert attempts[..|attempts|] == attempts;
      attempts := kept;
    }

    method InsertIfAdmitted(a: Attempt) returns (accepted: bool)
      modifies this
      ensures accepted <==> forall d: Dimension :: Concerns(a, d) ==>
        Recent(old(attempts), d, a.at - WINDOW_SECONDS) < Limit(d)
      ensures accepted <==>
        && |Since(old(attempts), ByAccount(a.account), a.at - 3_600)| < 20
        && |Since(old(attempts), ByDeveloper(a.developer), a.at - 3_600)| < 20
        && |Since(old(attempts), BySubjectKey(a.subjectKey), a.at - 3_600)| < 10
      ensures attempts == if accepted then old(attempts) + [a] else old(attempts)
    {
      AdmissionIsByDimension(attempts, a);
      RecentCounts(attempts, ByAccount(a.account), a.at - 3_600);
      RecentCounts(attempts, ByDeveloper(a.developer), a.at - 3_600);
      RecentCounts(attempts, BySubjectKey(a.subjectKey), a.at - 3_600);
      accepted := Admits(attempts, a);
      if accepted {
        attempts := attempts + [a];
      }
    }

    /** The two statements run without interruption. */
    method RecordAttempt(a: Attempt) returns (accepted: bool)
      modifies this
      ensures accepted <==> forall d: Dimension :: Concerns(a, d) ==>
        Recent(old(attempts), d, a.at - WINDOW_SECONDS) < Limit(d)
      ensures attempts == Kept(old(attempts), a.at) + if accepted then [a] else []
    {
      var since := a.at - WINDOW_SECONDS;
      forall d: Dimension ensures Recent(Kept(attempts, a.at), d, since) == Recent(attempts, d, since) {
        PruningSparesWindow(attempts, a.at, d, since);
      }
      Prune(a.at);
      accepted := InsertIfAdmitted(a);
    }
  }

  lemma AdmissionIsByDimension(attempts: seq<Attempt>, a: Attempt)
    ensures Admits(attempts, a) <==>
      forall d: Dimension :: Concerns(a, d) ==> Recent(attempts, d, a.at - WINDOW_SECONDS) < Limit(d)
  {
    assert Concerns(a, ByAccount(a.account)) && Concerns(a, ByDeveloper(a.developer));
    assert Concerns(a, BySubjectKey(a.subjectKey));
  }

  lemma RecentOfAppend(attempts: seq<Attempt>, more: seq<Attempt>, d: Dimension, since: int)
    requires |more| <= 1
    ensures Recent(attempts + more, d, since)
         == Recent(attempts, d, since) + if |more| == 1 && Concerns(more[0], d) && more[0].at > since then 1 else 0
  {
    if more == [] {
      assert attempts + more == attempts;
    } else {
      assert (attempts + more)[..|attempts + more| - 1] == attempts;
    }
  }

  /** Pruning removes nothing that a count from `since` on would see. */
  lemma {:induction false} PruningSparesWindow(attempts: seq<Attempt>, now: int, d: Dimension, since: int)
    requires now - RETENTION_SECONDS <= since
    ensures Recent(Kept(attempts, now), d, since) == Recent(attempts, d, since)
  {
    if attempts != [] {
      var front, last := attempts[..|attempts| - 1], attempts[|attempts| - 1];
      PruningSparesWindow(front, now, d, since);
      RecentOfAppend(Kept(front, now), if last.at > now - RETENTION_SECONDS then [last] else [], d, since);
    }
  }

  // ----- Any interleaving of the two statements -----

  datatype Statement = Pruning(clock: int) | Insertion(attempt: Attempt)

  /** The table, and beside it every attempt ever accepted. */
  datatype State = State(table: seq<Attempt>, accepted: seq<Attempt>)

  function Clock(st: Statement): int {
    match st
    case Pruning(clock) => clock
    case Insertion(a) => a.at
  }

  function Perform(s: State, st: Statement): State {
    match st
    case Pruning(clock) => s.(table := Kept(s.table, clock))
    case Insertion(a) => if Admits(s.table, a) then State(s.table + [a], s.accepted + [a]) else s
  }

  function Play(statements: seq<Statement>): State {
    if statements == [] then State([], [])
    else Perform(Play(statements[..|statements| - 1]), statements[|statements| - 1])
  }

  /** No statement's clock is further behind an earlier one's than the lag. */
  ghost predicate LagBounded(statements: seq<Statement>, lag: nat) {
    forall i, j :: 0 <= i < j < |statements| ==> Clock(statements[i]) <= Clock(statements[j]) + lag
  }

  /** From `since` on, the table and the full history count alike. */
  ghost predicate CountsAlike(s: State, since: int) {
    forall d: Dimension :: Recent(s.table, d, since) == Recent(s.accepted, d, since)
  }

  lemma PerformKeepsAlike(s: State, st: Statement, since: int)
    requires CountsAlike(s, since) && (st.Pruning? ==> st.clock - RETENTION_SECONDS <= since)
    ensures CountsAlike(Perform(s, st), since)
  {
    forall d: Dimension ensures Recent(Perform(s, st).table, d, since) == Recent(Perform(s, st).accepted, d, since) {
      match st
      case Pruning(clock) => PruningSparesWindow(s.table, clock, d, since);
      case Insertion(a) =>
        RecentOfAppend(s.table, [a], d, since);
        RecentOfAppend(s.accepted, [a], d, since);
    }
  }

  lemma {:induction false} TableCountsAlike(statements: seq<Statement>, since: int)
    requires forall i :: 0 <= i < |statements| ==> Clock(statements[i]) - RETENTION_SECONDS <= since
    ensures CountsAlike(Play(statements), since)
  {
    if statements != [] {
      TableCountsAlike(statements[..|statements| - 1], since);
      PerformKeepsAlike(Play(statements[..|statements| - 1]), statements[|statements| - 1], since);
    }
  }

  /** With clocks at most 82,800 s apart the wrong way, every check on the pruned table has
      the result it would have on the full history. */
  lemma CheckSeesFullHistory(statements: seq<Statement>, i: nat)
    requires LagBounded(statements, 82_800) && i < |statements| && statements[i].Insertion?
    ensures var s := Play(statements[..i]);
      Admits(s.table, statements[i].attempt) <==> Admits(s.accepted, statements[i].attempt)
    ensures CountsAlike(Play(statements[..i]), statements[i].attempt.at - WINDOW_SECONDS)
  {
    TableCountsAlike(statements[..i], statements[i].attempt.at - WINDOW_SECONDS);
  }

  /** Attempts of the window (t - 3600, t]. */
  function InWindow(attempts: seq<Attempt>, d: Dimension, t: int): nat {
    if attempts == [] then 0
    else
      var last := attempts[|attempts| - 1];
      InWindow(attempts[..|attempts| - 1], d, t)
      + if Matches(last, d) && t - 3_600 < last.at <= t then 1 else 0
  }

  lemma {:induction false} WindowIsRecent(attempts: seq<Attempt>, d: Dimension, t: int, since: int)
    requires since <= t - WINDOW_SECONDS
    ensures InWindow(attempts, d, t) <= Recent(attempts, d, since)
  {
    if attempts != [] {
      WindowIsRecent(attempts[..|attempts| - 1], d, t, since);
    }
  }

  /** Every window of the accepted attempts is within its limit, even when clocks run out
      of order. */
  lemma {:induction false} WindowsAreLimited(statements: seq<Statement>, d: Dimension, t: int)
    requires LagBounded(statements, 82_800)
    ensures InWindow(Play(statements).accepted, d, t) <= match d
      case ByAccount(_) => 20
      case ByDeveloper(_) => 20
      case BySubjectKey(_) => 10
  {
    if statements != [] {
      var front, last := statements[..|statements| - 1], statements[|statements| - 1];
      WindowsAreLimited(front, d, t);
      var s := Play(front);
      if last.Insertion? && Admits(s.table, last.attempt) {
        var a := last.attempt;
        assert (s.accepted + [a])[..|s.accepted + [a]| - 1] == s.accepted;
        if Concerns(a, d) && t - WINDOW_SECONDS < a.at <= t {
          CheckSeesFullHistory(statements, |front|);
          AdmissionIsByDimension(s.accepted, a);
          WindowIsRecent(s.accepted, d, t, a.at - WINDOW_SECONDS);
        }
      }
    }
  }

  // ----- One second more of lag is too much -----

  function Burst(a: Attempt, n: nat): seq<Statement> {
    seq(n, _ => Insertion(a))
  }

  function Copies(a: Attempt, n: nat): seq<Attempt> {
    if n == 0 then [] else Copies(a, n - 1) + [a]
  }

  lemma {:induction false} CopiesCount(a: Attempt, n: nat, d: Dimension, at: int)
    ensures Recent(Copies(a, n), d, at) == if Concerns(a, d) && a.at > at then n else 0
    ensures InWindow(Copies(a, n), d, at) == if Matches(a, d) && at - 3_600 < a.at <= at then n else 0
  {
    hide Concerns, Matches;
    if n > 0 {
      CopiesCount(a, n - 1, d, at);
      assert Copies(a, n)[..|Copies(a, n)| - 1] == Copies(a, n - 1);
    }
  }

  lemma CopiesAdmit(a: Attempt, n: nat)
    requires n < 10
    ensures Admits(Copies(a, n), a)
  {
    hide Recent, Copies, InWindow;
    CopiesCount(a, n, ByAccount(a.account), a.at - WINDOW_SECONDS);
    CopiesCount(a, n, ByDeveloper(a.developer), a.at - WINDOW_SECONDS);
    CopiesCount(a, n, BySubjectKey(a.subjectKey), a.at - WINDOW_SECONDS);
  }

  lemma {:induction false} BurstIsAccepted(a: Attempt, n: nat)
    requires n <= 10
    ensures Play(Burst(a, n)) == State(Copies(a, n), Copies(a, n))
  {
    hide Admits;
    if n > 0 {
      BurstIsAccepted(a, n - 1);
      assert Burst(a, n)[..n - 1] == Burst(a, n - 1);
      CopiesAdmit(a, n - 1);
    }
  }

  function LateHistory(a: Attempt): seq<Statement> {
    Burst(a, 10) + [Pruning(86_400), Insertion(a.(at := 3_599))]
  }

  lemma LateHistoryPlays(a: Attempt)
    requires a.at == 0
    ensures Play(LateHistory(a)).accepted == Copies(a, 10) + [a.(at := 3_599)]
  {
    hide Copies, Burst, Kept;
    BurstIsAccepted(a, 10);
    BurstLength(a, 10);
    var burst, late := Burst(a, 10), a.(at := 3_599);
    var pruned := burst + [Pruning(86_400)];
    assert pruned[..10] == burst && LateHistory(a)[..11] == pruned;
    CopiesAreOld(a, 10);
    KeptDropsOld(Copies(a, 10), 86_400);
    assert Play(pruned) == State([], Copies(a, 10));
    assert Admits([], late);
  }

  lemma BurstLength(a: Attempt, n: nat)
    ensures |Burst(a, n)| == n && forall i :: 0 <= i < n ==> Clock(Burst(a, n)[i]) == a.at
  {
  }

  /** Ten attempts for a key at time 0, a prune at 86,400, and an eleventh at 3,599: the lag
      is 82,801, the eleventh is accepted, and its window holds eleven. */
  lemma LagBoundIsTight(a: Attempt)
    requires a.at == 0
    ensures LagBounded(LateHistory(a), 82_801)
    ensures InWindow(Play(LateHistory(a)).accepted, BySubjectKey(a.subjectKey), 3_599) == 11
          > Limit(BySubjectKey(a.subjectKey))
  {
    hide Copies, Play, Burst;
    BurstLength(a, 10);
    LateHistoryPlays(a);
    var accepted := Copies(a, 10) + [a.(at := 3_599)];
    assert accepted[..|accepted| - 1] == Copies(a, 10);
    CopiesCount(a, 10, BySubjectKey(a.subjectKey), 3_599);
  }

  lemma {:induction false} CopiesAreOld(a: Attempt, n: nat)
    ensures forall i :: 0 <= i < |Copies(a, n)| ==> Copies(a, n)[i].at == a.at
  {
    if n > 0 {
      CopiesAreOld(a, n - 1);
    }
  }

  lemma {:induction false} KeptDropsOld(attempts: seq<Attempt>, now: int)
    requires forall i :: 0 <= i < |attempts| ==> attempts[i].at <= now - RETENTION_SECONDS
    ensures Kept(attempts, now) == []
  {
    if attempts != [] {
      KeptDropsOld(attempts[..|attempts| - 1], now);
    }
  }
}
