/** How long the published revocation list stays fresh when every step of every run takes
    time. Models `revocation_snapshot_needs_refresh`, `refresh_revocation_snapshot` and the
    scheduled handler of src/lib.rs over the histories of RevocationPublication. */
module RevocationFreshness {
  import opened Prelude
  import opened Wire
  import opened TrustMaterial
  import opened RevocationMaterial
  import opened RevocationMessage
  import opened RevocationStore
  import opened RevocationPublication

  /** One step of any run, and when it happens. */
  datatype Event = Event(at: nat, action: Action)

  function Actions(events: seq<Event>): seq<Action> {
    seq(|events|, i requires 0 <= i < |events| => events[i].action)
  }

  ghost function History(s: State, events: seq<Event>): State {
    Play(s, Actions(events))
  }

  ghost predicate Refreshed(s: State, run: nat) {
    run in s.runs && s.runs[run].kind == Refresh && s.runs[run].phase == Finished
  }

  /** The action by which a refresh ends well. */
  ghost predicate Finishes(s: State, action: Action) {
    action.Step? && !Refreshed(s, action.run) && Refreshed(Apply(s, action), action.run)
  }

  /** When the refresh began that was the last to end well. */
  ghost function LastRefresh(s: State, events: seq<Event>): Option<nat> {
    if events == [] then None
    else
      var front, last := events[..|events| - 1], events[|events| - 1];
      if Finishes(History(s, front), last.action) then
        Some(Apply(History(s, front), last.action).runs[last.action.run].clock)
      else LastRefresh(s, front)
  }

  ghost predicate FinishesAt(s: State, events: seq<Event>, i: nat)
    requires i < |events|
  {
    Finishes(History(s, events[..i]), events[i].action)
  }

  /** Time does not go back, and every refresh that ends well does so no later than 1,800
      seconds after the previous one of its kind began. */
  ghost predicate OnSchedule(s: State, events: seq<Event>) {
    && (forall i :: 0 < i < |events| ==> events[i - 1].at <= events[i].at)
    && (forall i :: 0 <= i < |events| && FinishesAt(s, events, i) && LastRefresh(s, events[..i]).Some? ==>
          events[i].at <= LastRefresh(s, events[..i]).value + REFRESH_WINDOW_SECONDS)
  }

  lemma HistoryGrows(s: State, events: seq<Event>, i: nat)
    requires i < |events|
    ensures History(s, events[..i + 1]) == Apply(History(s, events[..i]), events[i].action)
  {
    var longer := Actions(events[..i + 1]);
    assert longer[..|longer| - 1] == Actions(events[..i]);
  }

  /** From the end of the last refresh on, the current snapshot outlives its beginning by
      the refresh window, whatever other runs do in between. */
  lemma {:induction false} FreshSinceLastRefresh(s: State, events: seq<Event>)
    requires Initial(s)
    ensures Invariant(History(s, events))
    ensures LastRefresh(s, events).Some? ==> FreshFor(History(s, events).db, LastRefresh(s, events).value)
  {
    hide Invariant, Initial, Apply, Play, FreshFor, Numbered, Chained, Grows;
    InitialIsInvariant(s);
    EveryRunKeepsInvariant(s, Actions(events));
    if events != [] {
      var front, last := events[..|events| - 1], events[|events| - 1];
      FreshSinceLastRefresh(s, front);
      HistoryGrows(s, events, |front|);
      assert events[..|events|] == events;
      if Finishes(History(s, front), last.action) {
        RefreshedIsFresh(History(s, events), last.action.run);
      } else if LastRefresh(s, front).Some? {
        ApplyKeepsInvariant(History(s, front), last.action);
        InvariantHasChain(History(s, events));
        FreshnessGrows(History(s, front).db, History(s, events).db, LastRefresh(s, front).value);
      }
    }
  }

  lemma RefreshedIsFresh(s: State, run: nat)
    requires Invariant(s) && Refreshed(s, run)
    ensures FreshFor(s.db, s.runs[run].clock)
  {
    hide Consistent, FreshFor;
    assert RunConsistent(s.db, s.runs[run]);
  }

  /** Up to the next refresh that ends well, time stays within the window of the last. */
  lemma {:induction false} NextRefreshIsInTime(s: State, events: seq<Event>, i: nat, j: nat)
    requires OnSchedule(s, events) && i < j < |events| && FinishesAt(s, events, j)
    requires LastRefresh(s, events[..i + 1]).Some?
    ensures events[i + 1].at <= LastRefresh(s, events[..i + 1]).value + REFRESH_WINDOW_SECONDS
    decreases j - i
  {
    hide Finishes, History;
    if !FinishesAt(s, events, i + 1) {
      var longer := events[..i + 2];
      assert longer[..|longer| - 1] == events[..i + 1];
      assert LastRefresh(s, longer) == LastRefresh(s, events[..i + 1]);
      NextRefreshIsInTime(s, events, i + 1, j);
      assert events[i + 1].at <= events[i + 2].at;
    }
  }

  /** On schedule there is an unexpired current snapshot at every instant from the end of the
      first refresh until the end of the last, and for 1,800 seconds after the last began:
      from each event until the next one, whatever revokes and rebuilds are under way. */
  lemma NeverExpiresOnSchedule(s: State, events: seq<Event>, i: nat, instant: nat)
    requires Initial(s) && OnSchedule(s, events)
    requires i < |events| && LastRefresh(s, events[..i + 1]).Some?
    requires events[i].at <= instant && (i + 1 < |events| ==> instant <= events[i + 1].at)
    requires instant <= LastRefresh(s, events[..i + 1]).value + REFRESH_WINDOW_SECONDS
      || exists j :: i < j < |events| && FinishesAt(s, events, j)
    ensures var current := CurrentContent(History(s, events[..i + 1]).db);
      current.Some? && current.value.generatedAt < current.value.expiresAt && instant < current.value.expiresAt
  {
    hide Invariant, Initial, LastRefresh, Finishes, History;
    var past := events[..i + 1];
    if j :| i < j < |events| && FinishesAt(s, events, j) {
      NextRefreshIsInTime(s, events, i, j);
    }
    FreshSinceLastRefresh(s, past);
    InvariantHasChain(History(s, past));
    CurrentIsLatest(History(s, past).db);
  }

  // ----- One second later is too late -----

  /** A new list with the entries of a signable one is signable: widths do not depend on
      the numbers in the fields. */
  lemma RepeatIsSignable(content: RevocationContent, clock: nat)
    requires Signable(content)
    ensures Signable(NextContent(Some(content), clock, content.issuerKeyId, content.revocations))
  {
    var next := NextContent(Some(content), clock, content.issuerKeyId, content.revocations);
    HeadLength(content);
    HeadLength(next);
  }

  lemma HeadLength(content: RevocationContent)
    ensures |EncodeRevocationHead(content)| == |RevocationDomain()| + 36 + |content.issuerKeyId|
  {
    PutUintLength(4, content.formatVersion);
    PutUintLength(8, content.snapshotVersion);
    PutUintLength(8, content.generatedAt);
    PutUintLength(8, content.expiresAt);
    PutUintLength(4, |content.revocations|);
    PutTextLength(content.issuerKeyId);
  }

  /** Two ticks. The first comes one second before the current snapshot enters its refresh
      window and finds nothing to do; the second is committed at `commit`. */
  function LateRefresh(g: nat, tick: nat, commit: nat, key: Text): seq<Event> {
    FirstTick(g + 1_799, key) + SecondTick(tick, key) + [Event(commit, Step(2, key))]
  }

  function FirstTick(at: nat, key: Text): seq<Event> {
    [Event(at, Start(1, Refresh, at)), Event(at, Step(1, key))]
  }

  function SecondTick(at: nat, key: Text): seq<Event> {
    [Event(at, Start(2, Refresh, at)), Event(at, Step(2, key)), Event(at, Step(2, key)), Event(at, Step(2, key))]
  }

  /** The first tick finds the snapshot still good and ends at once. */
  lemma EarlyTickDoesNothing(s: State, key: Text)
    requires Initial(s) && Latest(s.db) in s.db.snapshots
    ensures var g := s.db.snapshots[Latest(s.db)].content.generatedAt;
      var n := Apply(Apply(s, Start(1, Refresh, g + 1_799)), Step(1, key));
      n == State(s.db, map[1 := Run(Refresh, g + 1_799, [], Finished)])
  {
    hide CertificatesConsistent, RowsConsistent, ListsTable, RevocationSuccessor, Signable;
    CurrentIsLatest(s.db);
  }

  /** A refresh that repeats the current list builds the next version. */
  lemma RepeatBuilds(t: Tables, run: Run, key: Text)
    requires Consistent(t) && Latest(t) in t.snapshots && run.kind == Refresh
    requires key == t.snapshots[Latest(t)].content.issuerKeyId
    ensures var current := t.snapshots[Latest(t)].content;
      && Build(t, run, Some(current), key).Built?
      && Build(t, run, Some(current), key).content.snapshotVersion == Latest(t) + 1
  {
    hide Consistent, Numbered, Chained, ListsTable, RevocationSuccessor, Signable, Listing;
    var current := t.snapshots[Latest(t)].content;
    ConsistentParts(t);
    LatestIsListing(t);
    StoredIsSignable(t, Latest(t));
    RepeatIsSignable(current, run.clock);
    RollbackIsUnreachable(t, run, current, key);
  }

  lemma LatestIsListing(t: Tables)
    requires Numbered(t) && ListsTable(t) && Latest(t) in t.snapshots
    ensures t.snapshots[Latest(t)].content.snapshotVersion == Latest(t)
    ensures t.snapshots[Latest(t)].content.revocations == Listing(t.revocations)
  {
  }

  /** The second tick's refresh, up to the commit. */
  lemma LateTickBuilds(s: State, clock: nat, key: Text)
    requires Invariant(s) && Latest(s.db) in s.db.snapshots && 2 !in s.runs
    requires s.db.snapshots[Latest(s.db)].content.expiresAt <= clock + REFRESH_WINDOW_SECONDS
    requires key == s.db.snapshots[Latest(s.db)].content.issuerKeyId
    ensures var n := Apply(Apply(Apply(Apply(s, Start(2, Refresh, clock)), Step(2, key)), Step(2, key)), Step(2, key));
      && n.db == s.db
      && 2 in n.runs && n.runs[2].phase.Built? && n.runs[2].kind == Refresh && n.runs[2].clock == clock
      && n.runs[2].phase.content.snapshotVersion == Latest(s.db) + 1
  {
    hide Invariant, Consistent, Numbered, Apply, Build, CurrentContent, Latest;
    var current := s.db.snapshots[Latest(s.db)].content;
    TablesOf(s);
    CurrentIsLatest(s.db);
    RepeatBuilds(s.db, Run(Refresh, clock, [], HasCurrent(Some(current))), key);
    var begun := Apply(s, Start(2, Refresh, clock));
    StartOfRefresh(s, 2, clock);
    StepOfRefresh(begun, 2, key);
    StepOfRefresh(Apply(begun, Step(2, key)), 2, key);
    StepOfRefresh(Apply(Apply(begun, Step(2, key)), Step(2, key)), 2, key);
  }

  lemma StartOfRefresh(s: State, id: nat, clock: nat)
    requires id !in s.runs
    ensures Apply(s, Start(id, Refresh, clock)) == s.(runs := s.runs[id := Run(Refresh, clock, [], Begun)])
  {
  }

  /** What each step of a refresh before its commit does. */
  lemma StepOfRefresh(s: State, id: nat, key: Text)
    requires id in s.runs && s.runs[id].kind == Refresh
    ensures s.runs[id].phase.Begun? && CurrentContent(s.db).Some? ==>
      CurrentContent(s.db).value.expiresAt <= s.runs[id].clock + REFRESH_WINDOW_SECONDS ==>
      Apply(s, Step(id, key)) == s.(runs := s.runs[id := s.runs[id].(phase := Admitted)])
    ensures s.runs[id].phase.Admitted? ==>
      Apply(s, Step(id, key)) == s.(runs := s.runs[id := s.runs[id].(phase := HasCurrent(CurrentContent(s.db)))])
    ensures s.runs[id].phase.HasCurrent? ==>
      Apply(s, Step(id, key)) == s.(runs := s.runs[id := s.runs[id].(
        phase := Build(s.db, s.runs[id], s.runs[id].phase.current, key))])
  {
    hide Build, Publish, CurrentContent;
  }

  lemma TablesOf(s: State)
    requires Invariant(s)
    ensures Consistent(s.db) && Numbered(s.db) && Chained(s.db) && ListsTable(s.db)
  {
  }

  /** The commit that follows ends the refresh well. */
  lemma LateTickCommits(s: State, key: Text)
    requires Invariant(s) && 2 in s.runs && s.runs[2].phase.Built? && s.runs[2].kind == Refresh
    requires s.runs[2].phase.content.snapshotVersion == Latest(s.db) + 1
    ensures Finishes(s, Step(2, key))
    ensures Apply(s, Step(2, key)).runs[2].clock == s.runs[2].clock
  {
    TablesOf(s);
    SaveCommitsOnNextVersion(s.db, s.runs[2].phase.content);
    hide Invariant, Consistent, Numbered, Chained, ListsTable;
  }

  lemma PlaysOneMore(s: State, events: seq<Event>, e: Event)
    ensures History(s, events + [e]) == Apply(History(s, events), e.action)
    ensures LastRefresh(s, events + [e]) == if Finishes(History(s, events), e.action)
              then Some(Apply(History(s, events), e.action).runs[e.action.run].clock) else LastRefresh(s, events)
  {
    hide Apply;
    var longer := events + [e];
    HistoryGrows(s, longer, |events|);
    assert longer[..|events|] == events && longer[..|longer|] == longer;
  }

  lemma RefreshedStays(s: State, action: Action, run: nat)
    requires Refreshed(s, run)
    ensures Refreshed(Apply(s, action), run)
  {
    hide Build, Publish, Admit, SuspensionBatch, CurrentContent;
  }

  lemma StartsEmpty(s: State)
    ensures History(s, []) == s && LastRefresh(s, []) == None
  {
  }

  lemma FirstTickEnds(s: State, key: Text)
    requires Initial(s) && Latest(s.db) in s.db.snapshots
    ensures var at := s.db.snapshots[Latest(s.db)].content.generatedAt + 1_799;
      && History(s, FirstTick(at, key)) == State(s.db, map[1 := Run(Refresh, at, [], Finished)])
      && LastRefresh(s, FirstTick(at, key)) == Some(at)
  {
    hide Initial, LastRefresh, History, Latest, Apply;
    var at := s.db.snapshots[Latest(s.db)].content.generatedAt + 1_799;
    var tick := FirstTick(at, key);
    EarlyTickDoesNothing(s, key);
    StartsEmpty(s);
    PlaysOneMore(s, [], tick[0]);
    PlaysOneMore(s, [tick[0]], tick[1]);
    assert [] + [tick[0]] == [tick[0]] && [tick[0]] + [tick[1]] == tick;
    BegunIsNotRefreshed(s, 1, at);
  }

  lemma BegunIsNotRefreshed(s: State, run: nat, clock: nat)
    requires Initial(s)
    ensures !Refreshed(Apply(s, Start(run, Refresh, clock)), run)
  {
  }

  /** Until its commit the second tick changes nothing, and no refresh ends. */
  lemma SecondTickWaits(s: State, past: seq<Event>, at: nat, key: Text)
    requires Invariant(History(s, past)) && 2 !in History(s, past).runs
    requires var t := History(s, past).db;
      && Latest(t) in t.snapshots
      && t.snapshots[Latest(t)].content.expiresAt <= at + REFRESH_WINDOW_SECONDS
      && key == t.snapshots[Latest(t)].content.issuerKeyId
    ensures var n := History(s, past + SecondTick(at, key));
      && n.db == History(s, past).db
      && 2 in n.runs && n.runs[2].phase.Built? && n.runs[2].kind == Refresh && n.runs[2].clock == at
      && n.runs[2].phase.content.snapshotVersion == Latest(n.db) + 1
    ensures LastRefresh(s, past + SecondTick(at, key)) == LastRefresh(s, past)
  {
    hide Apply, Invariant, LastRefresh, History, Latest;
    var e := SecondTick(at, key);
    LateTickBuilds(History(s, past), at, key);
    PlaysOneMore(s, past, e[0]);
    PlaysOneMore(s, past + [e[0]], e[1]);
    PlaysOneMore(s, past + [e[0]] + [e[1]], e[2]);
    PlaysOneMore(s, past + [e[0]] + [e[1]] + [e[2]], e[3]);
    assert past + [e[0]] + [e[1]] + [e[2]] + [e[3]] == past + e;
    if Refreshed(History(s, past + [e[0]] + [e[1]]), 2) {
      RefreshedStays(History(s, past + [e[0]] + [e[1]]), e[2].action, 2);
    }
    if Refreshed(History(s, past + [e[0]] + [e[1]] + [e[2]]), 2) {
      RefreshedStays(History(s, past + [e[0]] + [e[1]] + [e[2]]), e[3].action, 2);
    }
  }

  /** Regular ticks whose refreshes all end well are not enough. Both refreshes of this
      history do, from every consistent table with a current snapshot. Whenever the second
      tick comes, even 1,800 seconds after the first: if its refresh ends 1,801 seconds after
      the first began, or later, then at that instant the current snapshot has expired. */
  lemma LateRefreshLapses(s: State, tick: nat, commit: nat)
    requires Initial(s) && CurrentContent(s.db).Some?
    requires CurrentContent(s.db).value.generatedAt + 1_800 <= tick <= commit
    requires CurrentContent(s.db).value.generatedAt + 1_799 + 1_801 <= commit
    ensures var current := CurrentContent(s.db).value;
      var events := LateRefresh(current.generatedAt, tick, commit, current.issuerKeyId);
      && events[5].at == tick && events[6].at == commit
      && LastRefresh(s, events[..6]) == Some(events[0].at) && LastRefresh(s, events) == Some(tick)
      && CurrentContent(History(s, events[..6]).db) == Some(current) && current.expiresAt <= commit
      && !OnSchedule(s, events)
  {
    hide Apply, Invariant, LastRefresh, History, Consistent, Finishes, Latest;
    TablesBefore(s);
    var current := CurrentContent(s.db).value;
    var g, key := current.generatedAt, current.issuerKeyId;
    var first, second := FirstTick(g + 1_799, key), SecondTick(tick, key);
    var last := Event(commit, Step(2, key));
    FirstTickEnds(s, key);
    FreshSinceLastRefresh(s, first);
    SecondTickWaits(s, first, tick, key);
    FreshSinceLastRefresh(s, first + second);
    LateTickCommits(History(s, first + second), key);
    PlaysOneMore(s, first + second, last);
    assert LateRefresh(g, tick, commit, key)[..6] == first + second;
    assert FinishesAt(s, LateRefresh(g, tick, commit, key), 6);
  }

  lemma TablesBefore(s: State)
    requires Initial(s) && CurrentContent(s.db).Some?
    ensures Latest(s.db) in s.db.snapshots && CurrentContent(s.db) == Some(s.db.snapshots[Latest(s.db)].content)
    ensures var current := CurrentContent(s.db).value; current.expiresAt == current.generatedAt + 3_600
  {
    hide CertificatesConsistent, RowsConsistent, ListsTable;
    CurrentIsLatest(s.db);
  }
}
