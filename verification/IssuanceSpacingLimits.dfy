/** Why duplicate suppression needs both of its clock assumptions: one history meets only
    the first, another only the second, and both issue twice within 300 seconds. */
module IssuanceSpacingLimits {
  import opened Prelude
  import opened IssuanceStore
  import opened Issuance
  import opened IssuanceSpacing

  // ----- Histories in parts -----

  function Next(run: nat): Action {
    Step(run, true, "", "")
  }

  /** Up to the insert of a claim. */
  function Looking(run: nat, asked: Asked, clock: nat): seq<Action> {
    [Start(run, asked, clock), Next(run), Next(run)]
  }

  function Pruning(run: nat, asked: Asked, clock: nat): seq<Action> {
    [Start(run, asked, clock), Next(run)]
  }

  function Claiming(run: nat, asked: Asked, clock: nat): seq<Action> {
    Looking(run, asked, clock) + [Next(run)]
  }

  function Finishing(run: nat, request: Id, certificate: Id): seq<Action> {
    [Next(run), Step(run, true, request, certificate)]
  }

  function GivingUp(run: nat): seq<Action> {
    [Step(run, false, "", ""), Next(run)]
  }

  lemma {:induction false} PlayConcatenates(s: State, a: seq<Action>, b: seq<Action>)
    ensures Play(s, a + b) == Play(Play(s, a), b)
  {
    if b == [] {
      assert a + b == a;
    } else {
      PlayConcatenates(s, a, b[..|b| - 1]);
      assert (a + b)[..|a + b| - 1] == a + b[..|b| - 1];
    }
  }

  lemma PlayOne(s: State, a: Action)
    ensures Play(s, [a]) == Apply(s, a)
    ensures InOrder(s, a) ==> ClaimsInOrder(s, [a])
    ensures NotOutlived(s, a) ==> NoClaimOutlived(s, [a])
  {
    hide Apply;
    assert [a][..0] == [];
    assert Play(s, [a]) == Apply(Play(s, []), a);
  }

  /** Histories put together keep what both parts keep. */
  lemma Joins(s: State, a: seq<Action>, b: seq<Action>)
    ensures Play(s, a + b) == Play(Play(s, a), b)
    ensures ClaimsInOrder(s, a) && ClaimsInOrder(Play(s, a), b) ==> ClaimsInOrder(s, a + b)
    ensures NoClaimOutlived(s, a) && NoClaimOutlived(Play(s, a), b) ==> NoClaimOutlived(s, a + b)
  {
    hide Play, InOrder, NotOutlived;
    PlayConcatenates(s, a, b);
    forall i | 0 <= i < |a + b|
      ensures i < |a| ==> Play(s, (a + b)[..i]) == Play(s, a[..i]) && (a + b)[i] == a[i]
      ensures i >= |a| ==> Play(s, (a + b)[..i]) == Play(Play(s, a), b[..i - |a|]) && (a + b)[i] == b[i - |a|]
    {
      if i < |a| {
        assert (a + b)[..i] == a[..i];
      } else {
        assert (a + b)[..i] == a + b[..i - |a|];
        PlayConcatenates(s, a, b[..i - |a|]);
      }
    }
  }

  lemma JoinsOne(s: State, a: seq<Action>, b: Action)
    ensures Play(s, a + [b]) == Apply(Play(s, a), b)
    ensures ClaimsInOrder(s, a) && InOrder(Play(s, a), b) ==> ClaimsInOrder(s, a + [b])
    ensures NoClaimOutlived(s, a) && NotOutlived(Play(s, a), b) ==> NoClaimOutlived(s, a + [b])
  {
    hide Apply, Play, ClaimsInOrder, NoClaimOutlived, InOrder, NotOutlived;
    Joins(s, a, [b]);
    PlayOne(Play(s, a), b);
  }

  predicate NoneInFlight(s: State) {
    forall id :: id in s.runs ==> !InFlight(s.runs[id])
  }

  // ----- What each part does -----

  lemma Prunes(s: State, id: nat, asked: Asked, clock: nat)
    requires id !in s.runs
    ensures var n := Play(s, Pruning(id, asked, clock));
      && n.db == s.db.(claims := Pruned(s.db.claims, clock))
      && n.runs == s.runs[id := Run(asked, clock, None, HasPruned)]
      && n.lastClaim == Max(s.lastClaim, clock)
    ensures s.lastClaim <= clock ==> ClaimsInOrder(s, Pruning(id, asked, clock))
    ensures NoneInFlight(s) ==> NoClaimOutlived(s, Pruning(id, asked, clock))
  {
    PlayOne(s, Start(id, asked, clock));
    JoinsOne(s, [Start(id, asked, clock)], Next(id));
    assert [Start(id, asked, clock)] + [Next(id)] == Pruning(id, asked, clock);
  }

  lemma Looks(s: State, id: nat, asked: Asked, clock: nat)
    requires id !in s.runs && KeyOf(asked) !in Pruned(s.db.claims, clock)
    ensures var n := Play(s, Looking(id, asked, clock));
      && n.db == s.db.(claims := Pruned(s.db.claims, clock))
      && n.runs == s.runs[id := Run(asked, clock, None, NotFound)]
      && n.lastClaim == Max(s.lastClaim, clock)
    ensures s.lastClaim <= clock ==> ClaimsInOrder(s, Looking(id, asked, clock))
    ensures NoneInFlight(s) ==> NoClaimOutlived(s, Looking(id, asked, clock))
  {
    hide ClaimsInOrder, NoClaimOutlived, Play;
    Prunes(s, id, asked, clock);
    JoinsOne(s, Pruning(id, asked, clock), Next(id));
    assert Pruning(id, asked, clock) + [Next(id)] == Looking(id, asked, clock);
  }

  lemma Inserts(s: State, id: nat)
    requires id in s.runs && s.runs[id].phase.NotFound? && Insertable(s.db.claims, s.runs[id].asked)
    ensures var n, run := Play(s, [Next(id)]), s.runs[id];
      && n.db == s.db.(claims := s.db.claims[KeyOf(run.asked) := ClaimRow(run.asked.hash, Pending, run.clock)])
      && n.runs == s.runs[id := run.(phase := Holding)]
      && n.lastClaim == Max(s.lastClaim, run.clock)
    ensures s.lastClaim <= s.runs[id].clock ==> ClaimsInOrder(s, [Next(id)])
    ensures NoClaimOutlived(s, [Next(id)])
  {
    PlayOne(s, Next(id));
  }

  /** Where nothing is claimed any more, a run takes the claim. */
  lemma TakesTheClaim(s: State, id: nat, asked: Asked, clock: nat)
    requires id !in s.runs
    requires forall k :: k in s.db.claims ==> s.db.claims[k].updatedAt + CLAIM_SECONDS <= clock
    ensures var n := Play(s, Claiming(id, asked, clock));
      && n.db == s.db.(claims := map[KeyOf(asked) := ClaimRow(asked.hash, Pending, clock)])
      && n.runs == s.runs[id := Run(asked, clock, None, Holding)]
      && n.lastClaim == Max(s.lastClaim, clock)
    ensures s.lastClaim <= clock ==> ClaimsInOrder(s, Claiming(id, asked, clock))
    ensures NoneInFlight(s) ==> NoClaimOutlived(s, Claiming(id, asked, clock))
  {
    hide ClaimsInOrder, NoClaimOutlived, Play;
    assert Pruned(s.db.claims, clock) == map[];
    Looks(s, id, asked, clock);
    var n := Play(s, Looking(id, asked, clock));
    assert Insertable(n.db.claims, asked);
    Inserts(n, id);
    Joins(s, Looking(id, asked, clock), [Next(id)]);
  }

  lemma GivesUp(s: State, id: nat)
    requires id in s.runs && s.runs[id].phase.Holding?
    ensures var n := Play(s, GivingUp(id));
      && n.db == s.db.(claims := Released(s.db.claims, s.runs[id].asked))
      && n.runs == s.runs[id := s.runs[id].(phase := Ended(Refused))]
      && n.lastClaim == s.lastClaim
    ensures ClaimsInOrder(s, GivingUp(id))
  {
    hide Released, ClaimsInOrder, NoClaimOutlived, NotOutlived, Play;
    PlayOne(s, Step(id, false, "", ""));
    JoinsOne(s, [Step(id, false, "", "")], Next(id));
    assert [Step(id, false, "", "")] + [Next(id)] == GivingUp(id);
  }

  lemma Finishes(s: State, id: nat, request: Id, certificate: Id)
    requires id in s.runs && s.runs[id].phase.Holding?
    requires request !in s.db.requests && certificate !in s.db.certificates
    requires Eligible(s.db, s.runs[id].asked.developer, s.runs[id].asked.account)
    ensures var n, run := Play(s, Finishing(id, request, certificate)), s.runs[id];
      && n.db.requests == s.db.requests[request := RequestRow(run.asked, run.clock)]
      && n.db.certificates == s.db.certificates[certificate :=
           CertificateRow(request, run.asked.developer, s.db.nextSerial, run.clock)]
      && n.db.claims == Completion(s.db.claims, run.asked, certificate, run.clock)
      && n.db.developers == s.db.developers && n.db.members == s.db.members
      && n.runs == s.runs[id := Run(run.asked, run.clock, Some(s.db.nextSerial), Issued(certificate))]
      && n.lastClaim == s.lastClaim
    ensures ClaimsInOrder(s, Finishing(id, request, certificate))
    ensures NoClaimOutlived(s, Finishing(id, request, certificate))
  {
    hide Completion, ClaimsInOrder, NoClaimOutlived, Eligible;
    PlayOne(s, Next(id));
    JoinsOne(s, [Next(id)], Step(id, true, request, certificate));
    assert [Next(id)] + [Step(id, true, request, certificate)] == Finishing(id, request, certificate);
    var n := Apply(s, Next(id));
    assert n == ReserveStep(s, id) && n.db.developers == s.db.developers && n.db.members == s.db.members;
    EligibleAgain(s.db, n.db, s.runs[id].asked);
  }

  lemma EligibleAgain(t: Tables, u: Tables, asked: Asked)
    requires u.developers == t.developers && u.members == t.members
    ensures Eligible(u, asked.developer, asked.account) == Eligible(t, asked.developer, asked.account)
  {
  }

  // ----- A run that outlives its claim -----

  /** Clocks 0, 300 and 301, in this order. Run 0 is still in flight when run 1 prunes its
      claim and takes the same key; giving up, run 0 deletes the claim of run 1. */
  function LateHistory(asked: Asked): seq<Action> {
    Claiming(0, asked, 0) + Claiming(1, asked, 300) + GivingUp(0)
    + Claiming(2, asked, 301) + Finishing(2, "r2", "c2") + Finishing(1, "r1", "c1")
  }

  /** With clocks in order, a run that outlives its claim lets two certificates for one
      request start one second apart. */
  lemma LateRunAllowsDuplicates(s: State, asked: Asked)
    requires Initial(s) && Eligible(s.db, asked.developer, asked.account)
    ensures var t := Play(s, LateHistory(asked)).db;
      && AnswersTo(t, "c1", asked.developer, asked.hash) && t.certificates["c1"].notBefore == 300
      && AnswersTo(t, "c2", asked.developer, asked.hash) && t.certificates["c2"].notBefore == 301
    ensures ClaimsInOrder(s, LateHistory(asked)) && !NoClaimOutlived(s, LateHistory(asked))
  {
    hide Play, Claiming, Finishing, GivingUp, ClaimsInOrder, NoClaimOutlived, Completion;
    var a := Claiming(0, asked, 0);
    var b := a + Claiming(1, asked, 300);
    var c := b + GivingUp(0);
    var d := c + Claiming(2, asked, 301);
    var e := d + Finishing(2, "r2", "c2");
    Joins(s, a, Claiming(1, asked, 300));
    Joins(s, b, GivingUp(0));
    Joins(s, c, Claiming(2, asked, 301));
    Joins(s, d, Finishing(2, "r2", "c2"));
    Joins(s, e, Finishing(1, "r1", "c1"));
    TakesTheClaim(s, 0, asked, 0);
    TakesTheClaim(Play(s, a), 1, asked, 300);
    GivesUp(Play(s, b), 0);
    TakesTheClaim(Play(s, c), 2, asked, 301);
    Finishes(Play(s, d), 2, "r2", "c2");
    Finishes(Play(s, e), 1, "r1", "c1");
    if Timely(s, LateHistory(asked)) {
      TooCloseIsNotTimely(s, LateHistory(asked), "c1", "c2", asked);
    }
  }

  lemma TooCloseIsNotTimely(s: State, actions: seq<Action>, c: Id, d: Id, asked: Asked)
    requires Initial(s) && c != d
    requires AnswersTo(Play(s, actions).db, c, asked.developer, asked.hash)
    requires AnswersTo(Play(s, actions).db, d, asked.developer, asked.hash)
    requires var t := Play(s, actions).db;
      -300 < t.certificates[c].notBefore - t.certificates[d].notBefore < 300
    ensures !Timely(s, actions)
  {
    if Timely(s, actions) {
      DuplicatesAreSpaced(s, actions, c, d, asked.hash);
    }
  }

  // ----- A claim inserted after a later prune -----

  /** Clocks 0, 299, 300 and then 299 again. Run 0 issues. Run 1 asks for the same under
      another key and gets past its lookup; run 2 prunes the claim that still stood in run
      1's way, and run 1 inserts its own. */
  function OutOfOrderHistory(asked: Asked, key: Text): seq<Action> {
    Claiming(0, asked, 0) + Finishing(0, "r0", "c0") + Looking(1, asked.(key := key), 299)
    + Pruning(2, asked, 300) + [Next(1)] + Finishing(1, "r1", "c1")
  }

  /** Up to the prune that clears the way: run 0 has issued, run 1 is about to insert. */
  lemma OutOfOrderStart(s: State, asked: Asked, key: Text)
    requires Initial(s) && Eligible(s.db, asked.developer, asked.account) && key != asked.key
    ensures var start := Claiming(0, asked, 0) + Finishing(0, "r0", "c0") + Looking(1, asked.(key := key), 299)
                         + Pruning(2, asked, 300);
      var n := Play(s, start);
      && NoClaimOutlived(s, start)
      && n.db.claims == map[]
      && n.db.requests == map["r0" := RequestRow(asked, 0)]
      && n.db.certificates == map["c0" := CertificateRow("r0", asked.developer, s.db.nextSerial, 0)]
      && n.db.developers == s.db.developers && n.db.members == s.db.members
      && 1 in n.runs && n.runs[1] == Run(asked.(key := key), 299, None, NotFound)
  {
    hide Play, Claiming, Finishing, Looking, Pruning, ClaimsInOrder, NoClaimOutlived, Eligible;
    var other := asked.(key := key);
    var a := Claiming(0, asked, 0);
    var b := a + Finishing(0, "r0", "c0");
    var c := b + Looking(1, other, 299);
    Joins(s, a, Finishing(0, "r0", "c0"));
    Joins(s, b, Looking(1, other, 299));
    Joins(s, c, Pruning(2, asked, 300));
    TakesTheClaim(s, 0, asked, 0);
    EligibleAgain(s.db, Play(s, a).db, asked);
    Finishes(Play(s, a), 0, "r0", "c0");
    assert Play(s, b).db.claims == map[KeyOf(asked) := ClaimRow(asked.hash, Complete("c0"), 0)];
    Looks(Play(s, b), 1, other, 299);
    Prunes(Play(s, c), 2, asked, 300);
  }

  /** With no run in flight at any prune, a claim out of order lets two certificates for one
      request start 299 seconds apart. */
  lemma OutOfOrderAllowsDuplicates(s: State, asked: Asked, key: Text)
    requires Initial(s) && Eligible(s.db, asked.developer, asked.account) && key != asked.key
    ensures var t := Play(s, OutOfOrderHistory(asked, key)).db;
      && AnswersTo(t, "c0", asked.developer, asked.hash) && t.certificates["c0"].notBefore == 0
      && AnswersTo(t, "c1", asked.developer, asked.hash) && t.certificates["c1"].notBefore == 299
    ensures NoClaimOutlived(s, OutOfOrderHistory(asked, key)) && !ClaimsInOrder(s, OutOfOrderHistory(asked, key))
  {
    hide Play, Claiming, Finishing, Looking, Pruning, ClaimsInOrder, NoClaimOutlived, Eligible, Completion;
    var other := asked.(key := key);
    var d := Claiming(0, asked, 0) + Finishing(0, "r0", "c0") + Looking(1, other, 299) + Pruning(2, asked, 300);
    var e := d + [Next(1)];
    OutOfOrderStart(s, asked, key);
    Joins(s, d, [Next(1)]);
    Joins(s, e, Finishing(1, "r1", "c1"));
    Inserts(Play(s, d), 1);
    EligibleAgain(s.db, Play(s, e).db, asked);
    Finishes(Play(s, e), 1, "r1", "c1");
    if Timely(s, OutOfOrderHistory(asked, key)) {
      TooCloseIsNotTimely(s, OutOfOrderHistory(asked, key), "c0", "c1", asked);
    }
  }
}
