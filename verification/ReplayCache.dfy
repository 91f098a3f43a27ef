/** The replay cache behind delegation tokens: expiry, a prune to 9,999 rows, and an insert
    that a known token id refuses. Models `consume_authentication_jti` of src/store.rs, run
    as one step. Ties in the prune's order are broken in any way. */
module ReplayCache {
  import opened Prelude
  import DelegationToken

  const CAPACITY: nat := 9_999

  datatype Row = Row(expiresAt: nat, usedAt: nat)

  type Rows = map<Text, Row>

  /** ORDER BY expires_at DESC, used_at DESC: `a` may come after `b`. */
  predicate NoLater(a: Row, b: Row) {
    a.expiresAt < b.expiresAt || (a.expiresAt == b.expiresAt && a.usedAt <= b.usedAt)
  }

  function Live(rows: Rows, now: nat): Rows {
    map jti | jti in rows && now < rows[jti].expiresAt :: rows[jti]
  }

  /** `kept` are 9,999 rows that come first in the order, or all rows if there are fewer. */
  ghost predicate Trims(rows: Rows, kept: Rows) {
    && (forall jti :: jti in kept ==> jti in rows && kept[jti] == rows[jti])
    && |kept| == Min(|rows|, CAPACITY)
    && (forall k, d :: k in kept && d in rows && d !in kept ==> NoLater(rows[d], rows[k]))
  }

  class Cache {
    var rows: Rows

    /** Deletes the row that comes last until the capacity is met. */
    method Trim()
      modifies this
      ensures Trims(old(rows), rows)
    {
      ghost var before := rows;
      while |rows| > CAPACITY
        invariant forall jti :: jti in rows ==> jti in before && rows[jti] == before[jti]
        invariant |rows| >= Min(|before|, CAPACITY) && (|rows| > CAPACITY || rows == before || |rows| == CAPACITY)
        invariant |rows| <= |before|
        invariant forall k, d :: k in rows && d in before && d !in rows ==> NoLater(before[d], before[k])
        decreases |rows|
      {
        var last := FindLast();
        rows := rows - {last};
      }
    }

    method FindLast() returns (last: Text)
      requires rows != map[]
      ensures last in rows && forall jti :: jti in rows ==> NoLater(rows[last], rows[jti])
    {
      var left := rows.Keys;
      last :| last in left;
      left := left - {last};
      while left != {}
        invariant left < rows.Keys && last in rows.Keys - left
        invariant forall jti :: jti in rows.Keys - left ==> NoLater(rows[last], rows[jti])
        decreases |left|
      {
        var next :| next in left;
        if NoLater(rows[next], rows[last]) {
          last := next;
        }
        left := left - {next};
      }
    }

    method Consume(jti: Text, expiresAt: nat, now: nat) returns (accepted: bool)
      modifies this
      ensures exists kept ::
        && Trims(Live(old(rows), now), kept)
        && (accepted <==> jti !in kept)
        && rows == if accepted then kept[jti := Row(expiresAt, now)] else kept
    {
      rows := Live(rows, now);
      Trim();
      ghost var kept := rows;
      accepted := jti !in rows;
      if accepted {
        rows := rows[jti := Row(expiresAt, now)];
      }
      assert Trims(Live(old(rows), now), kept);
    }
  }

  // ----- Histories of consumption -----

  /** One consumption, and the rows its prune kept. */
  datatype Consumption = Consumption(jti: Text, expiresAt: nat, now: nat, kept: Rows) {
    predicate Accepted() { jti !in kept }
  }

  function After(c: Consumption): Rows {
    if c.Accepted() then c.kept[c.jti := Row(c.expiresAt, c.now)] else c.kept
  }

  /** Each consumption starts from the rows that the one before it left. */
  ghost predicate Happened(history: seq<Consumption>) {
    forall i :: 0 <= i < |history| ==> Trims(Live(Before(history, i), history[i].now), history[i].kept)
  }

  function Before(history: seq<Consumption>, i: nat): Rows
    requires i < |history|
  {
    if i == 0 then map[] else After(history[i - 1])
  }

  ghost predicate InOrder(history: seq<Consumption>) {
    forall i, j :: 0 <= i < j < |history| ==> history[i].now <= history[j].now
  }

  function RowOf(c: Consumption): Row {
    Row(c.expiresAt, c.now)
  }

  /** The other live rows, when consumption i prunes, that may come before `row` in the
      prune's order: a later expiry, or the same expiry and no earlier use. */
  predicate MayOutlast(a: Row, b: Row) {
    a.expiresAt > b.expiresAt || (a.expiresAt == b.expiresAt && a.usedAt >= b.usedAt)
  }

  predicate Outlasts(a: Row, b: Row) {
    a.expiresAt > b.expiresAt || (a.expiresAt == b.expiresAt && a.usedAt > b.usedAt)
  }

  function Rivals(history: seq<Consumption>, i: nat, jti: Text, row: Row): set<Text>
    requires 0 < i < |history|
  {
    var rows := Live(After(history[i - 1]), history[i].now);
    set other | other in rows && other != jti && MayOutlast(rows[other], row)
  }

  /** Those that must come before it. Only full ties, in both expiry and use, are rivals that
      do not overtake. */
  function Overtakers(history: seq<Consumption>, i: nat, row: Row): set<Text>
    requires 0 < i < |history|
  {
    var rows := Live(After(history[i - 1]), history[i].now);
    set other | other in rows && Outlasts(rows[other], row)
  }

  /** A prune that drops a row keeps 9,999 others that do not come after it. */
  lemma DroppedMeansCrowded(rows: Rows, kept: Rows, jti: Text, crowd: set<Text>)
    requires Trims(rows, kept) && jti in rows && jti !in kept
    requires crowd == set other | other in rows && other != jti && MayOutlast(rows[other], rows[jti])
    ensures |crowd| >= 9_999
  {
    assert kept.Keys <= crowd by {
      forall k | k in kept ensures k in crowd {
        assert NoLater(rows[jti], rows[k]);
      }
    }
    SubsetIsSmaller(kept.Keys, crowd);
    if |kept| < 9_999 {
      assert kept.Keys < rows.Keys;
      SubsetIsSmaller(kept.Keys, rows.Keys - {jti});
    }
  }

  /** Conversely 9,999 rows that come before it push a row out. */
  lemma CrowdedMeansDropped(rows: Rows, kept: Rows, jti: Text, crowd: set<Text>)
    requires Trims(rows, kept) && jti in rows
    requires crowd == set other | other in rows && Outlasts(rows[other], rows[jti])
    requires |crowd| >= 9_999
    ensures jti !in kept
  {
    if jti in kept {
      forall other | other in crowd ensures other in kept {
        KeptSparesLater(rows, kept, jti, other);
      }
      SubsetIsSmaller(crowd + {jti}, kept.Keys);
    }
  }

  lemma KeptSparesLater(rows: Rows, kept: Rows, jti: Text, other: Text)
    requires Trims(rows, kept) && jti in kept && other in rows && Outlasts(rows[other], rows[jti])
    ensures other in kept
  {
  }

  lemma {:induction false} SubsetIsSmaller(a: set<Text>, b: set<Text>)
    requires a <= b
    ensures |a| <= |b|
  {
    if a != {} {
      var x :| x in a;
      SubsetIsSmaller(a - {x}, b - {x});
    }
  }

  lemma HappenedAt(history: seq<Consumption>, j: nat)
    requires Happened(history) && 0 < j < |history|
    ensures Trims(Live(After(history[j - 1]), history[j].now), history[j].kept)
  {
    assert Before(history, j) == After(history[j - 1]);
  }

  /** What a prune keeps was there and had not expired. */
  lemma KeptWasLive(rows: Rows, now: nat, kept: Rows, jti: Text)
    requires Trims(Live(rows, now), kept) && jti in kept
    ensures jti in rows && kept[jti] == rows[jti] && now < rows[jti].expiresAt
  {
  }

  /** A live row without 9,999 rivals is kept. */
  lemma UncrowdedIsKept(history: seq<Consumption>, j: nat, jti: Text)
    requires Happened(history) && 0 < j < |history| && jti in After(history[j - 1])
    requires history[j].now < After(history[j - 1])[jti].expiresAt
    requires |Rivals(history, j, jti, After(history[j - 1])[jti])| < 9_999
    ensures jti in history[j].kept && history[j].kept[jti] == After(history[j - 1])[jti]
  {
    hide Trims, After;
    HappenedAt(history, j);
    var rows := Live(After(history[j - 1]), history[j].now);
    if jti !in history[j].kept {
      DroppedMeansCrowded(rows, history[j].kept, jti, Rivals(history, j, jti, rows[jti]));
    }
    if jti in history[j].kept {
      KeptWasLive(After(history[j - 1]), history[j].now, history[j].kept, jti);
    }
  }

  lemma OrderedClocks(history: seq<Consumption>, i: nat, j: nat)
    requires InOrder(history) && i <= j < |history|
    ensures history[i].now <= history[j].now
  {
  }

  /** From its acceptance on, a row stays until it expires, unless some prune found 9,999
      rivals. */
  lemma {:induction false} RowStays(history: seq<Consumption>, i: nat, j: nat)
    requires Happened(history) && InOrder(history) && i <= j < |history| && history[i].Accepted()
    requires history[j].now < history[i].expiresAt
    requires forall k :: i < k <= j ==> |Rivals(history, k, history[i].jti, RowOf(history[i]))| < 9_999
    ensures history[i].jti in After(history[j])
    ensures After(history[j])[history[i].jti] == RowOf(history[i])
    ensures i < j ==> !(history[j].Accepted() && history[j].jti == history[i].jti)
    decreases j
  {
    hide Happened, InOrder, Rivals;
    if i < j {
      OrderedClocks(history, j - 1, j);
      RowStays(history, i, j - 1);
      UncrowdedIsKept(history, j, history[i].jti);
    }
  }

  /** A token id accepted twice before its expiry was crowded out in between: some prune
      found at least 9,999 other rows that do not come after its own in the order. */
  lemma SecondUseMeansCrowding(history: seq<Consumption>, i: nat, j: nat)
    requires Happened(history) && InOrder(history) && i < j < |history|
    requires history[i].Accepted() && history[j].Accepted() && history[i].jti == history[j].jti
    requires history[j].now < history[i].expiresAt
    ensures exists k :: i < k <= j && |Rivals(history, k, history[i].jti, RowOf(history[i]))| >= 9_999
  {
    if forall k :: i < k <= j ==> |Rivals(history, k, history[i].jti, RowOf(history[i]))| < 9_999 {
      RowStays(history, i, j);
    }
  }

  /** No consumption between the two accepted this id. */
  ghost predicate UnacceptedBetween(history: seq<Consumption>, i: nat, j: nat, jti: Text)
    requires i <= j <= |history|
  {
    forall k :: i < k < j && history[k].jti == jti ==> !history[k].Accepted()
  }

  /** Until it is accepted again, whatever row the id has is the one it got at first. */
  lemma {:induction false} OnlyOneRow(history: seq<Consumption>, i: nat, j: nat)
    requires Happened(history) && i <= j < |history| && history[i].Accepted()
    requires UnacceptedBetween(history, i, j + 1, history[i].jti)
    ensures var jti := history[i].jti;
      jti in After(history[j]) ==> After(history[j])[jti] == RowOf(history[i])
    decreases j
  {
    hide Happened, Trims, Live;
    if i < j {
      OnlyOneRow(history, i, j - 1);
      HappenedAt(history, j);
      if history[i].jti in history[j].kept {
        KeptWasLive(After(history[j - 1]), history[j].now, history[j].kept, history[i].jti);
      }
    }
  }

  /** From its expiry on a row is forgotten: however crowded the cache, the next consumption
      of the id is accepted. */
  lemma ExpiredRowIsForgotten(history: seq<Consumption>, i: nat, j: nat)
    requires Happened(history) && i < j < |history|
    requires history[i].Accepted() && history[j].jti == history[i].jti
    requires UnacceptedBetween(history, i, j, history[i].jti)
    requires history[i].expiresAt <= history[j].now
    ensures history[j].Accepted()
  {
    hide Happened, Trims, Live, After;
    OnlyOneRow(history, i, j - 1);
    HappenedAt(history, j);
    if history[i].jti in history[j].kept {
      KeptWasLive(After(history[j - 1]), history[j].now, history[j].kept, history[i].jti);
    }
  }

  /** A later consumption of an id is accepted exactly when it comes at or after the expiry
      that the id was first accepted with, as long as no prune is crowded. */
  lemma SecondUseExactly(history: seq<Consumption>, i: nat, j: nat)
    requires Happened(history) && InOrder(history) && i < j < |history|
    requires history[i].Accepted() && history[j].jti == history[i].jti
    requires UnacceptedBetween(history, i, j, history[i].jti)
    requires forall k :: i < k <= j ==> |Rivals(history, k, history[i].jti, RowOf(history[i]))| < 9_999
    ensures history[j].Accepted() <==> history[i].expiresAt <= history[j].now
  {
    if history[j].now < history[i].expiresAt {
      RowStays(history, i, j);
    } else {
      ExpiredRowIsForgotten(history, i, j);
    }
  }

  /** An id that a prune dropped is not kept again before it is accepted again. */
  lemma {:induction false} GoneStaysGone(history: seq<Consumption>, k: nat, j: nat, jti: Text)
    requires Happened(history) && 0 < k <= j < |history| && jti !in history[k].kept
    requires forall m :: k <= m < j && history[m].jti == jti ==> !history[m].Accepted()
    ensures jti !in history[j].kept
    decreases j
  {
    hide Happened, Trims, Live;
    if k < j {
      GoneStaysGone(history, k, j - 1, jti);
      HappenedAt(history, j);
      if jti in history[j].kept {
        KeptWasLive(After(history[j - 1]), history[j].now, history[j].kept, jti);
      }
    }
  }

  /** A prune that finds 9,999 rows before the row of an accepted id drops it. */
  lemma OvertakenIsDropped(history: seq<Consumption>, i: nat, k: nat)
    requires Happened(history) && i < k < |history| && history[i].Accepted()
    requires UnacceptedBetween(history, i, k, history[i].jti)
    requires |Overtakers(history, k, RowOf(history[i]))| >= 9_999
    ensures history[i].jti !in history[k].kept
  {
    hide Happened, Trims, After, NoLater;
    var jti := history[i].jti;
    OnlyOneRow(history, i, k - 1);
    HappenedAt(history, k);
    if jti in history[k].kept {
      KeptWasLive(After(history[k - 1]), history[k].now, history[k].kept, jti);
      CrowdedMeansDropped(Live(After(history[k - 1]), history[k].now), history[k].kept, jti,
                          Overtakers(history, k, RowOf(history[i])));
    }
  }

  /** The converse of SecondUseMeansCrowding, for every history: once any prune has found
      9,999 rows before that of an accepted id, the next consumption of the id is accepted,
      whatever its clock. */
  lemma CrowdingMeansSecondUse(history: seq<Consumption>, i: nat, k: nat, j: nat)
    requires Happened(history) && i < k <= j < |history|
    requires history[i].Accepted() && history[j].jti == history[i].jti
    requires UnacceptedBetween(history, i, j, history[i].jti)
    requires |Overtakers(history, k, RowOf(history[i]))| >= 9_999
    ensures history[j].Accepted()
  {
    hide Happened, Overtakers;
    OvertakenIsDropped(history, i, k);
    GoneStaysGone(history, k, j, history[i].jti);
  }

  /** No live row ties with the row of consumption i in both keys. */
  ghost predicate NoTies(history: seq<Consumption>, i: nat, j: nat)
    requires i < j < |history|
  {
    forall k, other :: i < k <= j && other in Before(history, k) && other != history[i].jti ==>
      Before(history, k)[other] != RowOf(history[i])
  }

  /** Without ties the order is strict, and the two conditions are one: a later consumption
      is accepted exactly when it comes at or after the expiry or some prune in between was
      crowded. */
  lemma SecondUseIffExpiredOrCrowded(history: seq<Consumption>, i: nat, j: nat)
    requires Happened(history) && InOrder(history) && i < j < |history|
    requires history[i].Accepted() && history[j].jti == history[i].jti
    requires UnacceptedBetween(history, i, j, history[i].jti) && NoTies(history, i, j)
    ensures history[j].Accepted() <==>
      || history[i].expiresAt <= history[j].now
      || exists k :: i < k <= j && |Rivals(history, k, history[i].jti, RowOf(history[i]))| >= 9_999
  {
    hide Happened, InOrder, Rivals, Overtakers;
    if k :| i < k <= j && |Rivals(history, k, history[i].jti, RowOf(history[i]))| >= 9_999 {
      RivalsOvertake(history, i, k, j);
      CrowdingMeansSecondUse(history, i, k, j);
    } else {
      SecondUseExactly(history, i, j);
    }
  }

  lemma RivalsOvertake(history: seq<Consumption>, i: nat, k: nat, j: nat)
    requires i < k <= j < |history| && NoTies(history, i, j)
    ensures |Overtakers(history, k, RowOf(history[i]))| >= |Rivals(history, k, history[i].jti, RowOf(history[i]))|
  {
    assert Before(history, k) == After(history[k - 1]);
    SubsetIsSmaller(Rivals(history, k, history[i].jti, RowOf(history[i])), Overtakers(history, k, RowOf(history[i])));
  }

  /** A token is verified at one clock and consumed at a later one. Whoever presents it a
      second time while it still verifies succeeds exactly when that second consumption is
      delayed to the expiry or beyond; verified and consumed before it, a token is good for
      one use. */
  lemma TokensAreSingleUse(x: DelegationToken.Codec, token: Text, key: seq<byte>, claims: DelegationToken.Claims,
                           history: seq<Consumption>, i: nat, j: nat, verified: nat)
    requires Happened(history) && InOrder(history) && i < j < |history|
    requires history[i].jti == history[j].jti == claims.jti && history[i].expiresAt == claims.exp
    requires history[i].Accepted() && UnacceptedBetween(history, i, j, claims.jti)
    requires DelegationToken.Accepts(x, token, key, verified, claims) && verified <= history[j].now
    requires forall k :: i < k <= j ==> |Rivals(history, k, claims.jti, RowOf(history[i]))| < 9_999
    ensures history[j].Accepted() <==> claims.exp <= history[j].now
    ensures history[j].Accepted() ==> verified < claims.exp && verified < history[j].now
  {
    SecondUseExactly(history, i, j);
  }

  // ----- Two ways in which a token is let in twice -----

  /** A token verified a second before its expiry and consumed at it: the row of its first
      use is gone by then. */
  lemma DelayedConsumptionIsAccepted(x: DelegationToken.Codec, token: Text, key: seq<byte>,
                                     claims: DelegationToken.Claims)
    requires claims.exp > 0 && DelegationToken.Accepts(x, token, key, claims.exp - 1, claims)
    ensures var history := [Consumption(claims.jti, claims.exp, claims.exp - 1, map[]),
                            Consumption(claims.jti, claims.exp, claims.exp, map[])];
      Happened(history) && InOrder(history) && history[0].Accepted() && history[1].Accepted()
  {
    var history := [Consumption(claims.jti, claims.exp, claims.exp - 1, map[]),
                    Consumption(claims.jti, claims.exp, claims.exp, map[])];
    assert Live(Before(history, 1), claims.exp) == map[];
    assert Live(Before(history, 0), claims.exp - 1) == map[];
  }

  function Other(jti: Text, n: nat): Text {
    jti + seq(n + 1, _ => 97)
  }

  /** The rows after `jti` and then n others, which expire one second later. */
  function CrowdedRows(jti: Text, expiresAt: nat, now: nat, n: nat): Rows {
    if n == 0 then map[jti := Row(expiresAt, now)]
    else CrowdedRows(jti, expiresAt, now, n - 1)[Other(jti, n - 1) := Row(expiresAt + 1, now)]
  }

  function Crowding(jti: Text, expiresAt: nat, now: nat, n: nat): seq<Consumption> {
    if n == 0 then [Consumption(jti, expiresAt, now, map[])]
    else
      Crowding(jti, expiresAt, now, n - 1)
      + [Consumption(Other(jti, n - 1), expiresAt + 1, now, CrowdedRows(jti, expiresAt, now, n - 1))]
  }

  lemma {:induction false} CrowdedRowsAre(jti: Text, expiresAt: nat, now: nat, n: nat)
    ensures |CrowdedRows(jti, expiresAt, now, n)| == n + 1
    ensures forall k :: k in CrowdedRows(jti, expiresAt, now, n) ==> |k| <= |jti| + n
    ensures jti in CrowdedRows(jti, expiresAt, now, n)
    ensures forall k :: k in CrowdedRows(jti, expiresAt, now, n) ==>
      CrowdedRows(jti, expiresAt, now, n)[k] == Row(if k == jti then expiresAt else expiresAt + 1, now)
  {
    if n > 0 {
      CrowdedRowsAre(jti, expiresAt, now, n - 1);
      assert |Other(jti, n - 1)| == |jti| + n;
    }
  }

  lemma CrowdingStarts(jti: Text, expiresAt: nat, now: nat)
    ensures var h := Crowding(jti, expiresAt, now, 0);
      |h| == 1 && Happened(h) && h[0] == Consumption(jti, expiresAt, now, map[])
      && After(h[0]) == CrowdedRows(jti, expiresAt, now, 0)
  {
  }

  lemma CrowdingGrows(jti: Text, expiresAt: nat, now: nat, n: nat)
    requires n > 0
    ensures Crowding(jti, expiresAt, now, n)
         == Crowding(jti, expiresAt, now, n - 1) + [OneMore(jti, expiresAt, now, n - 1)]
  {
  }

  function OneMore(jti: Text, expiresAt: nat, now: nat, n: nat): Consumption {
    Consumption(Other(jti, n), expiresAt + 1, now, CrowdedRows(jti, expiresAt, now, n))
  }

  lemma {:induction false} CrowdingHappens(jti: Text, expiresAt: nat, now: nat, n: nat)
    requires now < expiresAt && n <= CAPACITY
    ensures var h := Crowding(jti, expiresAt, now, n);
      && |h| == n + 1 && Happened(h)
      && h[0] == Consumption(jti, expiresAt, now, map[])
      && After(h[n]) == CrowdedRows(jti, expiresAt, now, n)
  {
    hide Happened, Live, Trims, CrowdedRows, Crowding, Other;
    if n == 0 {
      CrowdingStarts(jti, expiresAt, now);
    } else {
      CrowdingHappens(jti, expiresAt, now, n - 1);
      RoomForOneMore(jti, expiresAt, now, n - 1);
      CrowdingGrows(jti, expiresAt, now, n);
      CrowdedRowsGrow(jti, expiresAt, now, n);
      HappenedGrows(Crowding(jti, expiresAt, now, n - 1), OneMore(jti, expiresAt, now, n - 1));
    }
  }

  lemma CrowdedRowsGrow(jti: Text, expiresAt: nat, now: nat, n: nat)
    requires n > 0
    ensures CrowdedRows(jti, expiresAt, now, n)
         == CrowdedRows(jti, expiresAt, now, n - 1)[Other(jti, n - 1) := Row(expiresAt + 1, now)]
  {
  }

  /** Up to the capacity a prune keeps everything, and the next id is new. */
  lemma RoomForOneMore(jti: Text, expiresAt: nat, now: nat, n: nat)
    requires now < expiresAt && n < CAPACITY
    ensures var rows := CrowdedRows(jti, expiresAt, now, n);
      Trims(Live(rows, now), rows) && Other(jti, n) !in rows
  {
    var rows := CrowdedRows(jti, expiresAt, now, n);
    CrowdedRowsAre(jti, expiresAt, now, n);
    hide CrowdedRows;
    assert |Other(jti, n)| == |jti| + n + 1;
    assert Live(rows, now) == rows;
  }

  lemma HappenedGrows(history: seq<Consumption>, c: Consumption)
    requires Happened(history) && history != []
    requires Trims(Live(After(history[|history| - 1]), c.now), c.kept)
    ensures Happened(history + [c])
  {
    hide Trims, Live, After;
    var longer := history + [c];
    forall i | 0 <= i < |longer| ensures Trims(Live(Before(longer, i), longer[i].now), longer[i].kept) {
      if i < |history| {
        assert Before(longer, i) == Before(history, i);
      }
    }
  }

  /** One token, 9,999 others that expire later, and the token again, all within a second
      and long before any expiry: every prune then drops the token, and it is accepted
      twice. */
  lemma CrowdLetsTokenInTwice(jti: Text, expiresAt: nat, now: nat)
    requires now < expiresAt
    ensures Crowding(jti, expiresAt, now, CAPACITY)[0] == Consumption(jti, expiresAt, now, map[])
    ensures forall kept :: Happened(Crowding(jti, expiresAt, now, CAPACITY) + [Consumption(jti, expiresAt, now, kept)])
                           ==> Consumption(jti, expiresAt, now, kept).Accepted()
    ensures exists kept :: Happened(Crowding(jti, expiresAt, now, CAPACITY) + [Consumption(jti, expiresAt, now, kept)])
  {
    hide Trims, Crowding, CrowdedRows;
    CrowdingHappens(jti, expiresAt, now, CAPACITY);
    var crowd, rows := Crowding(jti, expiresAt, now, CAPACITY), CrowdedRows(jti, expiresAt, now, CAPACITY);
    TokenIsPushedOut(jti, expiresAt, now);
    HappenedGrows(crowd, Consumption(jti, expiresAt, now, rows - {jti}));
    forall kept | Happened(crowd + [Consumption(jti, expiresAt, now, kept)])
      ensures Consumption(jti, expiresAt, now, kept).Accepted()
    {
      var history := crowd + [Consumption(jti, expiresAt, now, kept)];
      assert Before(history, CAPACITY + 1) == After(crowd[CAPACITY]) && history[CAPACITY + 1].kept == kept;
    }
  }

  /** Whatever a prune of those rows keeps, the token is not part of it. */
  lemma TokenIsPushedOut(jti: Text, expiresAt: nat, now: nat)
    requires now < expiresAt
    ensures var rows := CrowdedRows(jti, expiresAt, now, CAPACITY);
      && Live(rows, now) == rows
      && Trims(rows, rows - {jti})
      && forall kept :: Trims(rows, kept) ==> jti !in kept
  {
    var rows := CrowdedRows(jti, expiresAt, now, CAPACITY);
    CrowdedRowsAre(jti, expiresAt, now, CAPACITY);
    hide CrowdedRows;
    var crowd := set other | other in rows && Outlasts(rows[other], rows[jti]);
    assert crowd == rows.Keys - {jti} == (rows - {jti}).Keys;
    forall kept | Trims(rows, kept) ensures jti !in kept {
      CrowdedMeansDropped(rows, kept, jti, crowd);
    }
  }
}
