/** The tables behind online issuance and the statements that write them. Models the
    issuance functions of src/store.rs with the constraints of migration 0006. The ids of
    new rows come from `id`, which never draws one twice. */
module IssuanceStore {
  import opened Prelude
  import CertificateRequest

  type Id = string

  const CLAIM_SECONDS: nat := 300

  datatype Role = Owner | Admin | Developer | Viewer

  /** Who asks for what: the canonical request and its hash. */
  datatype Asked = Asked(developer: Id, account: Id, key: Text, request: CertificateRequest.Request, hash: Text)

  datatype ClaimKey = ClaimKey(developer: Id, account: Id, key: Text)

  datatype ClaimStatus = Pending | Complete(certificate: Id)

  datatype ClaimRow = ClaimRow(hash: Text, status: ClaimStatus, updatedAt: nat)

  datatype DeveloperRow = DeveloperRow(active: bool, verified: bool)

  datatype MemberRow = MemberRow(active: bool, role: Role)

  datatype RequestRow = RequestRow(asked: Asked, at: nat)

  datatype CertificateRow = CertificateRow(request: Id, developer: Id, serial: nat, notBefore: nat)

  datatype Tables = Tables(
    claims: map<ClaimKey, ClaimRow>,
    nextSerial: nat,
    developers: map<Id, DeveloperRow>,
    members: map<(Id, Id), MemberRow>,
    requests: map<Id, RequestRow>,
    certificates: map<Id, CertificateRow>,
    audits: seq<Id>)

  datatype IssueClaim = Claimed | Completed(certificate: Id) | StillPending | Conflicting | Unavailable

  function KeyOf(asked: Asked): ClaimKey {
    ClaimKey(asked.developer, asked.account, asked.key)
  }

  predicate Eligible(t: Tables, developer: Id, account: Id) {
    && developer in t.developers && t.developers[developer].active && t.developers[developer].verified
    && (developer, account) in t.members && t.members[(developer, account)].active
    && !t.members[(developer, account)].role.Viewer?
  }

  /** An active owner, admin or developer of an active and verified developer. */
  predicate MayIssue(t: Tables, developer: Id, account: Id) {
    && developer in t.developers
    && t.developers[developer] == DeveloperRow(true, true)
    && (developer, account) in t.members
    && t.members[(developer, account)] in
         {MemberRow(true, Owner), MemberRow(true, Admin), MemberRow(true, Role.Developer)}
  }

  lemma EligibleIsInGoodStanding(t: Tables, developer: Id, account: Id)
    ensures Eligible(t, developer, account) <==> MayIssue(t, developer, account)
  {
  }

  // ----- The statements -----

  function Pruned(claims: map<ClaimKey, ClaimRow>, now: nat): map<ClaimKey, ClaimRow> {
    map k | k in claims && now < claims[k].updatedAt + CLAIM_SECONDS :: claims[k]
  }

  predicate Matches(claims: map<ClaimKey, ClaimRow>, k: ClaimKey, developer: Id, hash: Text) {
    k in claims && k.developer == developer && claims[k].hash == hash
  }

  predicate HasHash(claims: map<ClaimKey, ClaimRow>, developer: Id, hash: Text) {
    exists k :: k in claims && Matches(claims, k, developer, hash)
  }

  /** INSERT OR IGNORE under the primary key and the unique (developer, hash) index. */
  predicate Insertable(claims: map<ClaimKey, ClaimRow>, asked: Asked) {
    KeyOf(asked) !in claims && !HasHash(claims, asked.developer, asked.hash)
  }

  /** Every claim for this request, under its key or its hash, is 300 s old or older. */
  ghost predicate Freed(claims: map<ClaimKey, ClaimRow>, asked: Asked, now: nat) {
    forall k :: k in claims && (k == KeyOf(asked) || Matches(claims, k, asked.developer, asked.hash)) ==>
      claims[k].updatedAt + CLAIM_SECONDS <= now
  }

  lemma PruningFrees(claims: map<ClaimKey, ClaimRow>, asked: Asked, now: nat)
    ensures Insertable(Pruned(claims, now), asked) <==> Freed(claims, asked, now)
  {
    var kept := Pruned(claims, now);
    if HasHash(kept, asked.developer, asked.hash) {
      var k :| k in kept && Matches(kept, k, asked.developer, asked.hash);
      assert Matches(claims, k, asked.developer, asked.hash);
    }
    forall k | k in kept && Matches(claims, k, asked.developer, asked.hash)
      ensures HasHash(kept, asked.developer, asked.hash)
    {
      assert Matches(kept, k, asked.developer, asked.hash);
    }
  }

  function Inserted(claims: map<ClaimKey, ClaimRow>, asked: Asked, now: nat): map<ClaimKey, ClaimRow> {
    if Insertable(claims, asked) then claims[KeyOf(asked) := ClaimRow(asked.hash, Pending, now)] else claims
  }

  /** The rows that the abandoning DELETE and the completing UPDATE select. */
  predicate Awaits(claims: map<ClaimKey, ClaimRow>, asked: Asked) {
    && KeyOf(asked) in claims
    && claims[KeyOf(asked)].hash == asked.hash
    && claims[KeyOf(asked)].status.Pending?
  }

  function Released(claims: map<ClaimKey, ClaimRow>, asked: Asked): map<ClaimKey, ClaimRow> {
    if Awaits(claims, asked) then claims - {KeyOf(asked)} else claims
  }

  function Completion(claims: map<ClaimKey, ClaimRow>, asked: Asked, certificate: Id, now: nat)
    : map<ClaimKey, ClaimRow>
  {
    if Awaits(claims, asked) then claims[KeyOf(asked) := ClaimRow(asked.hash, Complete(certificate), now)] else claims
  }

  /** The outcome of the issuing batch: all four writes, or none for an ineligible member. */
  function IssueBatch(t: Tables, asked: Asked, request: Id, certificate: Id, serial: nat, now: nat): Tables {
    if !Eligible(t, asked.developer, asked.account) then t
    else t.(
      requests := t.requests[request := RequestRow(asked, now)],
      certificates := t.certificates[certificate := CertificateRow(request, asked.developer, serial, now)],
      claims := Completion(t.claims, asked, certificate, now),
      audits := t.audits + [certificate])
  }

  /** What a found row answers; a complete row whose certificate is missing stays pending. */
  function Answer(t: Tables, row: ClaimRow): IssueClaim {
    match row.status
    case Complete(certificate) => if certificate in t.certificates then Completed(certificate) else StillPending
    case Pending => StillPending
  }

  class Store {
    var claims: map<ClaimKey, ClaimRow>
    var nextSerial: nat
    var developers: map<Id, DeveloperRow>
    var members: map<(Id, Id), MemberRow>
    var requests: map<Id, RequestRow>
    var certificates: map<Id, CertificateRow>
    var audits: seq<Id>

    function View(): Tables
      reads this
    {
      Tables(claims, nextSerial, developers, members, requests, certificates, audits)
    }

    /** Some row of this developer and hash has this status. */
    ghost predicate AnsweredBy(asked: Asked, status: ClaimStatus)
      reads this
    {
      exists k :: k in claims && Matches(claims, k, asked.developer, asked.hash) && claims[k].status == status
    }

    /** The statement that claims start with: afterwards a request is barred exactly by a
        claim for it, under its key or its hash, that is younger than 300 s. */
    method PruneClaims(now: nat)
      modifies this`claims
      ensures claims == Pruned(old(claims), now)
      ensures forall asked: Asked :: Insertable(claims, asked) <==> Freed(old(claims), asked, now)
    {
      claims := Pruned(claims, now);
      forall asked: Asked
        ensures Insertable(claims, asked) <==> Freed(old(claims), asked, now)
      {
        PruningFrees(old(claims), asked, now);
      }
    }

    /** The INSERT OR IGNORE of a claim. A winner holds the only claim of its developer and
        hash; a loser changes nothing and leaves a row for one of its two later lookups. Either
        way the same request cannot be inserted again. */
    method InsertClaim(asked: Asked, now: nat) returns (inserted: bool)
      modifies this`claims
      ensures claims == Inserted(old(claims), asked, now)
      ensures inserted <==> Insertable(old(claims), asked)
      ensures !Insertable(claims, asked)
      ensures inserted ==>
        forall k :: k in claims && Matches(claims, k, asked.developer, asked.hash) ==> k == KeyOf(asked)
      ensures !inserted ==>
        claims == old(claims) && (KeyOf(asked) in claims || HasHash(claims, asked.developer, asked.hash))
    {
      inserted := Insertable(claims, asked);
      if inserted {
        claims := claims[KeyOf(asked) := ClaimRow(asked.hash, Pending, now)];
      }
    }

    /** The second lookup: a row of this developer and hash, if there is one. */
    method FindByHash(developer: Id, hash: Text) returns (row: Option<ClaimRow>)
      ensures row.Some? <==> HasHash(claims, developer, hash)
      ensures row.Some? ==> exists k :: Matches(claims, k, developer, hash) && claims[k] == row.value
    {
      if HasHash(claims, developer, hash) {
        var k :| k in claims && Matches(claims, k, developer, hash);
        row := Some(claims[k]);
      } else {
        row := None;
      }
    }

    /** `claim_certificate_issue` run without interruption. */
    method ClaimCertificateIssue(asked: Asked, now: nat) returns (answer: IssueClaim)
      modifies this`claims
      ensures claims == Inserted(Pruned(old(claims), now), asked, now)
      ensures answer == Claimed <==> Insertable(Pruned(old(claims), now), asked)
      ensures answer == Conflicting <==>
        KeyOf(asked) in claims && claims[KeyOf(asked)].hash != asked.hash
      ensures answer.Completed? ==>
        answer.certificate in certificates && AnsweredBy(asked, Complete(answer.certificate))
      ensures answer == StillPending ==>
        AnsweredBy(asked, Pending) || exists c :: c !in certificates && AnsweredBy(asked, Complete(c))
      ensures answer != Unavailable
    {
      PruneClaims(now);
      if KeyOf(asked) in claims {
        var row := claims[KeyOf(asked)];
        if row.hash != asked.hash {
          return Conflicting;
        }
        assert Matches(claims, KeyOf(asked), asked.developer, asked.hash);
        return Answer(View(), row);
      }
      var inserted := InsertClaim(asked, now);
      if inserted {
        return Claimed;
      }
      var row := FindByHash(asked.developer, asked.hash);
      if row.None? {
        return Unavailable;
      }
      answer := Answer(View(), row.value);
    }

    /** `abandon_certificate_issue`: gives a pending claim back, nobody else's. */
    method AbandonCertificateIssue(asked: Asked)
      modifies this`claims
      ensures claims == Released(old(claims), asked)
      ensures forall k :: k in old(claims) && k != KeyOf(asked) ==> k in claims && claims[k] == old(claims)[k]
    {
      if Awaits(claims, asked) {
        claims := claims - {KeyOf(asked)};
      }
    }

    /** `reserve_certificate_serial`: no number is handed out twice. */
    method ReserveCertificateSerial() returns (serial: nat)
      modifies this`nextSerial
      ensures old(nextSerial) == serial < nextSerial == serial + 1
    {
      nextSerial := nextSerial + 1;
      serial := nextSerial - 1;
    }

    /** The batch of `issue_certificate`, statement by statement: each later statement
        looks for what the earlier ones wrote. */
    method IssueCertificate(asked: Asked, request: Id, certificate: Id, serial: nat, now: nat) returns (issued: bool)
      requires request !in requests && certificate !in certificates
      modifies this
      ensures View() == IssueBatch(old(View()), asked, request, certificate, serial, now)
      ensures issued <==> MayIssue(old(View()), asked.developer, asked.account)
    {
      EligibleIsInGoodStanding(View(), asked.developer, asked.account);
      if Eligible(View(), asked.developer, asked.account) {
        requests := requests[request := RequestRow(asked, now)];
      }
      if request in requests && requests[request].asked.account == asked.account {
        certificates := certificates[certificate :=
          CertificateRow(request, requests[request].asked.developer, serial, now)];
      }
      if Awaits(claims, asked) && certificate in certificates {
        claims := claims[KeyOf(asked) := ClaimRow(asked.hash, Complete(certificate), now)];
      }
      if certificate in certificates {
        audits := audits + [certificate];
      }
      issued := certificate in certificates;
    }
  }
}
