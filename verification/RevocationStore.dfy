/** The tables behind revocation and the batches that write them. Models the revocation
    functions of src/store.rs; constraints come from migrations 0001, 0002 and 0009. */
module RevocationStore {
  import opened Prelude
  import opened Sorting
  import opened RevocationMaterial

  type Id = string

  datatype Certificate = Certificate(serial: Text, revoked: bool)

  datatype RevocationRow = RevocationRow(certificate: Id, entry: RevocationEntry)

  datatype SnapshotRow = SnapshotRow(content: RevocationContent, current: bool)

  datatype Tables = Tables(
    certificates: map<Id, Certificate>,
    suspensions: set<Id>,
    revocations: seq<RevocationRow>,
    snapshots: map<nat, SnapshotRow>)

  datatype EffectiveStatus = Usable | Suspended | PermanentlyRevoked

  /** The CASE expression of `certificate`: revocation outranks suspension. */
  function StatusOf(t: Tables, id: Id): Option<EffectiveStatus> {
    if id !in t.certificates then None
    else if t.certificates[id].revoked then Some(PermanentlyRevoked)
    else if id in t.suspensions then Some(Suspended)
    else Some(Usable)
  }

  predicate HasRow(rows: seq<RevocationRow>, id: Id) {
    exists i :: 0 <= i < |rows| && rows[i].certificate == id
  }

  function Entries(rows: seq<RevocationRow>): seq<RevocationEntry> {
    seq(|rows|, i requires 0 <= i < |rows| => rows[i].entry)
  }

  /** The sorted list that a snapshot of these rows must carry. */
  function Listing(rows: seq<RevocationRow>): seq<RevocationEntry> {
    SortBy(SerialOf, Entries(rows))
  }

  function Demoted(snapshots: map<nat, SnapshotRow>): map<nat, SnapshotRow> {
    map v | v in snapshots :: snapshots[v].(current := false)
  }

  /** The outcome of saving a snapshot: the primary key admits one row a version. */
  function SaveBatch(t: Tables, content: RevocationContent): Option<Tables> {
    if content.snapshotVersion in t.snapshots then None
    else Some(t.(snapshots := Demoted(t.snapshots)[content.snapshotVersion := SnapshotRow(content, true)]))
  }

  /** The outcome of revoking and publishing in one batch; None means nothing is written. */
  function RevokeBatch(t: Tables, id: Id, reason: ReasonCode, at: nat, content: RevocationContent): Option<Tables> {
    if id !in t.certificates then None
    else
      var serial := t.certificates[id].serial;
      var saved :- SaveBatch(t, content);
      Some(saved.(
        certificates := t.certificates[id := Certificate(serial, true)],
        suspensions := t.suspensions - {id},
        revocations := if HasRow(t.revocations, id) then t.revocations
                       else t.revocations + [RevocationRow(id, RevocationEntry(serial, at, reason))]))
  }

  function SuspensionBatch(t: Tables, id: Id, suspend: bool): Tables {
    t.(suspensions := if suspend then t.suspensions + {id} else t.suspensions - {id})
  }

  class Store {
    var certificates: map<Id, Certificate>
    var suspensions: set<Id>
    var revocations: seq<RevocationRow>
    var snapshots: map<nat, SnapshotRow>

    function View(): Tables
      reads this
    {
      Tables(certificates, suspensions, revocations, snapshots)
    }

    /** The batch of `revoke_certificate`, statement by statement; a key collision in the
        fifth statement rolls the first four back. */
    method RevokeCertificate(id: Id, reason: ReasonCode, at: nat, content: RevocationContent)
      returns (committed: bool)
      modifies this
      ensures committed <==> RevokeBatch(old(View()), id, reason, at, content).Some?
      ensures committed ==> RevokeBatch(old(View()), id, reason, at, content) == Some(View())
      ensures !committed ==> View() == old(View())
    {
      if id !in certificates {
        return false;
      }
      var before := View();
      var serial := certificates[id].serial;
      if !certificates[id].revoked {
        certificates := certificates[id := certificates[id].(revoked := true)];
      }
      suspensions := suspensions - {id};
      if certificates[id].revoked && !HasRow(revocations, id) {
        revocations := revocations + [RevocationRow(id, RevocationEntry(serial, at, reason))];
      }
      snapshots := Demoted(snapshots);
      if content.snapshotVersion in snapshots {
        certificates, suspensions, revocations, snapshots :=
          before.certificates, before.suspensions, before.revocations, before.snapshots;
        return false;
      }
      snapshots := snapshots[content.snapshotVersion := SnapshotRow(content, true)];
      assert certificates == before.certificates[id := Certificate(serial, true)];
      committed := true;
    }

    /** The batch of `save_revocation_snapshot`. */
    method SaveRevocationSnapshot(content: RevocationContent) returns (committed: bool)
      modifies this`snapshots
      ensures committed <==> SaveBatch(old(View()), content).Some?
      ensures committed ==> SaveBatch(old(View()), content) == Some(View())
      ensures !committed ==> View() == old(View())
    {
      var before := snapshots;
      snapshots := Demoted(snapshots);
      if content.snapshotVersion in snapshots {
        snapshots := before;
        return false;
      }
      snapshots := snapshots[content.snapshotVersion := SnapshotRow(content, true)];
      committed := true;
    }

    /** The batch of `set_certificate_suspension`: it looks at no status, so a stale run may
        suspend a certificate that was revoked since. */
    method WriteSuspension(id: Id, suspend: bool)
      modifies this`suspensions
      ensures View() == SuspensionBatch(old(View()), id, suspend)
      ensures StatusOf(old(View()), id) == Some(PermanentlyRevoked) ==>
        StatusOf(View(), id) == Some(PermanentlyRevoked)
    {
      if suspend {
        suspensions := suspensions + {id};
      } else {
        suspensions := suspensions - {id};
      }
    }

    /** `set_certificate_suspension` run without interruption: revoked stays untouched. */
    method SetCertificateSuspension(id: Id, suspend: bool) returns (status: Option<EffectiveStatus>)
      modifies this`suspensions
      ensures View() == if StatusOf(old(View()), id) == Some(Usable) || StatusOf(old(View()), id) == Some(Suspended)
                        then SuspensionBatch(old(View()), id, suspend) else old(View())
      ensures status == match StatusOf(old(View()), id)
                        case None => None
                        case Some(PermanentlyRevoked) => Some(PermanentlyRevoked)
                        case Some(_) => Some(if suspend then Suspended else Usable)
    {
      status := StatusOf(View(), id);
      if status.None? || status == Some(PermanentlyRevoked) {
        return;
      }
      WriteSuspension(id, suspend);
      status := StatusOf(View(), id);
    }
  }

  // ----- The cumulative list of `build_revocation_snapshot` -----

  /** The cumulative list as a function of the table; None is the conflict answer. */
  function CumulativeList(rows: seq<RevocationRow>, additional: Option<RevocationEntry>): Option<seq<RevocationEntry>> {
    match additional
    case None => Some(Listing(rows))
    case Some(entry) =>
      if exists row :: row in rows && row.entry.serial == entry.serial then None
      else Some(SortBy(SerialOf, Entries(rows) + [entry]))
  }

  /** Grows a vector from the rows, refuses a second entry for one serial, then sorts. */
  method BuildList(rows: seq<RevocationRow>, additional: Option<RevocationEntry>)
    returns (r: Option<seq<RevocationEntry>>)
    ensures r == CumulativeList(rows, additional)
    ensures r.None? <==>
      additional.Some? && exists row :: row in rows && row.entry.serial == additional.value.serial
    ensures r.Some? ==> SortedBy(SerialOf, r.value)
    ensures r.Some? ==> forall entry :: entry in r.value <==>
      (exists row :: row in rows && row.entry == entry) || additional == Some(entry)
  {
    var revocations := [];
    for i := 0 to |rows|
      invariant revocations == Entries(rows[..i])
    {
      revocations := revocations + [rows[i].entry];
      assert rows[..i + 1] == rows[..i] + [rows[i]];
    }
    assert rows[..|rows|] == rows;
    if additional.Some? {
      if exists i :: 0 <= i < |revocations| && revocations[i].serial == additional.value.serial {
        var i :| 0 <= i < |revocations| && revocations[i].serial == additional.value.serial;
        assert rows[i] in rows;
        return None;
      }
      forall row | row in rows ensures row.entry.serial != additional.value.serial {
        var i :| 0 <= i < |rows| && rows[i] == row;
        assert revocations[i] == row.entry;
      }
      revocations := revocations + [additional.value];
    }
    ListMembers(rows, revocations, additional);
    SortSorts(SerialOf, revocations);
    revocations := SortBy(SerialOf, revocations);
    r := Some(revocations);
  }

  lemma ListMembers(rows: seq<RevocationRow>, list: seq<RevocationEntry>, additional: Option<RevocationEntry>)
    requires list == Entries(rows) + if additional.Some? then [additional.value] else []
    ensures forall entry :: entry in SortBy(SerialOf, list) <==>
      (exists row :: row in rows && row.entry == entry) || additional == Some(entry)
  {
    SortKeepsMembers(SerialOf, list);
    forall row | row in rows ensures row.entry in Entries(rows) {
      var i :| 0 <= i < |rows| && rows[i] == row;
      assert Entries(rows)[i] == row.entry;
    }
    forall entry | entry in Entries(rows) ensures exists row :: row in rows && row.entry == entry {
      var i :| 0 <= i < |Entries(rows)| && Entries(rows)[i] == entry;
      assert rows[i] in rows;
    }
  }
}
