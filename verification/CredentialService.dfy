/**
 The credential service as an object: it drives the ledger and the secret store one call at a time, and each of
 its operations is proved to do what the corresponding machine function says.
 */
module CredentialService {
  import opened Sequences
  import opened CredentialLedger
  import opened CredentialSafety

  datatype Outcome = OrphanRemoved | SecretMissing | SecretDeleted

  datatype Receipt = Receipt(profile: ProfileId, version: VersionId, outcome: Outcome)

  /** What recovery reports about one row, given whether its secret is still stored. */
  function Report(row: Version, v: VersionId, stored: bool): seq<Receipt> {
    match row.state
    case Allocated => [Receipt(row.profile, v, OrphanRemoved)]
    case Adopted => if stored then [] else [Receipt(row.profile, v, SecretMissing)]
    case DeletePending => [Receipt(row.profile, v, SecretDeleted)]
    case _ => []
  }

  function Reports(vs: seq<VersionId>, rows: map<VersionId, Version>, secrets: map<VersionId, string>): seq<Receipt>
    requires forall i :: 0 <= i < |vs| ==> vs[i] in rows
  {
    if vs == [] then [] else Report(rows[vs[0]], vs[0], vs[0] in secrets) + Reports(vs[1..], rows, secrets)
  }

  /** When a receipt of the given outcome is due for a version. */
  predicate Due(row: Version, stored: bool, outcome: Outcome) {
    match outcome
    case OrphanRemoved => row.state == Allocated
    case SecretMissing => row.state == Adopted && !stored
    case SecretDeleted => row.state == DeletePending
  }

  lemma {:induction false} ReceiptsAreDue(
    vs: seq<VersionId>, rows: map<VersionId, Version>, secrets: map<VersionId, string>, r: Receipt)
    requires forall i :: 0 <= i < |vs| ==> vs[i] in rows
    ensures r in Reports(vs, rows, secrets) <==>
              && r.version in vs && r.profile == rows[r.version].profile
              && Due(rows[r.version], r.version in secrets, r.outcome)
    decreases |vs|
  {
    hide Report, Due;
    if vs != [] {
      ReceiptsAreDue(vs[1..], rows, secrets, r);
      ReportIsDue(rows[vs[0]], vs[0], vs[0] in secrets, r);
      assert vs == [vs[0]] + vs[1..];
      assert r.version in vs <==> r.version == vs[0] || r.version in vs[1..];
    }
  }

  lemma ReportIsDue(row: Version, v: VersionId, stored: bool, r: Receipt)
    ensures r in Report(row, v, stored) <==> r.version == v && r.profile == row.profile && Due(row, stored, r.outcome)
  {
  }

  /**
   The receipts of a completed recovery: one that an orphan was removed for each version that was allocated and is
   cleaned up now, one that a secret was deleted for each that is deleted now, and one that a secret is missing for each
   adopted version without one; and no others.
   */
  lemma ReceiptsTellRecovery(w: World, fuel: nat, r: Receipt)
    requires Inv(w) && !Perform(w, Recovery(fuel)).halted
    requires forall i :: 0 <= i < |Pick(w.order, CandidatesOf(w))| ==> Pick(w.order, CandidatesOf(w))[i] in w.versions
    ensures var w' := Perform(w, Recovery(fuel)).world;
            r in Reports(Pick(w.order, CandidatesOf(w)), w.versions, w.secrets) <==>
              && r.version in w.versions && r.version in w'.versions && r.profile == w.versions[r.version].profile
              && match r.outcome
                 case OrphanRemoved =>
                   w.versions[r.version].state != OrphanCleaned && w'.versions[r.version].state == OrphanCleaned
                 case SecretDeleted =>
                   w.versions[r.version].state != Deleted && w'.versions[r.version].state == Deleted
                 case SecretMissing => w'.versions[r.version].state == Adopted && r.version !in w'.secrets
  {
    var vs := Pick(w.order, CandidatesOf(w));
    Candidates(w);
    ReceiptsAreDue(vs, w.versions, w.secrets, r);
    CompletedRecovery(w, fuel);
    var w' := Perform(w, Recovery(fuel)).world;
    hide *;
    if r.version in w.versions {
      var row := w.versions[r.version];
      assert w'.versions[r.version].state == Recovered(row.state);
      DueIff(row, r.version in w.secrets, r.version in w'.secrets, r.outcome);
    }
  }

  /** A receipt is due where recovery changes the state of a row, and where it finds a secret missing. */
  lemma DueIff(row: Version, stored: bool, kept: bool, outcome: Outcome)
    requires kept <==> stored && !CleanedUp(row.state)
    ensures Due(row, stored, outcome) <==>
            match outcome
            case OrphanRemoved => row.state != OrphanCleaned && Recovered(row.state) == OrphanCleaned
            case SecretDeleted => row.state != Deleted && Recovered(row.state) == Deleted
            case SecretMissing => Recovered(row.state) == Adopted && !kept
    ensures Due(row, stored, outcome) ==> row.state in {Allocated, Adopted, DeletePending}
  {
  }

  /** Recovering one version leaves the secrets of all the others alone. */
  lemma OthersKeepSecrets(m: Machine, v: VersionId, row: Version, u: VersionId)
    requires u != v
    ensures u in RecoverOne(m, v, row).world.secrets <==> u in m.world.secrets
  {
    match row.state
    case Allocated =>
    case Adopted =>
    case DeletePending =>
    case _ =>
  }

  lemma RestKeepSecrets(m: Machine, vs: seq<VersionId>, i: nat, row: Version)
    requires i < |vs| && DistinctIds(vs)
    ensures forall k :: i < k < |vs| ==>
              (vs[k] in RecoverOne(m, vs[i], row).world.secrets <==> vs[k] in m.world.secrets)
  {
    forall k | i < k < |vs|
      ensures vs[k] in RecoverOne(m, vs[i], row).world.secrets <==> vs[k] in m.world.secrets
    {
      OthersKeepSecrets(m, vs[i], row, vs[k]);
    }
  }

  lemma RecoverIsLoop(m: Machine)
    requires Inv(m.world)
    ensures var vs := Pick(m.world.order, CandidatesOf(m.world));
            && DistinctIds(vs) && (forall i :: 0 <= i < |vs| ==> vs[i] in m.world.versions)
            && Recover(m) == RecoverVersions(m, vs, m.world.versions)
  {
    PickDistinct(m.world.order, CandidatesOf(m.world));
  }

  lemma RecoverStep(m: Machine, vs: seq<VersionId>, i: nat, rows: map<VersionId, Version>)
    requires i < |vs| && forall k :: 0 <= k < |vs| ==> vs[k] in rows
    ensures RecoverVersions(m, vs[i..], rows) == RecoverVersions(RecoverOne(m, vs[i], rows[vs[i]]), vs[i + 1..], rows)
  {
    hide RecoverOne;
    assert vs[i..][0] == vs[i] && vs[i..][1..] == vs[i + 1..];
  }

  lemma ReportStep(vs: seq<VersionId>, i: nat, rows: map<VersionId, Version>, secrets: map<VersionId, string>)
    requires i < |vs| && forall k :: 0 <= k < |vs| ==> vs[k] in rows
    ensures Reports(vs[i..], rows, secrets)
         == Report(rows[vs[i]], vs[i], vs[i] in secrets) + Reports(vs[i + 1..], rows, secrets)
  {
    assert vs[i..][0] == vs[i] && vs[i..][1..] == vs[i + 1..];
  }

  /** Nothing is left to do at the end of a list. */
  lemma LoopsEnd(m: Machine, vs: seq<VersionId>, i: nat, rows: map<VersionId, Version>, secrets: map<VersionId, string>)
    requires i == |vs|
    ensures DeleteVersions(m, vs[i..]) == m && RecoverVersions(m, vs[i..], rows) == m &&
            Reports(vs[i..], rows, secrets) == []
  {
  }

  lemma DeleteStep(m: Machine, vs: seq<VersionId>, i: nat)
    requires i < |vs|
    ensures DeleteVersions(m, vs[i..]) ==
              DeleteVersions(Do(Do(m, DeleteSecret(vs[i])), MarkDeleted(vs[i])), vs[i + 1..])
  {
    hide Do;
    assert vs[i..][0] == vs[i] && vs[i..][1..] == vs[i + 1..];
  }

  class ProviderCredentialService {
    var world: World
    /** How many more calls happen before a crash. */
    var fuel: nat
    /** A call raised or the process crashed. */
    var halted: bool

    function State(): Machine
      reads this
    {
      Machine(world, fuel, halted)
    }

    constructor (w: World, calls: nat)
      ensures State() == Machine(w, calls, false)
    {
      world, fuel, halted := w, calls, false;
    }

    method Step(call: Call)
      modifies this
      ensures State() == Do(old(State()), call)
    {
      if halted { return; }
      if fuel == 0 || !Allowed(world, call) {
        halted := true;
        return;
      }
      world, fuel := Effect(world, call), fuel - 1;
    }

    method Adoption(v: VersionId, secret: string, stored: string)
      modifies this
      ensures State() == WriteVerifyAdopt(old(State()), v, secret, stored)
    {
      if secret == "" {
        halted := true;
        return;
      }
      Step(Write(v, stored));
      Step(Read(v));
      if halted { return; }
      if v !in world.secrets || !ReadBackMatches(world.secrets[v], secret) {
        halted := true;
        return;
      }
      Step(Adopt(v));
    }

    method Create(p: ProfileId, v: VersionId, secret: string, stored: string)
      modifies this
      ensures State() == CreateProfile(old(State()), p, v, secret, stored)
      ensures old(Inv(world)) && !old(halted) ==> Inv(world)
    {
      ghost var start := State();
      if old(Inv(world)) && !halted { CreationPreserves(start, p, v, secret, stored); }
      Step(AllocateProfile(p, v));
      Adoption(v, secret, stored);
    }

    method RotateSecret(p: ProfileId, v: VersionId, secret: string, stored: string)
      modifies this
      ensures State() == Rotate(old(State()), p, v, secret, stored)
      ensures old(Inv(world)) && !old(halted) ==> Inv(world)
    {
      ghost var start := State();
      if old(Inv(world)) && !halted { CreationPreserves(start, p, v, secret, stored); }
      Step(AllocateRotation(p, v));
      Adoption(v, secret, stored);
    }

    method Delete(p: ProfileId)
      modifies this
      ensures State() == DeleteProfile(old(State()), p)
      ensures old(Inv(world)) ==> Inv(world)
    {
      hide Inv, Do, DeleteVersions, Pick, PendingOf;
      ghost var start := State();
      if old(Inv(world)) { DeletionPreserves(start, p); }
      Step(StageDelete(p));
      if halted { return; }
      var vs := Pick(world.order, PendingOf(world, p));
      ghost var staged := State();
      var i := 0;
      while i < |vs|
        invariant 0 <= i <= |vs|
        invariant DeleteVersions(State(), vs[i..]) == DeleteVersions(staged, vs)
      {
        DeleteStep(State(), vs, i);
        Step(DeleteSecret(vs[i]));
        Step(MarkDeleted(vs[i]));
        i := i + 1;
        if halted {
          HaltedStays(State(), vs[i..]);
          return;
        }
      }
      LoopsEnd(State(), vs, i, map[], map[]);
    }

    method RecoverVersion(v: VersionId, row: Version) returns (receipts: seq<Receipt>)
      modifies this
      ensures State() == RecoverOne(old(State()), v, row)
      ensures !halted ==> receipts == Report(row, v, v in old(world.secrets))
    {
      receipts := [];
      if row.state.Allocated? {
        Step(Contains(v));
        if v in world.secrets {
          Step(DeleteSecret(v));
        }
        Step(MarkOrphanCleaned(v));
        receipts := [Receipt(row.profile, v, OrphanRemoved)];
      } else if row.state.Adopted? {
        Step(Contains(v));
        if v !in world.secrets {
          Step(MarkUnavailable(row.profile));
          receipts := [Receipt(row.profile, v, SecretMissing)];
        }
      } else if row.state.DeletePending? {
        Step(DeleteSecret(v));
        Step(MarkDeleted(v));
        receipts := [Receipt(row.profile, v, SecretDeleted)];
      }
    }

    /** A completed recovery reports every version it cleaned up and every adopted version without a secret. */
    method RecoverAll() returns (receipts: seq<Receipt>)
      requires Inv(world) && !halted
      modifies this
      ensures State() == Recover(old(State()))
      ensures Inv(world)
      ensures !halted ==>
        receipts == Reports(Pick(old(world.order), CandidatesOf(old(world))), old(world.versions), old(world.secrets))
    {
      hide Inv, RecoverOne, Report, Reports, RecoverVersions, Recover, Pick, CandidatesOf;
      ghost var start := State();
      RecoveryPreserves(start);
      ghost var secrets := world.secrets;
      var vs, rows := Pick(world.order, CandidatesOf(world)), world.versions;
      RecoverIsLoop(start);
      receipts := [];
      var i := 0;
      assert vs[0..] == vs;
      while i < |vs|
        invariant 0 <= i <= |vs| && !halted
        invariant RecoverVersions(State(), vs[i..], rows) == RecoverVersions(start, vs, rows)
        invariant forall k :: i <= k < |vs| ==> (vs[k] in world.secrets <==> vs[k] in secrets)
        invariant receipts + Reports(vs[i..], rows, secrets) == Reports(vs, rows, secrets)
      {
        ghost var before := State();
        var one := RecoverVersion(vs[i], rows[vs[i]]);
        RecoverStep(before, vs, i, rows);
        ReportStep(vs, i, rows, secrets);
        i := i + 1;
        if halted {
          HaltedRecovery(State(), vs[i..], rows);
          return;
        }
        RestKeepSecrets(before, vs, i - 1, rows[vs[i - 1]]);
        Regroup(receipts, one, Reports(vs[i..], rows, secrets));
        receipts := receipts + one;
      }
      LoopsEnd(State(), vs, i, rows, secrets);
    }
  }

}
