/**
 What the credential operations guarantee in every run, however each of them is cut short.
 */
module CredentialSafety {
  import opened Wrappers
  import opened CredentialLedger

  // ----- the invariant

  ghost predicate DistinctIds(vs: seq<VersionId>) {
    forall i, j :: 0 <= i < j < |vs| ==> vs[i] != vs[j]
  }

  ghost predicate Indexed(w: World) {
    && (forall v :: v in w.versions <==> v in w.order)
    && DistinctIds(w.order)
    && (forall v :: v in w.versions ==> w.versions[v].profile in w.profiles)
  }

  /** A secret is stored only under a version the ledger allocated first and has not closed. */
  ghost predicate SecretsAccounted(w: World) {
    forall v :: v in w.secrets ==> v in w.versions && !Closed(w.versions[v].state)
  }

  /** The active version of a profile is its one adopted version. */
  ghost predicate ActiveIsAdopted(w: World) {
    && (forall p :: p in w.profiles && w.profiles[p].active.Some? ==>
          w.profiles[p].active.value in w.versions && w.versions[w.profiles[p].active.value] == Version(p, Adopted))
    && (forall v :: v in w.versions && w.versions[v].state.Adopted? && w.versions[v].profile in w.profiles ==>
          w.profiles[w.versions[v].profile].active == Some(v))
  }

  /** Nothing of a profile under deletion can be adopted any more. */
  ghost predicate DisabledIsClosing(w: World) {
    forall v ::
      v in w.versions && w.versions[v].profile in w.profiles && w.profiles[w.versions[v].profile].status.Disabled?
      ==> Closed(w.versions[v].state) || w.versions[v].state.DeletePending?
  }

  /** A deletion that is under way keeps its profile disabled. */
  ghost predicate PendingIsDisabled(w: World) {
    forall v ::
      v in w.versions && w.versions[v].profile in w.profiles && w.versions[v].state.DeletePending?
      ==> w.profiles[w.versions[v].profile].status.Disabled?
  }

  ghost predicate Inv(w: World) {
    Indexed(w) && SecretsAccounted(w) && ActiveIsAdopted(w) && DisabledIsClosing(w) && PendingIsDisabled(w)
  }

  /** When a call may be made without breaking the invariant. */
  predicate Safe(w: World, call: Call) {
    match call
    case Write(v, _) => v in w.versions && !Closed(w.versions[v].state)
    case MarkOrphanCleaned(v) => v !in w.secrets
    case MarkDeleted(v) => v !in w.secrets
    case _ => true
  }

  lemma AllocationPreserves(w: World, call: Call)
    requires Inv(w) && Allowed(w, call) && (call.AllocateProfile? || call.AllocateRotation?)
    ensures Inv(Effect(w, call))
  {
    AllocatedRows(w, call);
    hide Effect, Allowed;
    IndexedSnoc(w, Effect(w, call), call.version, call.profile);
    ProfilesOfAllocated(w, Effect(w, call), call.version, call.profile);
    hide Indexed, ActiveIsAdopted, DisabledIsClosing, PendingIsDisabled;
  }

  lemma ProfilesOfAllocated(w: World, w': World, v: VersionId, p: ProfileId)
    requires Inv(w) && v !in w.versions && w'.versions == w.versions[v := Version(p, Allocated)]
    requires if p in w.profiles then w'.profiles == w.profiles && !w.profiles[p].status.Disabled?
             else w'.profiles == w.profiles[p := Profile(Staging, None)]
    ensures ActiveIsAdopted(w') && DisabledIsClosing(w') && PendingIsDisabled(w')
  {
  }

  /** What allocation adds: a version, and for a new profile the profile without an active version. */
  lemma AllocatedRows(w: World, call: Call)
    requires Allowed(w, call) && (call.AllocateProfile? || call.AllocateRotation?)
    ensures var w', v, p := Effect(w, call), call.version, call.profile;
            && v !in w.versions && w'.versions == w.versions[v := Version(p, Allocated)]
            && w'.order == w.order + [v] && w'.secrets == w.secrets && p in w'.profiles
            && if call.AllocateProfile? then p !in w.profiles && w'.profiles == w.profiles[p := Profile(Staging, None)]
               else w'.profiles == w.profiles && !w.profiles[p].status.Disabled?
  {
  }

  lemma IndexedSnoc(w: World, w': World, v: VersionId, p: ProfileId)
    requires Indexed(w) && v !in w.versions && w'.versions == w.versions[v := Version(p, Allocated)]
    requires w'.order == w.order + [v] && p in w'.profiles && forall q :: q in w.profiles ==> q in w'.profiles
    ensures Indexed(w')
  {
    assert forall u :: u in w'.order <==> u in w.order || u == v;
  }

  lemma StatusPreserves(w: World, p: ProfileId, s: ProfileStatus)
    requires Inv(w) && !s.Disabled? && !AnyPending(w, p)
    ensures Inv(WithStatus(w, p, s))
  {
  }

  lemma AdoptPreserves(w: World, v: VersionId)
    requires Inv(w) && Allowed(w, Adopt(v))
    ensures Inv(AdoptVersion(w, v)) && Adoption(w, AdoptVersion(w, v), v, w.versions[v].profile)
  {
    AdoptedRows(w, v);
    hide AdoptVersion, ActiveIsAdopted, DisabledIsClosing, PendingIsDisabled;
    AdoptedIsActive(w, AdoptVersion(w, v), v, w.versions[v].profile);
    AdoptedIsEnabled(w, AdoptVersion(w, v), v, w.versions[v].profile);
    AdoptedIsNotPending(w, AdoptVersion(w, v), v, w.versions[v].profile);
  }

  /** The version becomes the adopted and active one, the one it replaces is retired, and nothing else changes. */
  ghost predicate Adoption(w: World, w': World, v: VersionId, p: ProfileId) {
    && v in w.versions && p in w.profiles && w.versions[v] == Version(p, Allocated)
    && w'.order == w.order && w'.secrets == w.secrets
    && w'.profiles == w.profiles[p := Profile(Enabled, Some(v))]
    && w'.versions.Keys == w.versions.Keys && w'.versions[v] == Version(p, Adopted)
    && (forall u :: u in w.versions && u != v ==>
          w'.versions[u] == if w.profiles[p].active == Some(u) then Version(p, Retired) else w.versions[u])
  }

  lemma AdoptedIsActive(w: World, w': World, v: VersionId, p: ProfileId)
    requires Inv(w) && Adoption(w, w', v, p)
    ensures ActiveIsAdopted(w')
  {
    forall q | q in w'.profiles && w'.profiles[q].active.Some?
      ensures w'.profiles[q].active.value in w'.versions
      ensures w'.versions[w'.profiles[q].active.value] == Version(q, Adopted)
    {
      if q != p { assert w.versions[w.profiles[q].active.value] == Version(q, Adopted); }
    }
  }

  lemma AdoptedIsEnabled(w: World, w': World, v: VersionId, p: ProfileId)
    requires Inv(w) && Adoption(w, w', v, p)
    ensures DisabledIsClosing(w')
  {
  }

  lemma AdoptedIsNotPending(w: World, w': World, v: VersionId, p: ProfileId)
    requires Inv(w) && Adoption(w, w', v, p)
    ensures PendingIsDisabled(w')
  {
  }

  /** Adoption touches the adopted version, the version it replaces and the profile. */
  lemma AdoptedRows(w: World, v: VersionId)
    requires Inv(w) && Allowed(w, Adopt(v))
    ensures Adoption(w, AdoptVersion(w, v), v, w.versions[v].profile)
  {
  }

  /** Closing a version that holds no secret and is not active. */
  lemma ClosingPreserves(w: World, v: VersionId, s: VersionState)
    requires Inv(w) && v in w.versions && !w.versions[v].state.Adopted? && v !in w.secrets && Closed(s)
    ensures Inv(WithState(w, v, s))
  {
  }

  lemma StagePreserves(w: World, p: ProfileId)
    requires Inv(w) && p in w.profiles
    ensures Inv(StagedProfile(w, p))
  {
  }

  lemma CallPreserves(w: World, call: Call)
    requires Inv(w) && Allowed(w, call) && Safe(w, call)
    ensures Inv(Effect(w, call))
  {
    hide Inv;
    match call
    case AllocateProfile(_, _) => AllocationPreserves(w, call);
    case AllocateRotation(_, _) => AllocationPreserves(w, call);
    case Write(v, stored) => StorePreserves(w, call);
    case Read(_) =>
    case Adopt(v) => AdoptPreserves(w, v);
    case Contains(_) =>
    case DeleteSecret(v) => StorePreserves(w, call);
    case MarkOrphanCleaned(v) =>
      if v in w.versions && w.versions[v].state.Allocated? {
        ClosingPreserves(w, v, OrphanCleaned);
        NothingPending(w, v);
        StatusPreserves(WithState(w, v, OrphanCleaned), w.versions[v].profile, CredentialUnavailable);
      }
    case MarkUnavailable(p) =>
      if p in w.profiles && !w.profiles[p].status.Disabled? {
        EnabledHasNonePending(w, p);
        StatusPreserves(w, p, CredentialUnavailable);
      }
    case StageDelete(p) => StagePreserves(w, p);
    case MarkDeleted(v) =>
      if v in w.versions && w.versions[v].state.DeletePending? {
        ClosingPreserves(w, v, Deleted);
        var gone, p := WithState(w, v, Deleted), w.versions[v].profile;
        if !AnyPending(gone, p) { StatusPreserves(gone, p, ProfileDeleted); }
      }
  }

  lemma EnabledHasNonePending(w: World, p: ProfileId)
    requires Inv(w) && p in w.profiles && !w.profiles[p].status.Disabled?
    ensures !AnyPending(w, p)
  {
  }

  /** Nor does a profile with an allocated version, and closing that version makes no difference. */
  lemma NothingPending(w: World, v: VersionId)
    requires Inv(w) && v in w.versions && w.versions[v].state.Allocated?
    ensures !AnyPending(WithState(w, v, OrphanCleaned), w.versions[v].profile)
  {
    EnabledHasNonePending(w, w.versions[v].profile);
  }

  lemma StorePreserves(w: World, call: Call)
    requires Inv(w) && Safe(w, call) && (call.Write? || call.DeleteSecret?)
    ensures Inv(Effect(w, call))
  {
  }

  lemma DoPreserves(m: Machine, call: Call)
    requires Inv(m.world) && (!m.halted ==> Safe(m.world, call))
    ensures Inv(Do(m, call).world)
  {
    hide Inv, Effect, Allowed;
    if !m.halted && m.fuel > 0 && Allowed(m.world, call) { CallPreserves(m.world, call); }
  }

  // ----- creation and rotation

  /** The version was just allocated by the running operation. */
  predicate JustAllocated(m: Machine, v: VersionId) {
    !m.halted ==> v in m.world.versions && m.world.versions[v].state.Allocated?
  }

  lemma WriteVerifyAdoptPreserves(m: Machine, v: VersionId, secret: string, stored: string)
    requires Inv(m.world) && JustAllocated(m, v)
    ensures Inv(WriteVerifyAdopt(m, v, secret, stored).world)
  {
    hide Inv;
    if secret != "" {
      DoPreserves(m, Write(v, stored));
      DoPreserves(Do(m, Write(v, stored)), Read(v));
      DoPreserves(Do(Do(m, Write(v, stored)), Read(v)), Adopt(v));
    }
  }

  lemma StartPreserves(m: Machine, call: Call)
    requires Inv(m.world) && (call.AllocateProfile? || call.AllocateRotation?)
    ensures Inv(Do(m, call).world)
    ensures !m.halted ==> JustAllocated(Do(m, call), call.version)
    ensures m.halted ==> Do(m, call) == m
  {
    hide Inv;
    DoPreserves(m, call);
  }

  lemma CreationPreserves(m: Machine, p: ProfileId, v: VersionId, secret: string, stored: string)
    requires Inv(m.world) && !m.halted
    ensures Inv(CreateProfile(m, p, v, secret, stored).world)
    ensures Inv(Rotate(m, p, v, secret, stored).world)
  {
    hide Inv, WriteVerifyAdopt, Do, JustAllocated;
    StartPreserves(m, AllocateProfile(p, v));
    WriteVerifyAdoptPreserves(Do(m, AllocateProfile(p, v)), v, secret, stored);
    StartPreserves(m, AllocateRotation(p, v));
    WriteVerifyAdoptPreserves(Do(m, AllocateRotation(p, v)), v, secret, stored);
  }

  /** A version is adopted only after the store gave back exactly the secret that was to be written, and it is ASCII. */
  lemma AdoptionFollowsReadBack(m: Machine, v: VersionId, secret: string, stored: string)
    requires Inv(m.world) && !m.halted && JustAllocated(m, v)
    ensures var done := WriteVerifyAdopt(m, v, secret, stored);
            && v in done.world.versions
            && (done.world.versions[v].state.Adopted? <==>
                 secret != "" && IsAscii(secret) && stored == secret && m.fuel >= 3)
            && (done.world.versions[v].state.Adopted? <==> !done.halted)
            && (done.world.versions[v].state.Adopted? ==>
                  && v in done.world.secrets && done.world.secrets[v] == secret
                  && done.world.profiles[done.world.versions[v].profile] == Profile(Enabled, Some(v)))
            && (!done.world.versions[v].state.Adopted? ==>
                 done.world.versions == m.world.versions && done.world.profiles == m.world.profiles)
  {
    assert m.world.versions[v].profile in m.world.profiles;
    hide Inv, IsAscii;
    var written := Do(m, Write(v, stored));
    assert m.fuel > 0 ==> written == Machine(m.world.(secrets := m.world.secrets[v := stored]), m.fuel - 1, false);
    assert !written.halted && written.fuel > 0 ==> Do(written, Read(v)) == written.(fuel := written.fuel - 1);
  }

  lemma AsciiIff(s: string)
    ensures IsAscii(s) <==> !exists c :: c in s && c as int > 127
  {
    if k :| 0 <= k < |s| && s[k] as int > 127 { assert s[k] in s; }
  }

  /**
   A secret with a character outside ASCII is never adopted, however faithful the store: it stays behind under an
   allocated version until recovery.
   */
  lemma OtherSecretsAreNeverAdopted(m: Machine, v: VersionId, secret: string)
    requires Inv(m.world) && !m.halted && JustAllocated(m, v) && !IsAscii(secret) && m.fuel >= 3
    ensures var done := WriteVerifyAdopt(m, v, secret, secret);
            && done.halted && v in done.world.versions && done.world.versions[v].state.Allocated?
            && v in done.world.secrets && done.world.secrets[v] == secret
  {
    assert secret != "";
  }

  // ----- deletion

  lemma DeleteOnePreserves(m: Machine, v: VersionId)
    requires Inv(m.world)
    ensures Inv(Do(Do(m, DeleteSecret(v)), MarkDeleted(v)).world)
  {
    hide Inv;
    DoPreserves(m, DeleteSecret(v));
    DoPreserves(Do(m, DeleteSecret(v)), MarkDeleted(v));
  }

  lemma {:induction false} DeleteVersionsPreserves(m: Machine, vs: seq<VersionId>)
    requires Inv(m.world)
    ensures Inv(DeleteVersions(m, vs).world)
    decreases |vs|
  {
    hide Inv, Do;
    if vs != [] {
      DeleteOnePreserves(m, vs[0]);
      DeleteVersionsPreserves(Do(Do(m, DeleteSecret(vs[0])), MarkDeleted(vs[0])), vs[1..]);
    }
  }

  lemma DeletionPreserves(m: Machine, p: ProfileId)
    requires Inv(m.world)
    ensures Inv(DeleteProfile(m, p).world)
  {
    hide Inv, Do;
    DoPreserves(m, StageDelete(p));
    var staged := Do(m, StageDelete(p));
    if !staged.halted { DeleteVersionsPreserves(staged, Pick(staged.world.order, PendingOf(staged.world, p))); }
  }

  lemma {:induction false} HaltedStays(m: Machine, vs: seq<VersionId>)
    requires m.halted
    ensures DeleteVersions(m, vs) == m
    decreases |vs|
  {
    if vs != [] { HaltedStays(m, vs[1..]); }
  }

  /** Only the rows, secrets and status that the deletion of `v` names may change. */
  predicate SameExcept(w: World, w': World, v: VersionId, p: ProfileId) {
    && w'.order == w.order
    && w'.secrets == w.secrets - {v}
    && w'.versions.Keys == w.versions.Keys
    && (forall u :: u in w.versions && u != v ==> w'.versions[u] == w.versions[u])
    && w'.profiles.Keys == w.profiles.Keys
    && (forall q :: q in w.profiles && q != p ==> w'.profiles[q] == w.profiles[q])
  }

  lemma DeleteOneDone(m: Machine, v: VersionId)
    requires v in m.world.versions && m.world.versions[v].state.DeletePending? &&
             m.world.versions[v].profile in m.world.profiles
    requires !Do(Do(m, DeleteSecret(v)), MarkDeleted(v)).halted
    ensures var w, w' := m.world, Do(Do(m, DeleteSecret(v)), MarkDeleted(v)).world;
            var p := w.versions[v].profile;
            && SameExcept(w, w', v, p)
            && w'.versions[v] == Version(p, Deleted)
            && w'.profiles[p].active == w.profiles[p].active
            && w'.profiles[p].status == if PendingOf(w, p) == {v} then ProfileDeleted else w.profiles[p].status
  {
    var w, p := m.world, m.world.versions[v].profile;
    var gone := WithState(w.(secrets := w.secrets - {v}), v, Deleted);
    assert AnyPending(gone, p) <==> PendingOf(w, p) != {v} by {
      if u :| u in gone.versions && gone.versions[u] == Version(p, DeletePending) {
        assert u in PendingOf(w, p) && u != v;
      }
      if PendingOf(w, p) != {v} {
        assert v in PendingOf(w, p);
        var u :| u in PendingOf(w, p) && u != v;
        assert gone.versions[u] == Version(p, DeletePending);
      }
    }
  }

  /** A deletion that runs to its end leaves every listed version deleted and without a secret. */
  lemma {:induction false} DeleteVersionsDone(m: Machine, vs: seq<VersionId>, p: ProfileId)
    requires DistinctIds(vs) && p in m.world.profiles
    requires PendingOf(m.world, p) == (set v | v in vs)
    requires !DeleteVersions(m, vs).halted
    ensures var w, w' := m.world, DeleteVersions(m, vs).world;
            && PendingOf(w', p) == {} && w'.order == w.order
            && w'.secrets == w.secrets - PendingOf(w, p)
            && w'.versions.Keys == w.versions.Keys
            && (forall v :: v in w.versions ==>
                  w'.versions[v] == (if v in PendingOf(w, p) then Version(p, Deleted) else w.versions[v]))
            && w'.profiles == w.profiles[
                 p := if vs == [] then w.profiles[p] else Profile(ProfileDeleted, w.profiles[p].active)]
    decreases |vs|
  {
    hide Do;
    if vs != [] {
      var v := vs[0];
      var next := Do(Do(m, DeleteSecret(v)), MarkDeleted(v));
      if next.halted { HaltedStays(next, vs[1..]); }
      assert v in PendingOf(m.world, p);
      DeleteOneDone(m, v);
      OneFewerPending(m.world, next.world, vs, p);
      DeleteVersionsDone(next, vs[1..], p);
      assert vs[1..] == [] <==> PendingOf(m.world, p) == {v} by {
        if vs[1..] != [] { assert vs[1] in PendingOf(m.world, p); }
        if PendingOf(m.world, p) != {v} { var u :| u in PendingOf(m.world, p) && u != v; DeletedOnce(vs, u); }
      }
    }
  }

  lemma OneFewerPending(w: World, w': World, vs: seq<VersionId>, p: ProfileId)
    requires DistinctIds(vs) && vs != [] && PendingOf(w, p) == (set v | v in vs)
    requires w'.versions.Keys == w.versions.Keys &&
             (forall u :: u in w.versions && u != vs[0] ==> w'.versions[u] == w.versions[u])
    requires vs[0] in w'.versions && w'.versions[vs[0]] == Version(p, Deleted)
    ensures PendingOf(w', p) == (set v | v in vs[1..])
  {
    forall u ensures u in PendingOf(w', p) <==> u in vs[1..] {
      DeletedOnce(vs, u);
      assert u in PendingOf(w, p) <==> u in vs;
    }
  }

  lemma DeletedOnce(vs: seq<VersionId>, u: VersionId)
    requires DistinctIds(vs) && vs != []
    ensures u in vs[1..] <==> u in vs && u != vs[0]
  {
    assert vs == [vs[0]] + vs[1..];
  }

  lemma {:induction false} PickDistinct(order: seq<VersionId>, wanted: set<VersionId>)
    requires DistinctIds(order)
    ensures DistinctIds(Pick(order, wanted))
    decreases |order|
  {
    if order != [] {
      PickDistinct(order[1..], wanted);
      forall i | 0 <= i < |Pick(order[1..], wanted)| ensures Pick(order[1..], wanted)[i] != order[0] {
        DeletedOnce(order, Pick(order[1..], wanted)[i]);
      }
    }
  }

  /** The versions of a profile that deletion finds still open. */
  function OpenOf(w: World, p: ProfileId): set<VersionId> {
    set v | v in w.versions && w.versions[v].profile == p && !Closed(w.versions[v].state)
  }

  /**
   A completed deletion closes every version of the profile and removes their secrets.  The profile itself is
   marked deleted exactly when some version was still open; otherwise it stays disabled, whatever the receipt says.
   */
  lemma CompletedDeletion(w: World, p: ProfileId, fuel: nat)
    requires Inv(w) && !Perform(w, Deletion(p, fuel)).halted
    ensures var w' := Perform(w, Deletion(p, fuel)).world;
            && p in w'.profiles && OpenOf(w', p) == {}
            && w'.secrets == w.secrets - OpenOf(w, p)
            && (forall v :: v in w.versions && w.versions[v].profile == p ==> v !in w'.secrets)
            && (w'.profiles[p].status.ProfileDeleted? <==> OpenOf(w, p) != {})
            && (w'.profiles[p].status.Disabled? <==> OpenOf(w, p) == {})
  {
    hide Inv, DeleteVersions;
    var staged := Do(Machine(w, fuel, false), StageDelete(p));
    var vs := Pick(staged.world.order, PendingOf(staged.world, p));
    StagedState(w, p);
    PickDistinct(w.order, OpenOf(w, p));
    PickedSet(w.order, OpenOf(w, p));
    DeleteVersionsDone(staged, vs, p);
    DeletionTotals(w, staged.world, DeleteVersions(staged, vs).world, p);
  }

  lemma StagedState(w: World, p: ProfileId)
    requires Inv(w) && p in w.profiles
    ensures PendingOf(StagedProfile(w, p), p) == OpenOf(w, p)
    ensures DistinctIds(w.order) && forall v :: v in OpenOf(w, p) ==> v in w.order
  {
  }

  lemma PickedSet(order: seq<VersionId>, wanted: set<VersionId>)
    requires forall v :: v in wanted ==> v in order
    ensures (set v | v in Pick(order, wanted)) == wanted
    ensures Pick(order, wanted) == [] <==> wanted == {}
  {
    var picked := Pick(order, wanted);
    assert forall v :: v in wanted ==> v in picked;
    if picked != [] { assert picked[0] in wanted; }
  }

  lemma DeletionTotals(w: World, staged: World, w': World, p: ProfileId)
    requires Inv(w) && p in w.profiles && staged == StagedProfile(w, p)
    requires PendingOf(staged, p) == OpenOf(w, p)
    requires w'.versions.Keys == staged.versions.Keys && w'.secrets == staged.secrets - PendingOf(staged, p)
    requires forall v :: v in staged.versions ==>
               w'.versions[v] == (if v in PendingOf(staged, p) then Version(p, Deleted) else staged.versions[v])
    ensures OpenOf(w', p) == {}
    ensures forall v :: v in w.versions && w.versions[v].profile == p ==> v !in w'.secrets
  {
    forall v | v in w.versions && w.versions[v].profile == p
      ensures Closed(w'.versions[v].state) && v !in w'.secrets
    {
      if Closed(w.versions[v].state) {
        assert v !in w.secrets;
      } else {
        assert v in OpenOf(w, p);
      }
    }
  }

  // ----- recovery

  lemma RecoverOnePreserves(m: Machine, v: VersionId, row: Version)
    requires Inv(m.world)
    ensures Inv(RecoverOne(m, v, row).world)
  {
    hide Inv;
    DoPreserves(m, Contains(v));
    var seen := Do(m, Contains(v));
    match row.state
    case Allocated =>
      var cleared := if v in seen.world.secrets then Do(seen, DeleteSecret(v)) else seen;
      DoPreserves(seen, DeleteSecret(v));
      DoPreserves(cleared, MarkOrphanCleaned(v));
    case Adopted => DoPreserves(seen, MarkUnavailable(row.profile));
    case DeletePending => DeleteOnePreserves(m, v);
    case _ =>
  }

  lemma {:induction false} RecoverVersionsPreserves(m: Machine, vs: seq<VersionId>, rows: map<VersionId, Version>)
    requires Inv(m.world) && forall i :: 0 <= i < |vs| ==> vs[i] in rows
    ensures Inv(RecoverVersions(m, vs, rows).world)
    decreases |vs|
  {
    hide Inv, RecoverOne;
    if vs != [] {
      RecoverOnePreserves(m, vs[0], rows[vs[0]]);
      RecoverVersionsPreserves(RecoverOne(m, vs[0], rows[vs[0]]), vs[1..], rows);
    }
  }

  lemma {:induction false} HaltedRecovery(m: Machine, vs: seq<VersionId>, rows: map<VersionId, Version>)
    requires m.halted && forall i :: 0 <= i < |vs| ==> vs[i] in rows
    ensures RecoverVersions(m, vs, rows) == m
    decreases |vs|
  {
    if vs != [] { HaltedRecovery(m, vs[1..], rows); }
  }

  /** What recovery makes of one ledger row. */
  function Recovered(s: VersionState): VersionState {
    match s
    case Allocated => OrphanCleaned
    case DeletePending => Deleted
    case _ => s
  }

  predicate CleanedUp(s: VersionState) {
    s.Allocated? || s.DeletePending?
  }

  lemma RecoverOneDone(m: Machine, v: VersionId)
    requires v in m.world.versions && m.world.versions[v].state in {Allocated, Adopted, DeletePending}
    requires !RecoverOne(m, v, m.world.versions[v]).halted
    ensures var w, w' := m.world, RecoverOne(m, v, m.world.versions[v]).world;
            && w'.versions == w.versions[v := w.versions[v].(state := Recovered(w.versions[v].state))]
            && w'.secrets == (if CleanedUp(w.versions[v].state) then w.secrets - {v} else w.secrets)
            && w'.order == w.order
  {
    hide Allowed;
    match m.world.versions[v].state
    case Allocated =>
    case Adopted =>
    case DeletePending =>
  }

  /** A recovery that runs to its end handles every candidate and leaves everything else alone. */
  lemma {:induction false} RecoverVersionsDone(m: Machine, vs: seq<VersionId>, rows: map<VersionId, Version>)
    requires DistinctIds(vs) && forall i :: 0 <= i < |vs| ==> vs[i] in rows
    requires forall i :: 0 <= i < |vs| ==>
               vs[i] in m.world.versions && m.world.versions[vs[i]] == rows[vs[i]]
               && rows[vs[i]].state in {Allocated, Adopted, DeletePending}
    requires !RecoverVersions(m, vs, rows).halted
    ensures var w, w' := m.world, RecoverVersions(m, vs, rows).world;
            && w'.versions.Keys == w.versions.Keys
            && (forall v :: v in w.versions ==>
                  w'.versions[v] ==
                    (if v in vs then w.versions[v].(state := Recovered(w.versions[v].state)) else w.versions[v]))
            && (forall v :: v in w'.secrets <==>
                  v in w.secrets && !(v in vs && v in w.versions && CleanedUp(w.versions[v].state)))
    decreases |vs|
  {
    hide RecoverOne;
    if vs != [] {
      var v := vs[0];
      var next := RecoverOne(m, v, rows[v]);
      if next.halted { HaltedRecovery(next, vs[1..], rows); }
      RecoverOneDone(m, v);
      RecoverVersionsDone(next, vs[1..], rows);
      forall u ensures u in vs <==> u == v || u in vs[1..] { DeletedOnce(vs, u); }
      DeletedOnce(vs, v);
    }
  }

  // ----- what recovery makes of the profiles

  predicate AnyAllocated(w: World, p: ProfileId) {
    exists v :: v in w.versions && w.versions[v] == Version(p, Allocated)
  }

  /** One of the versions is adopted and has lost its secret. */
  predicate AnyLost(w: World, vs: seq<VersionId>, p: ProfileId) {
    exists v :: v in vs && v in w.versions && w.versions[v] == Version(p, Adopted) && v !in w.secrets
  }

  /** The status of a profile once recovery has been through the versions. */
  function StatusAfter(w: World, vs: seq<VersionId>, p: ProfileId): ProfileStatus
    requires p in w.profiles
  {
    if AnyPending(w, p) then ProfileDeleted
    else if AnyLost(w, vs, p) || (w.profiles[p].active.None? && AnyAllocated(w, p)) then CredentialUnavailable
    else w.profiles[p].status
  }

  /** Nothing that needs cleaning up is left out. */
  ghost predicate ListsUnclean(w: World, vs: seq<VersionId>) {
    forall v :: v in w.versions && CleanedUp(w.versions[v].state) ==> v in vs
  }

  ghost predicate SameStatusAfter(w: World, vs: seq<VersionId>, w': World, vs': seq<VersionId>) {
    && w'.profiles.Keys == w.profiles.Keys
    && forall p :: p in w.profiles ==>
         w'.profiles[p].active == w.profiles[p].active && StatusAfter(w', vs', p) == StatusAfter(w, vs, p)
  }

  lemma AllocatedStep(w: World, v: VersionId, vs: seq<VersionId>)
    requires Inv(w) && v in w.versions && w.versions[v].state.Allocated? && v !in vs
    ensures SameStatusAfter(w, [v] + vs, OrphanCleanedVersion(w.(secrets := w.secrets - {v}), v), vs)
  {
    var q := w.versions[v].profile;
    var w' := OrphanCleanedVersion(w.(secrets := w.secrets - {v}), v);
    assert AnyAllocated(w, q);
    EnabledHasNonePending(w, q);
    assert w.profiles[q].active.None? ==> !AnyLost(w, [v] + vs, q);
    assert w'.profiles ==
      if w.profiles[q].active.None? then w.profiles[q := Profile(CredentialUnavailable, None)] else w.profiles;
    hide Inv, AnyPending, AnyLost, AnyAllocated, OrphanCleanedVersion, StatusAfter;
    forall p | p in w.profiles
      ensures w'.profiles[p].active == w.profiles[p].active && StatusAfter(w', vs, p) == StatusAfter(w, [v] + vs, p)
    {
      SameOthers(w, w', v, vs, p);
      ClosedStatus(w, w', v, vs, p);
    }
  }

  /** Where one version is closed and no other changes, what is pending, lost or allocated elsewhere stays so. */
  lemma SameOthers(w: World, w': World, v: VersionId, vs: seq<VersionId>, p: ProfileId)
    requires v in w.versions && !w.versions[v].state.Adopted? && w'.versions.Keys == w.versions.Keys
    requires Closed(w'.versions[v].state) && w'.secrets == w.secrets - {v}
    requires forall u :: u in w.versions && u != v ==> w'.versions[u] == w.versions[u]
    ensures AnyLost(w', vs, p) <==> AnyLost(w, [v] + vs, p)
    ensures AnyPending(w', p) ==> AnyPending(w, p)
    ensures AnyPending(w, p) ==> AnyPending(w', p) || w.versions[v] == Version(p, DeletePending)
    ensures AnyAllocated(w', p) ==> AnyAllocated(w, p)
    ensures AnyAllocated(w, p) ==> AnyAllocated(w', p) || w.versions[v] == Version(p, Allocated)
  {
    SameLost(w, w', v, vs, p);
    hide AnyLost;
    if u :| u in w.versions && w.versions[u] == Version(p, DeletePending) && u != v {
      assert w'.versions[u] == Version(p, DeletePending);
    }
    if u :| u in w.versions && w.versions[u] == Version(p, Allocated) && u != v {
      assert w'.versions[u] == Version(p, Allocated);
    }
  }

  lemma SameLost(w: World, w': World, v: VersionId, vs: seq<VersionId>, p: ProfileId)
    requires v in w.versions && !w.versions[v].state.Adopted? && w'.versions.Keys == w.versions.Keys
    requires Closed(w'.versions[v].state) && w'.secrets == w.secrets - {v}
    requires forall u :: u in w.versions && u != v ==> w'.versions[u] == w.versions[u]
    ensures AnyLost(w', vs, p) <==> AnyLost(w, [v] + vs, p)
  {
    if u :| u in [v] + vs && u in w.versions && w.versions[u] == Version(p, Adopted) && u !in w.secrets {
      assert u in vs && w'.versions[u] == Version(p, Adopted);
    }
    if u :| u in vs && u in w'.versions && w'.versions[u] == Version(p, Adopted) && u !in w'.secrets {
      assert u in [v] + vs && w.versions[u] == Version(p, Adopted);
    }
  }

  lemma PendingStep(w: World, v: VersionId, vs: seq<VersionId>)
    requires Inv(w) && v in w.versions && w.versions[v].state.DeletePending? && v !in vs
    ensures SameStatusAfter(w, [v] + vs, DeletedVersion(w.(secrets := w.secrets - {v}), v), vs)
  {
    var q := w.versions[v].profile;
    var w' := DeletedVersion(w.(secrets := w.secrets - {v}), v);
    assert AnyPending(w, q);
    NoneActive(w, q);
    DeletedRow(w, v);
    hide Inv, AnyPending, AnyLost, AnyAllocated, DeletedVersion, StatusAfter;
    forall p | p in w.profiles
      ensures w'.profiles[p].active == w.profiles[p].active && StatusAfter(w', vs, p) == StatusAfter(w, [v] + vs, p)
    {
      SameOthers(w, w', v, vs, p);
      ClosedStatus(w, w', v, vs, p);
    }
  }

  /** The status of one profile is settled by what is pending, lost and allocated. */
  lemma ClosedStatus(w: World, w': World, v: VersionId, vs: seq<VersionId>, p: ProfileId)
    requires p in w.profiles && p in w'.profiles && w'.profiles[p].active == w.profiles[p].active
    requires AnyLost(w', vs, p) <==> AnyLost(w, [v] + vs, p)
    requires
      || (w'.profiles[p].status == w.profiles[p].status
          && (AnyPending(w', p) <==> AnyPending(w, p))
          && (w.profiles[p].active.None? ==> (AnyAllocated(w', p) <==> AnyAllocated(w, p))))
      || (w'.profiles[p].status.ProfileDeleted? && AnyPending(w, p) && !AnyPending(w', p)
          && !AnyLost(w', vs, p) && !AnyAllocated(w', p))
      || (w'.profiles[p].status.CredentialUnavailable? && w.profiles[p].active.None?
          && AnyAllocated(w, p) && !AnyPending(w, p) && !AnyPending(w', p))
    ensures StatusAfter(w', vs, p) == StatusAfter(w, [v] + vs, p)
  {
    hide AnyPending, AnyLost, AnyAllocated;
  }

  lemma DeletedRow(w: World, v: VersionId)
    requires Inv(w) && v in w.versions && w.versions[v].state.DeletePending?
    ensures var w', q := DeletedVersion(w.(secrets := w.secrets - {v}), v), w.versions[v].profile;
            && q in w.profiles && w'.versions == w.versions[v := Version(q, Deleted)] && w'.secrets == w.secrets - {v}
            && w'.profiles ==
                 if AnyPending(w', q) then w.profiles
                 else w.profiles[q := Profile(ProfileDeleted, w.profiles[q].active)]
  {
    var gone, q := WithState(w.(secrets := w.secrets - {v}), v, Deleted), w.versions[v].profile;
    var w' := DeletedVersion(w.(secrets := w.secrets - {v}), v);
    assert gone.versions == w'.versions;
    assert AnyPending(gone, q) <==> AnyPending(w', q);
    hide AnyPending;
  }

  /** A disabled profile has neither an adopted nor an allocated version. */
  lemma NoneActive(w: World, q: ProfileId)
    requires Inv(w) && q in w.profiles && AnyPending(w, q)
    ensures !AnyAllocated(w, q) && forall vs :: !AnyLost(w, vs, q)
  {
    assert w.profiles[q].status.Disabled?;
  }

  lemma AdoptedStep(w: World, v: VersionId, vs: seq<VersionId>)
    requires Inv(w) && v in w.versions && w.versions[v].state.Adopted? && v !in vs
    ensures SameStatusAfter(w, [v] + vs,
                            if v in w.secrets then w else Effect(w, MarkUnavailable(w.versions[v].profile)), vs)
  {
    var q := w.versions[v].profile;
    assert w.profiles[q].active == Some(v) && !w.profiles[q].status.Disabled?;
    EnabledHasNonePending(w, q);
    hide Inv;
    forall p ensures AnyLost(w, [v] + vs, p) <==> AnyLost(w, vs, p) || (p == q && v !in w.secrets) {
      LostSnoc(w, v, vs, p);
    }
    if v !in w.secrets {
      SameRows(w, WithStatus(w, q, CredentialUnavailable), vs);
      hide AnyPending, AnyLost, AnyAllocated;
    }
  }

  lemma LostSnoc(w: World, v: VersionId, vs: seq<VersionId>, p: ProfileId)
    requires v in w.versions && w.versions[v].state.Adopted? && v !in vs
    ensures AnyLost(w, [v] + vs, p) <==> AnyLost(w, vs, p) || (p == w.versions[v].profile && v !in w.secrets)
  {
    if u :| u in vs && u in w.versions && w.versions[u] == Version(p, Adopted) && u !in w.secrets {
      assert u in [v] + vs;
    }
    if p == w.versions[v].profile { assert v in [v] + vs; }
  }

  /** Recovering one version keeps what the profiles will be once all are recovered. */
  lemma RecoverOneKeepsStatus(m: Machine, v: VersionId, vs: seq<VersionId>)
    requires Inv(m.world) && v in m.world.versions && v !in vs
    requires m.world.versions[v].state in {Allocated, Adopted, DeletePending}
    requires !RecoverOne(m, v, m.world.versions[v]).halted
    ensures SameStatusAfter(m.world, [v] + vs, RecoverOne(m, v, m.world.versions[v]).world, vs)
  {
    RecoveredWorld(m, v);
    hide *;
    match m.world.versions[v].state
    case Allocated => AllocatedStep(m.world, v, vs);
    case Adopted => AdoptedStep(m.world, v, vs);
    case DeletePending => PendingStep(m.world, v, vs);
  }

  lemma RecoveredWorld(m: Machine, v: VersionId)
    requires v in m.world.versions && m.world.versions[v].state in {Allocated, Adopted, DeletePending}
    requires !RecoverOne(m, v, m.world.versions[v]).halted
    ensures var w := m.world;
            RecoverOne(m, v, w.versions[v]).world ==
            match w.versions[v].state
            case Allocated => OrphanCleanedVersion(w.(secrets := w.secrets - {v}), v)
            case Adopted => if v in w.secrets then w else Effect(w, MarkUnavailable(w.versions[v].profile))
            case _ => DeletedVersion(w.(secrets := w.secrets - {v}), v)
  {
    hide OrphanCleanedVersion, DeletedVersion;
    var w := m.world;
    if v !in w.secrets { assert w.(secrets := w.secrets - {v}) == w; }
  }

  lemma {:induction false} RecoverVersionsKeepStatus(m: Machine, vs: seq<VersionId>, rows: map<VersionId, Version>)
    requires Inv(m.world) && ListsUnclean(m.world, vs)
    requires DistinctIds(vs) && forall i :: 0 <= i < |vs| ==> vs[i] in rows
    requires forall i :: 0 <= i < |vs| ==>
               vs[i] in m.world.versions && m.world.versions[vs[i]] == rows[vs[i]]
               && rows[vs[i]].state in {Allocated, Adopted, DeletePending}
    requires !RecoverVersions(m, vs, rows).halted
    ensures SameStatusAfter(m.world, vs, RecoverVersions(m, vs, rows).world, [])
    ensures var w' := RecoverVersions(m, vs, rows).world;
            forall p :: p in w'.profiles ==> StatusAfter(w', [], p) == w'.profiles[p].status
    decreases |vs|
  {
    hide Inv, RecoverOne, StatusAfter;
    if vs == [] {
      NothingUnclean(m.world);
    } else {
      var v := vs[0];
      var next := RecoverOne(m, v, rows[v]);
      if next.halted { HaltedRecovery(next, vs[1..], rows); }
      assert vs == [v] + vs[1..];
      RecoverOneDone(m, v);
      RecoverOnePreserves(m, v, rows[v]);
      RecoverOneKeepsStatus(m, v, vs[1..]);
      forall u ensures u in vs <==> u == v || u in vs[1..] { DeletedOnce(vs, u); }
      RecoverVersionsKeepStatus(next, vs[1..], rows);
    }
  }

  lemma NothingUnclean(w: World)
    requires ListsUnclean(w, [])
    ensures forall p :: p in w.profiles ==> StatusAfter(w, [], p) == w.profiles[p].status
  {
  }

  lemma SameRows(w: World, w': World, vs: seq<VersionId>)
    requires w'.versions == w.versions && w'.secrets == w.secrets
    ensures forall p :: AnyPending(w', p) <==> AnyPending(w, p)
    ensures forall p :: AnyLost(w', vs, p) <==> AnyLost(w, vs, p)
    ensures forall p :: AnyAllocated(w', p) <==> AnyAllocated(w, p)
  {
  }

  /**
   A completed recovery cleans up after every version that was allocated or pending deletion when it started,
   and keeps the secret and the state of every other version.
   */
  lemma CompletedRecovery(w: World, fuel: nat)
    requires Inv(w) && !Perform(w, Recovery(fuel)).halted
    ensures var w' := Perform(w, Recovery(fuel)).world;
            && w'.versions.Keys == w.versions.Keys
            && (forall v :: v in w.versions ==>
                 w'.versions[v] == w.versions[v].(state := Recovered(w.versions[v].state)))
            && (forall v :: v in w'.secrets <==> v in w.secrets && !CleanedUp(w.versions[v].state))
            && (forall v :: v in w'.secrets ==>
                  v in w'.versions && (w'.versions[v].state.Adopted? || w'.versions[v].state.Retired?))
  {
    hide RecoverVersions;
    var vs := Pick(w.order, CandidatesOf(w));
    PickDistinct(w.order, CandidatesOf(w));
    Candidates(w);
    hide Inv, Pick;
    RecoverVersionsDone(Machine(w, fuel, false), vs, w.versions);
  }

  /**
   The status recovery leaves a profile in.  One with an active version becomes unavailable exactly if the secret of
   that version is gone.  One without is deleted if a version of it was pending deletion, and unavailable if one was
   only allocated.  Everything else stays as it is.
   */
  function RecoveredStatus(w: World, p: ProfileId): ProfileStatus
    requires p in w.profiles
  {
    match w.profiles[p].active
    case Some(v) => if v in w.secrets then w.profiles[p].status else CredentialUnavailable
    case None =>
      if AnyPending(w, p) then ProfileDeleted
      else if AnyAllocated(w, p) then CredentialUnavailable
      else w.profiles[p].status
  }

  /** A completed recovery changes nothing but the status of the profiles, and that as it should. */
  lemma RecoveredProfiles(w: World, fuel: nat)
    requires Inv(w) && !Perform(w, Recovery(fuel)).halted
    ensures var w' := Perform(w, Recovery(fuel)).world;
            && w'.profiles.Keys == w.profiles.Keys
            && forall p :: p in w.profiles ==>
                 w'.profiles[p] == Profile(RecoveredStatus(w, p), w.profiles[p].active)
  {
    var vs, w' := Pick(w.order, CandidatesOf(w)), Perform(w, Recovery(fuel)).world;
    Candidates(w);
    RecoveryKeepsStatus(w, fuel);
    hide Inv, Perform, Pick, CandidatesOf, StatusAfter, RecoveredStatus;
    forall p | p in w.profiles ensures w'.profiles[p] == Profile(RecoveredStatus(w, p), w.profiles[p].active) {
      StatusOfCandidates(w, vs, p);
    }
  }

  lemma RecoveryKeepsStatus(w: World, fuel: nat)
    requires Inv(w) && !Perform(w, Recovery(fuel)).halted
    ensures var w' := Perform(w, Recovery(fuel)).world;
            && SameStatusAfter(w, Pick(w.order, CandidatesOf(w)), w', [])
            && forall p :: p in w'.profiles ==> StatusAfter(w', [], p) == w'.profiles[p].status
  {
    CandidatesListed(w);
    assert Perform(w, Recovery(fuel)) == Recover(Machine(w, fuel, false));
    hide *;
    RecoverVersionsKeepStatus(Machine(w, fuel, false), Pick(w.order, CandidatesOf(w)), w.versions);
  }

  lemma CandidatesListed(w: World)
    requires Inv(w)
    ensures var vs := Pick(w.order, CandidatesOf(w));
            && ListsUnclean(w, vs) && DistinctIds(vs)
            && (forall i :: 0 <= i < |vs| ==>
                  vs[i] in w.versions && w.versions[vs[i]].state in {Allocated, Adopted, DeletePending})
            && forall fuel :: Recover(Machine(w, fuel, false)) ==
                                RecoverVersions(Machine(w, fuel, false), vs, w.versions)
  {
    PickDistinct(w.order, CandidatesOf(w));
    Candidates(w);
    hide Pick, RecoverVersions, Inv;
  }

  lemma StatusOfCandidates(w: World, vs: seq<VersionId>, p: ProfileId)
    requires Inv(w) && p in w.profiles
    requires forall v :: v in w.versions ==> (v in vs <==> w.versions[v].state in {Allocated, Adopted, DeletePending})
    ensures StatusAfter(w, vs, p) == RecoveredStatus(w, p)
  {
    if w.profiles[p].active.Some? {
      var v := w.profiles[p].active.value;
      assert w.versions[v] == Version(p, Adopted) && v in vs;
      assert !w.profiles[p].status.Disabled?;
      EnabledHasNonePending(w, p);
      assert AnyLost(w, vs, p) <==> v !in w.secrets;
    } else {
      assert !AnyLost(w, vs, p);
    }
  }

  lemma Candidates(w: World)
    requires Inv(w)
    ensures var vs := Pick(w.order, CandidatesOf(w));
            && (forall i :: 0 <= i < |vs| ==>
                 vs[i] in w.versions && w.versions[vs[i]].state in {Allocated, Adopted, DeletePending})
            && (forall v :: v in w.versions ==>
                 (v in vs <==> w.versions[v].state in {Allocated, Adopted, DeletePending}))
    ensures forall v :: v in w.secrets ==> v in w.versions && !Closed(w.versions[v].state)
  {
    PickedSet(w.order, CandidatesOf(w));
    forall v | v in w.versions
      ensures v in Pick(w.order, CandidatesOf(w)) <==> w.versions[v].state in {Allocated, Adopted, DeletePending}
    {
      assert v in (set u | u in Pick(w.order, CandidatesOf(w))) <==> v in CandidatesOf(w);
    }
  }

  /** An adopted version whose secret has vanished makes its profile unavailable. */
  lemma LostSecretNoticed(m: Machine, v: VersionId, row: Version)
    requires row.state.Adopted? && row.profile in m.world.profiles && !m.world.profiles[row.profile].status.Disabled?
    requires !RecoverOne(m, v, row).halted
    ensures var w' := RecoverOne(m, v, row).world;
            if v in m.world.secrets then w' == m.world
            else w' == WithStatus(m.world, row.profile, CredentialUnavailable)
  {
  }

  /** Recovery never raises: it completes whenever the process lives long enough. */
  lemma {:induction false} RecoverVersionsComplete(m: Machine, vs: seq<VersionId>, rows: map<VersionId, Version>)
    requires !m.halted && m.fuel >= 3 * |vs| && forall i :: 0 <= i < |vs| ==> vs[i] in rows
    ensures !RecoverVersions(m, vs, rows).halted
    decreases |vs|
  {
    if vs != [] {
      RecoverOneCompletes(m, vs[0], rows[vs[0]]);
      hide RecoverOne;
      RecoverVersionsComplete(RecoverOne(m, vs[0], rows[vs[0]]), vs[1..], rows);
    }
  }

  lemma RecoverOneCompletes(m: Machine, v: VersionId, row: Version)
    requires !m.halted && m.fuel >= 3
    ensures !RecoverOne(m, v, row).halted && RecoverOne(m, v, row).fuel >= m.fuel - 3
  {
    hide Effect;
  }

  lemma {:induction false} PickShorter(order: seq<VersionId>, wanted: set<VersionId>)
    ensures |Pick(order, wanted)| <= |order|
    decreases |order|
  {
    if order != [] { PickShorter(order[1..], wanted); }
  }

  lemma RecoveryCompletes(w: World, fuel: nat)
    requires fuel >= 3 * |w.order|
    ensures !Perform(w, Recovery(fuel)).halted
  {
    PickShorter(w.order, CandidatesOf(w));
    assert forall v :: v in CandidatesOf(w) ==> v in w.versions;
    RecoverVersionsComplete(Machine(w, fuel, false), Pick(w.order, CandidatesOf(w)), w.versions);
  }

  // ----- every run

  /** The invariant holds after any sequence of operations, each of them crashing wherever it may. */
  lemma {:induction false} EveryRunIsSafe(ops: seq<Operation>)
    ensures Inv(PerformAll(EMPTY, ops))
    decreases |ops|
  {
    if ops != [] {
      EveryRunIsSafe(ops[..|ops| - 1]);
      OperationPreserves(PerformAll(EMPTY, ops[..|ops| - 1]), ops[|ops| - 1]);
    }
  }

  lemma OperationPreserves(w: World, op: Operation)
    requires Inv(w)
    ensures Inv(Perform(w, op).world)
  {
    hide Inv, CreateProfile, Rotate, DeleteProfile, Recover;
    match op
    case Create(p, v, secret, stored, fuel) => CreationPreserves(Machine(w, fuel, false), p, v, secret, stored);
    case Rotation(p, v, secret, stored, fuel) => CreationPreserves(Machine(w, fuel, false), p, v, secret, stored);
    case Deletion(p, fuel) => DeletionPreserves(Machine(w, fuel, false), p);
    case Recovery(fuel) => RecoveryPreserves(Machine(w, fuel, false));
    case Loss(v) => StorePreserves(w, DeleteSecret(v));
  }

  lemma RecoveryPreserves(m: Machine)
    requires Inv(m.world)
    ensures Inv(Recover(m).world)
  {
    hide Inv;
    RecoverVersionsPreserves(m, Pick(m.world.order, CandidatesOf(m.world)), m.world.versions);
  }

  /** Whatever went before, a completed recovery leaves secrets only under versions that were once adopted. */
  lemma RecoveryAfterAnyRun(ops: seq<Operation>, fuel: nat)
    requires !Perform(PerformAll(EMPTY, ops), Recovery(fuel)).halted
    ensures var w := Perform(PerformAll(EMPTY, ops), Recovery(fuel)).world;
            forall v :: v in w.secrets ==>
                v in w.versions && (w.versions[v].state.Adopted? || w.versions[v].state.Retired?)
  {
    hide Inv, Perform;
    EveryRunIsSafe(ops);
    CompletedRecovery(PerformAll(EMPTY, ops), fuel);
  }

  // ----- rotation

  /** Rotation succeeds for every known, not disabled profile with a fresh version, ASCII and a faithful store. */
  lemma RotationSucceedsIff(w: World, p: ProfileId, v: VersionId, secret: string, stored: string, fuel: nat)
    requires Inv(w) && fuel >= 4
    ensures var done := Perform(w, Rotation(p, v, secret, stored, fuel));
            && (!done.halted <==>
                  p in w.profiles && !w.profiles[p].status.Disabled? && v !in w.versions
                  && secret != "" && IsAscii(secret) && stored == secret)
            && (!done.halted ==> p in done.world.profiles && done.world.profiles[p] == Profile(Enabled, Some(v)))
  {
    var m := Do(Machine(w, fuel, false), AllocateRotation(p, v));
    if !m.halted {
      AllocationPreserves(w, AllocateRotation(p, v));
      AdoptionFollowsReadBack(m, v, secret, stored);
    }
  }

  /** Deletion is therefore not final: a deleted profile can be rotated, and is enabled again. */
  lemma DeletedProfileCanReturn(w: World, p: ProfileId, v: VersionId, secret: string)
    requires Inv(w) && p in w.profiles && w.profiles[p].status.ProfileDeleted? && v !in w.versions
    requires secret != "" && IsAscii(secret)
    ensures var w' := Perform(w, Rotation(p, v, secret, secret, 4)).world;
            p in w'.profiles && w'.profiles[p] == Profile(Enabled, Some(v))
  {
    RotationSucceedsIff(w, p, v, secret, secret, 4);
  }

  // ----- runs from the empty ledger that end where the receipts do not say

  lemma OneOperation(op: Operation)
    ensures PerformAll(EMPTY, [op]) == Perform(EMPTY, op).world
  {
    assert [op][..0] == [];
  }

  lemma ThreeOperations(a: Operation, b: Operation, c: Operation)
    ensures PerformAll(EMPTY, [a, b, c]) == Perform(Perform(Perform(EMPTY, a).world, b).world, c).world
  {
    hide Perform;
    OneOperation(a);
    OneMore([a], b);
    OneMore([a, b], c);
    assert [a] + [b] == [a, b] && [a, b] + [c] == [a, b, c];
    hide PerformAll;
  }

  lemma OneMore(ops: seq<Operation>, op: Operation)
    ensures PerformAll(EMPTY, ops + [op]) == Perform(PerformAll(EMPTY, ops), op).world
  {
    hide Perform;
    assert (ops + [op])[..|ops|] == ops;
  }

  /** A version of its own for a profile of its own, and nothing else. */
  function Single(p: ProfileId, profile: Profile, v: VersionId, state: VersionState, secrets: map<VersionId, string>)
    : World
  {
    World(map[p := profile], map[v := Version(p, state)], [v], secrets)
  }

  lemma CreatedAlone(p: ProfileId, v: VersionId, secret: string)
    requires secret != "" && IsAscii(secret)
    ensures Perform(EMPTY, Create(p, v, secret, secret, 4)).world
         == Single(p, Profile(Enabled, Some(v)), v, Adopted, map[v := secret])
    ensures Perform(EMPTY, Create(p, v, secret, secret, 1)).world ==
              Single(p, Profile(Staging, None), v, Allocated, map[])
  {
    hide IsAscii;
  }

  lemma RecoveredAlone(p: ProfileId, v: VersionId)
    ensures Perform(Single(p, Profile(Staging, None), v, Allocated, map[]), Recovery(3)).world
         == Single(p, Profile(CredentialUnavailable, None), v, OrphanCleaned, map[])
  {
    var w := Single(p, Profile(Staging, None), v, Allocated, map[]);
    PickAlone(v, CandidatesOf(w));
    var m := RecoverOne(Machine(w, 3, false), v, w.versions[v]);
    assert m == Machine(Single(p, Profile(CredentialUnavailable, None), v, OrphanCleaned, map[]), 1, false);
    hide RecoverOne;
    assert RecoverVersions(m, [v][1..], w.versions) == m;
  }

  lemma PickAlone(v: VersionId, wanted: set<VersionId>)
    requires v in wanted
    ensures Pick([v], wanted) == [v]
  {
    assert [v][1..] == [];
  }

  /** Deleting a profile without an open version takes one call and leaves it disabled. */
  lemma NothingOpenStaysDisabled(w: World, p: ProfileId)
    requires Inv(w) && p in w.profiles && OpenOf(w, p) == {}
    ensures var done := Perform(w, Deletion(p, 1));
            !done.halted && p in done.world.profiles && done.world.profiles[p].status.Disabled?
  {
    StagedState(w, p);
    PickedSet(w.order, OpenOf(w, p));
    CompletedDeletion(w, p, 1);
  }

  /** Creation that crashed, recovery, deletion: the profile is reported deleted, and no rotation succeeds again. */
  lemma DisabledForGood(p: ProfileId, v: VersionId, secret: string)
    requires secret != "" && IsAscii(secret)
    ensures var w := PerformAll(EMPTY, [Create(p, v, secret, secret, 1), Recovery(3), Deletion(p, 1)]);
            && p in w.profiles && w.profiles[p].status.Disabled?
            && forall v', s, stored, fuel :: Perform(w, Rotation(p, v', s, stored, fuel)).halted
  {
    var ops := [Create(p, v, secret, secret, 1), Recovery(3)];
    ThreeOperations(ops[0], ops[1], Deletion(p, 1));
    CreatedAlone(p, v, secret);
    RecoveredAlone(p, v);
    var w := Single(p, Profile(CredentialUnavailable, None), v, OrphanCleaned, map[]);
    NothingOpenStaysDisabled(w, p);
    hide IsAscii;
  }

  /** Creation, deletion, rotation: the profile is marked deleted in between and enabled at the end. */
  lemma DeletedAndBack(p: ProfileId, v: VersionId, v': VersionId, secret: string)
    requires secret != "" && IsAscii(secret) && v != v'
    ensures var created := Create(p, v, secret, secret, 4);
            var deleted := Perform(Perform(EMPTY, created).world, Deletion(p, 3)).world;
            var w := PerformAll(EMPTY, [created, Deletion(p, 3), Rotation(p, v', secret, secret, 4)]);
            && p in deleted.profiles && deleted.profiles[p].status.ProfileDeleted?
            && p in w.profiles && w.profiles[p] == Profile(Enabled, Some(v'))
  {
    ThreeOperations(Create(p, v, secret, secret, 4), Deletion(p, 3), Rotation(p, v', secret, secret, 4));
    CreatedAlone(p, v, secret);
    DeletedAlone(p, v, secret);
    DeletedProfileCanReturn(Single(p, Profile(ProfileDeleted, None), v, Deleted, map[]), p, v', secret);
  }

  lemma DeletedAlone(p: ProfileId, v: VersionId, secret: string)
    ensures Perform(Single(p, Profile(Enabled, Some(v)), v, Adopted, map[v := secret]), Deletion(p, 3)).world
         == Single(p, Profile(ProfileDeleted, None), v, Deleted, map[])
  {
    var w := Single(p, Profile(Enabled, Some(v)), v, Adopted, map[v := secret]);
    var staged := Single(p, Profile(Disabled, None), v, DeletePending, map[v := secret]);
    StagedAlone(p, v, secret);
    PickAlone(v, PendingOf(staged, p));
    var gone := Do(Machine(staged, 2, false), DeleteSecret(v));
    assert gone == Machine(staged.(secrets := map[]), 1, false);
    MarkedAlone(p, v);
    hide Do;
    assert [v][1..] == [] && DeleteVersions(Do(gone, MarkDeleted(v)), []) == Do(gone, MarkDeleted(v));
  }

  lemma StagedAlone(p: ProfileId, v: VersionId, secret: string)
    ensures Do(Machine(Single(p, Profile(Enabled, Some(v)), v, Adopted, map[v := secret]), 3, false), StageDelete(p))
         == Machine(Single(p, Profile(Disabled, None), v, DeletePending, map[v := secret]), 2, false)
  {
  }

  lemma MarkedAlone(p: ProfileId, v: VersionId)
    ensures Do(Machine(Single(p, Profile(Disabled, None), v, DeletePending, map[]), 1, false), MarkDeleted(v))
         == Machine(Single(p, Profile(ProfileDeleted, None), v, Deleted, map[]), 0, false)
  {
  }

  const ACCENTED := "caf\U{00e9}"

  /** With such a secret no creation succeeds, even with a faithful store and all the time it needs. */
  lemma AccentedSecretIsLost(p: ProfileId, v: VersionId, fuel: nat)
    requires fuel >= 4
    ensures var w := PerformAll(EMPTY, [Create(p, v, ACCENTED, ACCENTED, fuel)]);
            w == Single(p, Profile(Staging, None), v, Allocated, map[v := ACCENTED])
  {
    OneOperation(Create(p, v, ACCENTED, ACCENTED, fuel));
    assert ACCENTED[3] == '\U{00e9}';
  }
}
