/**
 The provider credential ledger, the secret store beside it, and the operations over both
 (src/stata_research_agent/application/provider_credentials.py, with the ledger's transactions as written in
 src/stata_research_agent/persistence/global_credentials.py).

 Every call to the ledger or the store is one atomic step.  An operation may stop between any two steps: by a
 crash, or because a step raised.  A version's target name in the store is derived from its identifier, so
 secrets are indexed by version.
 */
module CredentialLedger {
  import opened Wrappers

  type ProfileId = string
  type VersionId = string

  datatype VersionState = Allocated | Adopted | Retired | OrphanCleaned | DeletePending | Deleted

  datatype ProfileStatus = Staging | Enabled | Disabled | CredentialUnavailable | ProfileDeleted

  datatype Profile = Profile(status: ProfileStatus, active: Option<VersionId>)

  datatype Version = Version(profile: ProfileId, state: VersionState)

  /** `order` lists the versions as they were created. */
  datatype World = World(
    profiles: map<ProfileId, Profile>, versions: map<VersionId, Version>, order: seq<VersionId>,
    secrets: map<VersionId, string>)

  const EMPTY := World(map[], map[], [], map[])

  /** Nothing is left to clean up under a version in one of these states. */
  predicate Closed(s: VersionState) {
    s.OrphanCleaned? || s.Deleted?
  }

  // ----- port calls

  /** `Write` carries what the store actually keeps, which read-back may find to differ from the secret. */
  datatype Call =
    | AllocateProfile(profile: ProfileId, version: VersionId)
    | AllocateRotation(profile: ProfileId, version: VersionId)
    | Write(version: VersionId, stored: string)
    | Read(version: VersionId)
    | Adopt(version: VersionId)
    | Contains(version: VersionId)
    | DeleteSecret(version: VersionId)
    | MarkOrphanCleaned(version: VersionId)
    | MarkUnavailable(profile: ProfileId)
    | StageDelete(profile: ProfileId)
    | MarkDeleted(version: VersionId)

  /** A call that is not allowed raises and changes nothing. */
  predicate Allowed(w: World, call: Call) {
    match call
    case AllocateProfile(p, v) => p !in w.profiles && v !in w.versions
    case AllocateRotation(p, v) => p in w.profiles && !w.profiles[p].status.Disabled? && v !in w.versions
    case Read(v) => v in w.secrets
    case Adopt(v) => v in w.versions && w.versions[v].state.Allocated? && w.versions[v].profile in w.profiles
    case StageDelete(p) => p in w.profiles
    case _ => true
  }

  function WithState(w: World, v: VersionId, s: VersionState): World
    requires v in w.versions
  {
    w.(versions := w.versions[v := w.versions[v].(state := s)])
  }

  function WithStatus(w: World, p: ProfileId, s: ProfileStatus): World {
    if p in w.profiles then w.(profiles := w.profiles[p := w.profiles[p].(status := s)]) else w
  }

  function AddVersion(w: World, p: ProfileId, v: VersionId): World {
    w.(versions := w.versions[v := Version(p, Allocated)], order := w.order + [v])
  }

  /** The version becomes the active one, and the one it replaces is retired. */
  function AdoptVersion(w: World, v: VersionId): World
    requires Allowed(w, Adopt(v))
  {
    var p := w.versions[v].profile;
    var previous := w.profiles[p].active;
    var retired := if previous.Some? && previous.value in w.versions && w.versions[previous.value].state.Adopted?
                   then WithState(w, previous.value, Retired) else w;
    retired.(
      versions := retired.versions[v := Version(p, Adopted)],
      profiles := retired.profiles[p := Profile(Enabled, Some(v))])
  }

  function OrphanCleanedVersion(w: World, v: VersionId): World {
    if v in w.versions && w.versions[v].state.Allocated? then
      var p, cleaned := w.versions[v].profile, WithState(w, v, OrphanCleaned);
      if p in w.profiles && w.profiles[p].active.None? then WithStatus(cleaned, p, CredentialUnavailable) else cleaned
    else w
  }

  function StagedProfile(w: World, p: ProfileId): World {
    w.(
      profiles := w.profiles[p := Profile(Disabled, None)],
      versions := map v | v in w.versions ::
        if w.versions[v].profile == p && !Closed(w.versions[v].state)
        then w.versions[v].(state := DeletePending) else w.versions[v])
  }

  predicate AnyPending(w: World, p: ProfileId) {
    exists v :: v in w.versions && w.versions[v] == Version(p, DeletePending)
  }

  function DeletedVersion(w: World, v: VersionId): World {
    if v in w.versions && w.versions[v].state.DeletePending? then
      var p, gone := w.versions[v].profile, WithState(w, v, Deleted);
      if AnyPending(gone, p) then gone else WithStatus(gone, p, ProfileDeleted)
    else w
  }

  function Effect(w: World, call: Call): World
    requires Allowed(w, call)
  {
    match call
    case AllocateProfile(p, v) => AddVersion(w.(profiles := w.profiles[p := Profile(Staging, None)]), p, v)
    case AllocateRotation(p, v) => AddVersion(w, p, v)
    case Write(v, stored) => w.(secrets := w.secrets[v := stored])
    case Read(_) => w
    case Adopt(v) => AdoptVersion(w, v)
    case Contains(_) => w
    case DeleteSecret(v) => w.(secrets := w.secrets - {v})
    case MarkOrphanCleaned(v) => OrphanCleanedVersion(w, v)
    case MarkUnavailable(p) =>
      if p in w.profiles && !w.profiles[p].status.Disabled? then WithStatus(w, p, CredentialUnavailable) else w
    case StageDelete(p) => StagedProfile(w, p)
    case MarkDeleted(v) => DeletedVersion(w, v)
  }

  // ----- operations as sequences of calls that may stop early

  /** `fuel` is how many more calls happen before a crash; a halted operation makes no further call. */
  datatype Machine = Machine(world: World, fuel: nat, halted: bool)

  function Halt(m: Machine): Machine {
    m.(halted := true)
  }

  function Do(m: Machine, call: Call): Machine {
    if m.halted then m
    else if m.fuel == 0 || !Allowed(m.world, call) then Halt(m)
    else Machine(Effect(m.world, call), m.fuel - 1, false)
  }

  predicate IsAscii(s: string) {
    forall k | 0 <= k < |s| :: s[k] < 128 as char
  }

  /** The comparison of the secret with its read-back raises unless both are ASCII text. */
  predicate ReadBackMatches(observed: string, secret: string) {
    IsAscii(observed) && IsAscii(secret) && observed == secret
  }

  function WriteVerifyAdopt(m: Machine, v: VersionId, secret: string, stored: string): Machine {
    if secret == "" then Halt(m)
    else
      var read := Do(Do(m, Write(v, stored)), Read(v));
      if read.halted || v !in read.world.secrets || !ReadBackMatches(read.world.secrets[v], secret) then Halt(read)
      else Do(read, Adopt(v))
  }

  function CreateProfile(m: Machine, p: ProfileId, v: VersionId, secret: string, stored: string): Machine {
    WriteVerifyAdopt(Do(m, AllocateProfile(p, v)), v, secret, stored)
  }

  function Rotate(m: Machine, p: ProfileId, v: VersionId, secret: string, stored: string): Machine {
    WriteVerifyAdopt(Do(m, AllocateRotation(p, v)), v, secret, stored)
  }

  function DeleteVersions(m: Machine, vs: seq<VersionId>): Machine
    decreases |vs|
  {
    if vs == [] then m
    else DeleteVersions(Do(Do(m, DeleteSecret(vs[0])), MarkDeleted(vs[0])), vs[1..])
  }

  /** The versions of `order` that `wanted` picks, in creation order. */
  function Pick(order: seq<VersionId>, wanted: set<VersionId>): (picked: seq<VersionId>)
    ensures forall i :: 0 <= i < |picked| ==> picked[i] in order && picked[i] in wanted
    ensures forall i :: 0 <= i < |order| && order[i] in wanted ==> order[i] in picked
  {
    if order == [] then []
    else (if order[0] in wanted then [order[0]] else []) + Pick(order[1..], wanted)
  }

  function PendingOf(w: World, p: ProfileId): set<VersionId> {
    set v | v in w.versions && w.versions[v] == Version(p, DeletePending)
  }

  function DeleteProfile(m: Machine, p: ProfileId): Machine {
    var staged := Do(m, StageDelete(p));
    if staged.halted then staged else DeleteVersions(staged, Pick(staged.world.order, PendingOf(staged.world, p)))
  }

  function RecoverOne(m: Machine, v: VersionId, row: Version): Machine {
    match row.state
    case Allocated =>
      var seen := Do(m, Contains(v));
      var cleared := if v in seen.world.secrets then Do(seen, DeleteSecret(v)) else seen;
      Do(cleared, MarkOrphanCleaned(v))
    case Adopted =>
      var seen := Do(m, Contains(v));
      if v in seen.world.secrets then seen else Do(seen, MarkUnavailable(row.profile))
    case DeletePending => Do(Do(m, DeleteSecret(v)), MarkDeleted(v))
    case _ => m
  }

  /** `rows` is the ledger as it was when the candidates were listed. */
  function RecoverVersions(m: Machine, vs: seq<VersionId>, rows: map<VersionId, Version>): Machine
    requires forall i :: 0 <= i < |vs| ==> vs[i] in rows
    decreases |vs|
  {
    if vs == [] then m else RecoverVersions(RecoverOne(m, vs[0], rows[vs[0]]), vs[1..], rows)
  }

  function CandidatesOf(w: World): set<VersionId> {
    set v | v in w.versions && w.versions[v].state in {Allocated, Adopted, DeletePending}
  }

  function Recover(m: Machine): Machine {
    RecoverVersions(m, Pick(m.world.order, CandidatesOf(m.world)), m.world.versions)
  }

  // ----- runs

  /** Each operation crashes after `fuel` calls at the latest; secrets may also vanish from the store by themselves. */
  datatype Operation =
    | Create(profile: ProfileId, version: VersionId, secret: string, stored: string, fuel: nat)
    | Rotation(profile: ProfileId, version: VersionId, secret: string, stored: string, fuel: nat)
    | Deletion(profile: ProfileId, fuel: nat)
    | Recovery(fuel: nat)
    | Loss(version: VersionId)

  function Perform(w: World, op: Operation): Machine {
    match op
    case Create(p, v, secret, stored, fuel) => CreateProfile(Machine(w, fuel, false), p, v, secret, stored)
    case Rotation(p, v, secret, stored, fuel) => Rotate(Machine(w, fuel, false), p, v, secret, stored)
    case Deletion(p, fuel) => DeleteProfile(Machine(w, fuel, false), p)
    case Recovery(fuel) => Recover(Machine(w, fuel, false))
    case Loss(v) => Machine(w.(secrets := w.secrets - {v}), 0, false)
  }

  function PerformAll(w: World, ops: seq<Operation>): World {
    if ops == [] then w else Perform(PerformAll(w, ops[..|ops| - 1]), ops[|ops| - 1]).world
  }
}
