/**
 Checking an answer's attribution and its style copying without a judge
 (src/stata_research_agent/application/rag_evaluation.py, `evaluate_grounded_answer`).  Contents and markers are
 given case-folded; a node carries the tokens of its content beside the content.
 */
module GroundedAnswer {
  import opened Sequences
  import opened TokenRun

  type NodeId = string
  type ClaimId = string
  type Role = string

  datatype Node = Node(role: Role, content: string, tokens: seq<Token>)

  datatype Claim = Claim(id: ClaimId, cited: seq<NodeId>, markers: seq<string>, roles: set<Role>)

  datatype Score = Score(
    claimCoverage: real, identityValidity: real, supportCoverage: real, roleLeaks: nat, longestStyleCopy: nat,
    missingCitations: seq<ClaimId>, missingSupport: seq<(ClaimId, string)>, unknownCitations: seq<NodeId>, passed: bool)

  // ----- what a grounded answer is

  /** The nodes that the identifiers name; unknown identifiers name nothing. */
  function Named(ids: seq<NodeId>, evidence: map<NodeId, Node>): seq<Node> {
    if ids == [] then []
    else (if ids[0] in evidence then [evidence[ids[0]]] else []) + Named(ids[1..], evidence)
  }

  lemma {:induction false} NamedIff(ids: seq<NodeId>, evidence: map<NodeId, Node>, node: Node)
    ensures node in Named(ids, evidence) <==> exists id :: id in ids && id in evidence && evidence[id] == node
  {
    if ids != [] {
      NamedIff(ids[1..], evidence, node);
      assert ids == [ids[0]] + ids[1..];
    }
  }

  predicate SupportedBy(nodes: seq<Node>, marker: string) {
    exists k | 0 <= k < |nodes| :: Occurs(marker, nodes[k].content)
  }

  ghost predicate Supported(claim: Claim, evidence: map<NodeId, Node>, marker: string) {
    exists id :: id in claim.cited && id in evidence && Occurs(marker, evidence[id].content)
  }

  lemma SupportedIff(claim: Claim, evidence: map<NodeId, Node>, marker: string)
    ensures SupportedBy(Named(claim.cited, evidence), marker) <==> Supported(claim, evidence, marker)
  {
    var nodes := Named(claim.cited, evidence);
    if k :| 0 <= k < |nodes| && Occurs(marker, nodes[k].content) {
      NamedIff(claim.cited, evidence, nodes[k]);
    }
    if id :| id in claim.cited && id in evidence && Occurs(marker, evidence[id].content) {
      NamedIff(claim.cited, evidence, evidence[id]);
      var k :| 0 <= k < |nodes| && nodes[k] == evidence[id];
    }
  }

  /** Every citation is known, and its source plays a role the claim allows. */
  ghost predicate CitationsHold(claim: Claim, evidence: map<NodeId, Node>) {
    forall id :: id in claim.cited ==> id in evidence && evidence[id].role in claim.roles
  }

  ghost predicate ClaimHolds(claim: Claim, evidence: map<NodeId, Node>) {
    && claim.cited != []
    && CitationsHold(claim, evidence)
    && (forall m :: m in claim.markers ==> Supported(claim, evidence, m))
  }

  ghost predicate Original(answer: seq<Token>, styles: seq<Node>, limit: nat) {
    forall k | 0 <= k < |styles| :: !Shares(answer, styles[k].tokens, limit + 1)
  }

  // ----- the counts the score is made of

  /** The claims that cite nothing. */
  function Uncited(claims: seq<Claim>): seq<ClaimId> {
    if claims == [] then [] else (if claims[0].cited == [] then [claims[0].id] else []) + Uncited(claims[1..])
  }

  /** The positions of the claims that cite nothing. */
  function UncitedAt(claims: seq<Claim>): set<nat> {
    set k: nat | k < |claims| && claims[k].cited == []
  }

  lemma {:induction false} UncitedSnoc(claims: seq<Claim>, c: Claim)
    ensures Uncited(claims + [c]) == Uncited(claims) + if c.cited == [] then [c.id] else []
    decreases |claims|
  {
    if claims != [] {
      assert (claims + [c])[1..] == claims[1..] + [c];
      UncitedSnoc(claims[1..], c);
    }
  }

  lemma {:induction false} UncitedCounts(claims: seq<Claim>)
    ensures |Uncited(claims)| == |UncitedAt(claims)|
    ensures forall id :: id in Uncited(claims) <==> exists c :: c in claims && c.cited == [] && c.id == id
    decreases |claims|
  {
    if claims == [] {
      assert UncitedAt(claims) == {};
    } else {
      var n := |claims| - 1;
      UncitedCounts(claims[..n]);
      UncitedSnoc(claims[..n], claims[n]);
      assert claims == claims[..n] + [claims[n]];
      var before := UncitedAt(claims[..n]);
      if claims[n].cited == [] {
        assert UncitedAt(claims) == before + {n};
      } else {
        assert UncitedAt(claims) == before;
      }
    }
  }

  lemma {:induction false} UncitedIff(claims: seq<Claim>)
    ensures |Uncited(claims)| <= |claims|
    ensures Uncited(claims) == [] <==> forall c :: c in claims ==> c.cited != []
  {
    if claims != [] {
      UncitedIff(claims[1..]);
      assert claims == [claims[0]] + claims[1..];
    }
  }

  function AllCitations(claims: seq<Claim>): seq<NodeId> {
    if claims == [] then [] else claims[0].cited + AllCitations(claims[1..])
  }

  lemma {:induction false} CitedIff(claims: seq<Claim>, id: NodeId)
    ensures id in AllCitations(claims) <==> exists c :: c in claims && id in c.cited
  {
    if claims != [] {
      CitedIff(claims[1..], id);
      assert claims == [claims[0]] + claims[1..];
    }
  }

  function MarkerTotal(claims: seq<Claim>): nat {
    if claims == [] then 0 else MarkerTotal(claims[..|claims| - 1]) + |claims[|claims| - 1].markers|
  }

  lemma {:induction false} MarkersAppend(a: seq<Claim>, b: seq<Claim>)
    ensures MarkerTotal(a + b) == MarkerTotal(a) + MarkerTotal(b) && (|a| == 1 ==> MarkerTotal(a) == |a[0].markers|)
    decreases |b|
  {
    if b == [] {
      assert a + b == a;
    } else {
      assert (a + b)[..|a + b| - 1] == a + b[..|b| - 1];
      MarkersAppend(a, b[..|b| - 1]);
    }
    if |a| == 1 { assert a[..0] == []; }
  }

  function UnknownIn(ids: seq<NodeId>, evidence: map<NodeId, Node>): nat {
    if ids == [] then 0
    else UnknownIn(ids[..|ids| - 1], evidence) + if ids[|ids| - 1] in evidence then 0 else 1
  }

  /** The positions of unknown identifiers. */
  function UnknownAt(ids: seq<NodeId>, evidence: map<NodeId, Node>): set<nat> {
    set k: nat | k < |ids| && ids[k] !in evidence
  }

  lemma {:induction false} UnknownCounts(ids: seq<NodeId>, evidence: map<NodeId, Node>)
    ensures UnknownIn(ids, evidence) == |UnknownAt(ids, evidence)|
    decreases |ids|
  {
    if ids == [] {
      assert UnknownAt(ids, evidence) == {};
    } else {
      var n := |ids| - 1;
      UnknownCounts(ids[..n], evidence);
      var before := UnknownAt(ids[..n], evidence);
      if ids[n] in evidence {
        assert UnknownAt(ids, evidence) == before;
      } else {
        assert UnknownAt(ids, evidence) == before + {n};
      }
    }
  }

  lemma {:induction false} UnknownBound(ids: seq<NodeId>, evidence: map<NodeId, Node>)
    ensures UnknownIn(ids, evidence) <= |ids|
    ensures UnknownIn(ids, evidence) == 0 <==> forall id :: id in ids ==> id in evidence
    decreases |ids|
  {
    if ids != [] {
      UnknownBound(ids[..|ids| - 1], evidence);
      assert ids == ids[..|ids| - 1] + [ids[|ids| - 1]];
    }
  }

  function LeaksIn(nodes: seq<Node>, roles: set<Role>): nat {
    if nodes == [] then 0
    else LeaksIn(nodes[..|nodes| - 1], roles) + if nodes[|nodes| - 1].role in roles then 0 else 1
  }

  /** The positions of nodes whose role is not allowed. */
  function LeaksAt(nodes: seq<Node>, roles: set<Role>): set<nat> {
    set k: nat | k < |nodes| && nodes[k].role !in roles
  }

  lemma {:induction false} LeaksCount(nodes: seq<Node>, roles: set<Role>)
    ensures LeaksIn(nodes, roles) == |LeaksAt(nodes, roles)|
    decreases |nodes|
  {
    if nodes == [] {
      assert LeaksAt(nodes, roles) == {};
    } else {
      var n := |nodes| - 1;
      LeaksCount(nodes[..n], roles);
      var before := LeaksAt(nodes[..n], roles);
      if nodes[n].role in roles {
        assert LeaksAt(nodes, roles) == before;
      } else {
        assert LeaksAt(nodes, roles) == before + {n};
      }
    }
  }

  lemma {:induction false} NoLeaks(nodes: seq<Node>, roles: set<Role>)
    ensures LeaksIn(nodes, roles) == 0 <==> forall n :: n in nodes ==> n.role in roles
    decreases |nodes|
  {
    if nodes != [] {
      NoLeaks(nodes[..|nodes| - 1], roles);
      assert nodes == nodes[..|nodes| - 1] + [nodes[|nodes| - 1]];
    }
  }

  /** Every known citation plays a role the claim allows. */
  ghost predicate RolesHold(claim: Claim, evidence: map<NodeId, Node>) {
    forall id :: id in claim.cited && id in evidence ==> evidence[id].role in claim.roles
  }

  lemma RolesHoldIff(claim: Claim, evidence: map<NodeId, Node>)
    ensures RolesHold(claim, evidence) <==> LeaksIn(Named(claim.cited, evidence), claim.roles) == 0
  {
    NoLeaks(Named(claim.cited, evidence), claim.roles);
    forall n
      ensures n in Named(claim.cited, evidence) <==>
                exists id :: id in claim.cited && id in evidence && evidence[id] == n
    {
      NamedIff(claim.cited, evidence, n);
    }
  }

  function Coverage(missing: nat, total: nat): (share: real)
    requires missing <= total
    ensures 0.0 <= share <= 1.0
    ensures share == 1.0 <==> missing == 0
    ensures share * total as real == (total - missing) as real
  {
    if total == 0 then 1.0
    else
      ShareBounds(missing, total);
      1.0 - missing as real / total as real
  }

  lemma ShareBounds(missing: nat, total: nat)
    requires missing <= total && total > 0
    ensures 0.0 <= missing as real / total as real <= 1.0
    ensures missing as real / total as real == 0.0 <==> missing == 0
  {
    var share := missing as real / total as real;
    assert share * total as real == missing as real;
  }

  // ----- the evaluation

  /** The markers that no node mentions, in order, as the claim reports them. */
  function Lacking(id: ClaimId, markers: seq<string>, nodes: seq<Node>): seq<(ClaimId, string)> {
    if markers == [] then []
    else
      var last := markers[|markers| - 1];
      Lacking(id, markers[..|markers| - 1], nodes) + if SupportedBy(nodes, last) then [] else [(id, last)]
  }

  /** The positions of those markers. */
  function LackingAt(markers: seq<string>, nodes: seq<Node>): set<nat> {
    set k: nat | k < |markers| && !SupportedBy(nodes, markers[k])
  }

  lemma {:induction false} LackingCounts(id: ClaimId, markers: seq<string>, nodes: seq<Node>)
    ensures |Lacking(id, markers, nodes)| == |LackingAt(markers, nodes)|
    decreases |markers|
  {
    hide SupportedBy;
    if markers == [] {
      assert LackingAt(markers, nodes) == {};
    } else {
      var n := |markers| - 1;
      LackingCounts(id, markers[..n], nodes);
      var before := LackingAt(markers[..n], nodes);
      if SupportedBy(nodes, markers[n]) {
        assert LackingAt(markers, nodes) == before;
      } else {
        assert LackingAt(markers, nodes) == before + {n};
      }
    }
  }

  lemma {:induction false} LackingIff(id: ClaimId, markers: seq<string>, nodes: seq<Node>)
    ensures |Lacking(id, markers, nodes)| <= |markers|
    ensures forall pair ::
              pair in Lacking(id, markers, nodes) <==>
                pair.0 == id && pair.1 in markers && !SupportedBy(nodes, pair.1)
    decreases |markers|
  {
    hide SupportedBy;
    if markers != [] {
      LackingIff(id, markers[..|markers| - 1], nodes);
      assert markers == markers[..|markers| - 1] + [markers[|markers| - 1]];
    }
  }

  /** The markers of one claim that no cited node mentions, in order. */
  method MissingMarkers(claim: Claim, nodes: seq<Node>) returns (missing: seq<(ClaimId, string)>)
    ensures missing == Lacking(claim.id, claim.markers, nodes)
  {
    hide SupportedBy;
    missing := [];
    var i := 0;
    while i < |claim.markers|
      invariant 0 <= i <= |claim.markers|
      invariant missing == Lacking(claim.id, claim.markers[..i], nodes)
    {
      assert claim.markers[..i + 1][..i] == claim.markers[..i];
      if !SupportedBy(nodes, claim.markers[i]) {
        missing := missing + [(claim.id, claim.markers[i])];
      }
      i := i + 1;
    }
    assert claim.markers[..i] == claim.markers;
  }

  /** `id` occurs before `later` does for the first time. */
  ghost predicate AppearsFirst(ids: seq<NodeId>, id: NodeId, later: NodeId) {
    exists p | 0 <= p < |ids| :: ids[p] == id && forall q | 0 <= q <= p :: ids[q] != later
  }

  /** The unknown identifiers, each once, in the order in which they first appear. */
  method UniqueUnknown(ids: seq<NodeId>, evidence: map<NodeId, Node>) returns (unknown: seq<NodeId>)
    ensures forall i, j :: 0 <= i < j < |unknown| ==> unknown[i] != unknown[j]
    ensures forall id :: id in unknown <==> id in ids && id !in evidence
    ensures forall i, j :: 0 <= i < j < |unknown| ==> AppearsFirst(ids, unknown[i], unknown[j])
  {
    unknown := [];
    for k := 0 to |ids|
      invariant forall i, j :: 0 <= i < j < |unknown| ==> unknown[i] != unknown[j]
      invariant forall id :: id in unknown <==> id in ids[..k] && id !in evidence
      invariant forall i, j :: 0 <= i < j < |unknown| ==> AppearsFirst(ids, unknown[i], unknown[j])
    {
      assert ids[..k + 1] == ids[..k] + [ids[k]];
      if ids[k] !in evidence && ids[k] !in unknown {
        forall i | 0 <= i < |unknown| ensures AppearsFirst(ids, unknown[i], ids[k]) {
          assert unknown[i] in ids[..k];
          var p :| 0 <= p < k && ids[p] == unknown[i];
          assert forall q | 0 <= q <= p :: ids[q] == ids[..k][q];
        }
        unknown := unknown + [ids[k]];
      }
    }
    assert ids[..|ids|] == ids;
  }

  method LongestStyleCopy(answer: seq<Token>, styles: seq<Node>) returns (longest: nat)
    ensures forall limit: nat :: longest <= limit <==> Original(answer, styles, limit)
    ensures longest > 0 ==> exists k | 0 <= k < |styles| :: IsLongest(answer, styles[k].tokens, longest)
  {
    hide IsLongest;
    longest := 0;
    for k := 0 to |styles|
      invariant forall limit: nat :: longest <= limit <==> Original(answer, styles[..k], limit)
      invariant longest > 0 ==> exists n | 0 <= n < |styles| :: IsLongest(answer, styles[n].tokens, longest)
    {
      var run := LongestCommonTokenRun(answer, styles[k].tokens);
      ghost var before := longest;
      if run > longest {
        longest := run;
      }
      ghost var shown := styles[..k + 1];
      forall limit: nat ensures longest <= limit <==> Original(answer, shown, limit) {
        assert before <= limit <==> Original(answer, styles[..k], limit);
        OneMoreStyle(answer, styles, k, run, limit);
      }
    }
    assert styles[..|styles|] == styles;
  }

  lemma OneMoreStyle(answer: seq<Token>, styles: seq<Node>, k: nat, run: nat, limit: nat)
    requires k < |styles| && IsLongest(answer, styles[k].tokens, run)
    ensures Original(answer, styles[..k + 1], limit) <==> Original(answer, styles[..k], limit) && run <= limit
  {
    LimitExcludesLongerRuns(answer, styles[k].tokens, run, limit);
    hide Shares;
    assert styles[..k + 1] == styles[..k] + [styles[k]];
    if Original(answer, styles[..k + 1], limit) {
      forall n | 0 <= n < k ensures !Shares(answer, styles[..k][n].tokens, limit + 1) {
        assert styles[..k][n] == styles[..k + 1][n];
      }
      assert styles[..k + 1][k] == styles[k];
    }
  }

  ghost predicate MarkersHold(claim: Claim, evidence: map<NodeId, Node>) {
    forall m :: m in claim.markers ==> Supported(claim, evidence, m)
  }

  ghost predicate AllMarkersHold(claims: seq<Claim>, evidence: map<NodeId, Node>) {
    forall k | 0 <= k < |claims| :: MarkersHold(claims[k], evidence)
  }

  ghost predicate AllRolesHold(claims: seq<Claim>, evidence: map<NodeId, Node>) {
    forall k | 0 <= k < |claims| :: RolesHold(claims[k], evidence)
  }

  ghost predicate AllKnown(claims: seq<Claim>, evidence: map<NodeId, Node>) {
    forall c, id :: c in claims && id in c.cited ==> id in evidence
  }

  ghost predicate AllCite(claims: seq<Claim>) {
    forall c :: c in claims ==> c.cited != []
  }

  /** Each citation whose source plays a role its claim does not allow counts once. */
  function LeakTotal(claims: seq<Claim>, evidence: map<NodeId, Node>): nat {
    if claims == [] then 0
    else
      var last := claims[|claims| - 1];
      LeakTotal(claims[..|claims| - 1], evidence) + LeaksIn(Named(last.cited, evidence), last.roles)
  }

  /** The unsupported markers of all claims, claim after claim. */
  function AllLacking(claims: seq<Claim>, evidence: map<NodeId, Node>): seq<(ClaimId, string)> {
    if claims == [] then []
    else
      var last := claims[|claims| - 1];
      AllLacking(claims[..|claims| - 1], evidence) + Lacking(last.id, last.markers, Named(last.cited, evidence))
  }

  ghost predicate Misses(claim: Claim, evidence: map<NodeId, Node>, pair: (ClaimId, string)) {
    claim.id == pair.0 && pair.1 in claim.markers && !Supported(claim, evidence, pair.1)
  }

  /** The loop over the claims: unsupported markers and leaking citations. */
  method CheckClaims(claims: seq<Claim>, evidence: map<NodeId, Node>)
      returns (missing: seq<(ClaimId, string)>, leaks: nat, markers: nat)
    ensures markers == MarkerTotal(claims) && |missing| <= markers
    ensures missing == [] <==> AllMarkersHold(claims, evidence)
    ensures leaks == 0 <==> AllRolesHold(claims, evidence)
    ensures leaks == LeakTotal(claims, evidence)
    ensures missing == AllLacking(claims, evidence)
    ensures forall pair :: pair in missing <==> exists k | 0 <= k < |claims| :: Misses(claims[k], evidence, pair)
  {
    hide Lacking, LeaksIn, Named;
    missing, leaks, markers := [], 0, 0;
    for i := 0 to |claims|
      invariant markers == MarkerTotal(claims[..i])
      invariant leaks == LeakTotal(claims[..i], evidence)
      invariant missing == AllLacking(claims[..i], evidence)
    {
      var nodes := Named(claims[i].cited, evidence);
      leaks := leaks + LeaksIn(nodes, claims[i].roles);
      var unsupported := MissingMarkers(claims[i], nodes);
      missing := missing + unsupported;
      markers := markers + |claims[i].markers|;
      assert claims[..i + 1][..i] == claims[..i];
    }
    assert claims[..|claims|] == claims;
    AllLackingIff(claims, evidence);
    LeakTotalIff(claims, evidence);
  }

  lemma {:induction false} LeakTotalIff(claims: seq<Claim>, evidence: map<NodeId, Node>)
    ensures LeakTotal(claims, evidence) == 0 <==> AllRolesHold(claims, evidence)
    decreases |claims|
  {
    hide RolesHold, LeaksIn, Named;
    if claims != [] {
      var n := |claims| - 1;
      LeakTotalIff(claims[..n], evidence);
      RolesHoldIff(claims[n], evidence);
      assert forall k | 0 <= k < n :: claims[..n][k] == claims[k];
    }
  }

  lemma {:induction false} AllLackingIff(claims: seq<Claim>, evidence: map<NodeId, Node>)
    ensures |AllLacking(claims, evidence)| <= MarkerTotal(claims)
    ensures forall pair ::
              pair in AllLacking(claims, evidence) <==>
                exists k | 0 <= k < |claims| :: Misses(claims[k], evidence, pair)
    ensures AllLacking(claims, evidence) == [] <==> AllMarkersHold(claims, evidence)
    decreases |claims|
  {
    hide Misses, Lacking, Named, MarkersHold;
    if claims != [] {
      var n := |claims| - 1;
      AllLackingIff(claims[..n], evidence);
      LackingIff(claims[n].id, claims[n].markers, Named(claims[n].cited, evidence));
      LackingMisses(claims[n], evidence);
      assert forall k | 0 <= k < n :: claims[..n][k] == claims[k];
    }
  }

  lemma LackingMisses(claim: Claim, evidence: map<NodeId, Node>)
    ensures var lacking := Lacking(claim.id, claim.markers, Named(claim.cited, evidence));
            && (forall pair :: pair in lacking <==> Misses(claim, evidence, pair))
            && (lacking == [] <==> MarkersHold(claim, evidence))
  {
    var nodes := Named(claim.cited, evidence);
    var lacking := Lacking(claim.id, claim.markers, nodes);
    LackingIff(claim.id, claim.markers, nodes);
    hide Lacking, Named, Supported, SupportedBy;
    forall m ensures SupportedBy(nodes, m) <==> Supported(claim, evidence, m) {
      SupportedIff(claim, evidence, m);
    }
    if lacking != [] {
      assert lacking[0] in lacking;
    } else {
      forall m | m in claim.markers ensures Supported(claim, evidence, m) {
        assert (claim.id, m) !in lacking;
      }
    }
  }

  /**
   The answer passes exactly when every claim is cited, every citation is known and of an allowed role, every
   marker is supported by a node its claim cites, and no style node shares a longer run than the limit.
   */
  method EvaluateGroundedAnswer(
      claims: seq<Claim>, answer: seq<Token>, limit: nat, evidence: map<NodeId, Node>, styles: seq<Node>)
      returns (score: Score)
    requires claims != []
    ensures score.passed <==> (forall c :: c in claims ==> ClaimHolds(c, evidence)) && Original(answer, styles, limit)
    ensures 0.0 <= score.claimCoverage <= 1.0 && 0.0 <= score.identityValidity <= 1.0 &&
            0.0 <= score.supportCoverage <= 1.0
    ensures score.claimCoverage == 1.0 <==> AllCite(claims)
    ensures score.identityValidity == 1.0 <==> AllKnown(claims, evidence)
    ensures score.supportCoverage == 1.0 <==> AllMarkersHold(claims, evidence)
    ensures forall id :: id in score.unknownCitations <==> id !in evidence && exists c :: c in claims && id in c.cited
    ensures forall pair :: pair in score.missingSupport <==>
              exists k | 0 <= k < |claims| :: Misses(claims[k], evidence, pair)
    ensures score.roleLeaks == LeakTotal(claims, evidence)
    ensures score.missingCitations == Uncited(claims) && score.missingSupport == AllLacking(claims, evidence)
    ensures var n, known := |claims|, |AllCitations(claims)| - UnknownIn(AllCitations(claims), evidence);
            && score.claimCoverage * n as real == (n - |UncitedAt(claims)|) as real
            && score.identityValidity * |AllCitations(claims)| as real == known as real
            && score.supportCoverage * MarkerTotal(claims) as real ==
                 (MarkerTotal(claims) - |AllLacking(claims, evidence)|) as real
    ensures forall n: nat :: score.longestStyleCopy <= n <==> Original(answer, styles, n)
  {
    hide Misses, LeakTotal, Original, AllMarkersHold, AllRolesHold, ClaimHolds, AllLacking, MarkerTotal, UnknownIn,
         AllCitations, Uncited, UncitedAt, AppearsFirst, AllKnown;
    var citations := AllCitations(claims);
    var unknown := UniqueUnknown(citations, evidence);
    var missing, leaks, markers := CheckClaims(claims, evidence);
    var copied := LongestStyleCopy(answer, styles);
    UncitedIff(claims);
    UncitedCounts(claims);
    UnknownBound(citations, evidence);
    KnownIff(claims, evidence);
    var coverage := Coverage(|Uncited(claims)|, |claims|);
    var validity := Coverage(UnknownIn(citations, evidence), |citations|);
    var support := Coverage(|missing|, markers);
    PassesIff(claims, evidence);
    score := Score(
      coverage, validity, support, leaks, copied, Uncited(claims), missing, unknown,
      coverage == 1.0 && validity == 1.0 && support == 1.0 && leaks == 0 && copied <= limit);
  }

  lemma KnownIff(claims: seq<Claim>, evidence: map<NodeId, Node>)
    ensures AllKnown(claims, evidence) <==> forall id :: id in AllCitations(claims) ==> id in evidence
    ensures forall id :: id in AllCitations(claims) <==> exists c :: c in claims && id in c.cited
  {
    forall id ensures id in AllCitations(claims) <==> exists c :: c in claims && id in c.cited {
      CitedIff(claims, id);
    }
  }

  lemma PassesIff(claims: seq<Claim>, evidence: map<NodeId, Node>)
    ensures (forall c :: c in claims ==> ClaimHolds(c, evidence)) <==>
              AllCite(claims) && AllKnown(claims, evidence) && AllMarkersHold(claims, evidence) &&
              AllRolesHold(claims, evidence)
  {
    hide Supported;
    forall k | 0 <= k < |claims|
      ensures ClaimHolds(claims[k], evidence) <==>
                && claims[k].cited != [] && (forall id :: id in claims[k].cited ==> id in evidence)
                && MarkersHold(claims[k], evidence) && RolesHold(claims[k], evidence)
    {
    }
    hide ClaimHolds, MarkersHold, RolesHold;
    assert forall c :: c in claims ==> exists k :: 0 <= k < |claims| && claims[k] == c;
    assert forall k :: 0 <= k < |claims| ==> claims[k] in claims;
  }
}
