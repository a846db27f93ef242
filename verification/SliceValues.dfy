/**
 Which turns share a slice (`_slice_rollups` in tools/run_operational_evaluation.py).  A slice's value is text put
 together from a turn's configuration, so turns of different configurations share one where the text is ambiguous.
 */
module SliceValues {
  import opened OperationalRollup
  import opened Sequences

  /** `s` up to the first `c`, and what follows it, are determined by the whole. */
  lemma SplitAtFirst(s: string, t: string, s': string, t': string, c: char)
    requires c !in s && c !in s' && s + [c] + t == s' + [c] + t'
    ensures s == s' && t == t'
  {
    NotShorter(s, t, s', t', c);
    NotShorter(s', t', s, t, c);
    var whole := s + [c] + t;
    assert s == whole[..|s|] && s' == whole[..|s'|];
    assert t == whole[|s| + 1..] && t' == whole[|s'| + 1..];
  }

  lemma NotShorter(s: string, t: string, s': string, t': string, c: char)
    requires c !in s' && s + [c] + t == s' + [c] + t'
    ensures |s| >= |s'|
  {
    var whole := s + [c] + t;
    assert whole[|s|] == c && forall k | 0 <= k < |s'| :: whole[k] == s'[k];
  }

  predicate Without(names: seq<string>, c: char) {
    forall k | 0 <= k < |names| :: c !in names[k]
  }

  /** Model names without a plus sign are told apart. */
  lemma {:induction false} JoinedIsInjective(a: seq<string>, b: seq<string>)
    requires a != [] && b != [] && Without(a, '+') && Without(b, '+') && Joined(a) == Joined(b)
    ensures a == b
    decreases |a|
  {
    if |a| > 1 { PlusIsSeen(a); }
    if |b| > 1 { PlusIsSeen(b); }
    if |a| == 1 || |b| == 1 {
      assert '+' !in Joined(a) || '+' !in Joined(b);
      assert a == [a[0]] && b == [b[0]];
    } else {
      PlusIsFirst(a);
      PlusIsFirst(b);
      SplitAtFirst(a[0] + " ", " " + Joined(a[1..]), b[0] + " ", " " + Joined(b[1..]), '+');
      assert (" " + Joined(a[1..]))[1..] == Joined(a[1..]) && (" " + Joined(b[1..]))[1..] == Joined(b[1..]);
      assert (a[0] + " ")[..|a[0]|] == a[0] && (b[0] + " ")[..|b[0]|] == b[0];
      JoinedIsInjective(a[1..], b[1..]);
      assert a == [a[0]] + a[1..] && b == [b[0]] + b[1..];
    }
  }

  lemma PlusIsFirst(names: seq<string>)
    requires |names| > 1
    ensures Joined(names) == (names[0] + " ") + ['+'] + (" " + Joined(names[1..]))
  {
    PlusBetween(names[0], Joined(names[1..]));
    hide Joined;
  }

  lemma PlusBetween(s: string, t: string)
    ensures s + " + " + t == (s + " ") + ['+'] + (" " + t)
  {
    Regroup(s, " ", ['+'] + (" " + t));
    assert " + " == " " + (['+'] + " ");
  }

  lemma PlusIsSeen(names: seq<string>)
    requires |names| > 1
    ensures '+' in Joined(names)
  {
    PlusIsFirst(names);
    assert Joined(names)[|names[0]| + 1] == '+';
  }

  /** What a slice's value shows of a turn. */
  lemma ShowsTheTurn(t: Turn)
    ensures SliceValue(t, TurnStatus) == t.status
    ensures SliceValue(t, ToolCatalog) == if t.toolCatalog == "" then "not_frozen" else t.toolCatalog
    ensures t.models == [] ==> SliceValue(t, Model) == "not_invoked"
    ensures |t.models| == 1 && t.models[0] != "" ==> SliceValue(t, Model) == t.models[0]
    ensures var date := SliceValue(t, CreatedDate);
            date <= t.createdAt && |date| == if |t.createdAt| < 10 then |t.createdAt| else 10
    ensures t.skillName != "" && t.skillRevision != "" ==>
              SliceValue(t, MainSkill) == t.skillName + "@" + t.skillRevision
    ensures t.skillName == "" && t.skillRevision == "" ==> SliceValue(t, MainSkill) == "not_frozen@unknown"
  {
  }

  /** Turns share a slice of a dimension exactly if they agree on what it is about, as far as texts are unambiguous. */
  lemma SharesSliceIff(t: Turn, u: Turn)
    ensures SliceValue(t, TurnStatus) == SliceValue(u, TurnStatus) <==> t.status == u.status
    ensures "not_frozen" !in {t.toolCatalog, u.toolCatalog} ==>
              (SliceValue(t, ToolCatalog) == SliceValue(u, ToolCatalog) <==> t.toolCatalog == u.toolCatalog)
    ensures |t.createdAt| >= 10 && |u.createdAt| >= 10 ==>
              (SliceValue(t, CreatedDate) == SliceValue(u, CreatedDate) <==> t.createdAt[..10] == u.createdAt[..10])
    ensures '@' !in t.skillName && '@' !in u.skillName && "not_frozen" !in {t.skillName, u.skillName}
            && "unknown" !in {t.skillRevision, u.skillRevision} ==>
              (SliceValue(t, MainSkill) == SliceValue(u, MainSkill) <==>
                 t.skillName == u.skillName && t.skillRevision == u.skillRevision)
    ensures t.models != [] && u.models != [] && Without(t.models, '+') && Without(u.models, '+')
            && {Joined(t.models), Joined(u.models)} !! {"", "not_invoked"} ==>
              (SliceValue(t, Model) == SliceValue(u, Model) <==> t.models == u.models)
  {
    if '@' !in t.skillName && '@' !in u.skillName && SliceValue(t, MainSkill) == SliceValue(u, MainSkill) {
      SkillsApart(t, u);
    }
    if t.models != [] && u.models != [] && Without(t.models, '+') && Without(u.models, '+')
       && Joined(t.models) == Joined(u.models)
    {
      JoinedIsInjective(t.models, u.models);
    }
    hide Joined;
  }

  lemma SkillsApart(t: Turn, u: Turn)
    requires '@' !in t.skillName && '@' !in u.skillName && SliceValue(t, MainSkill) == SliceValue(u, MainSkill)
    ensures Or(t.skillName, "not_frozen") == Or(u.skillName, "not_frozen")
    ensures Or(t.skillRevision, "unknown") == Or(u.skillRevision, "unknown")
  {
    SplitAtFirst(Or(t.skillName, "not_frozen"), Or(t.skillRevision, "unknown"),
                 Or(u.skillName, "not_frozen"), Or(u.skillRevision, "unknown"), '@');
  }

  /** Where texts are ambiguous, turns of different skills or models share a slice. */
  lemma DifferentTurnsShareSlices(t: Turn)
    ensures SliceValue(t.(skillName := "a@b", skillRevision := "c"), MainSkill)
         == SliceValue(t.(skillName := "a", skillRevision := "b@c"), MainSkill)
    ensures SliceValue(t.(models := ["a + b"]), Model) == SliceValue(t.(models := ["a", "b"]), Model)
    ensures SliceValue(t.(models := []), Model) == SliceValue(t.(models := ["not_invoked"]), Model)
  {
    assert "a@b" + "@" + "c" == "a" + "@" + "b@c";
    assert Joined(["a", "b"]) == "a" + " + " + Joined(["b"]);
    assert ["a", "b"][1..] == ["b"] && "a" + " + " + "b" == "a + b";
  }
}
