/** Lifecycle enforcement: choosing one event for an object version, and the pass over the
    versions of a key that keeps count of the noncurrent versions it retains. */
module Lifecycle {
  import opened ByteCodec

  const SECONDS_PER_DAY: nat := 86_400
  const U64_MAX: nat := 0xffff_ffff_ffff_ffff

  datatype Action = Nothing | Delete | DeleteVersion | DeleteExpiredMarker

  datatype Event = Event(action: Action, ruleId: string, due: u64)

  datatype Filter = Filter(unsupported: bool, prefix: Option<string>)

  datatype Expiration = Expiration(days: Option<int>, expiredMarker: bool)

  datatype Noncurrent = Noncurrent(newer: Option<int>, days: Option<int>)

  datatype Rule = Rule(
    enabled: bool,
    id: string,
    filter: Option<Filter>,
    prefix: Option<string>,
    expiration: Option<Expiration>,
    noncurrent: Option<Noncurrent>)

  datatype Version = Version(createdAt: u64, versionId: string, isLatest: bool, isDeleteMarker: bool)

  /** What the evaluator sees of one version. */
  datatype Snapshot = Snapshot(name: string, version: Version, total: nat, successorTime: u64)

  // Choosing an event

  /** Saturating, as the source computes it on 64 bits; days that are not positive add nothing. */
  function ExpectedExpiry(time: u64, days: int): (due: u64)
    ensures due >= time
  {
    if days <= 0 then time else Min(time + Min(days * SECONDS_PER_DAY, U64_MAX), U64_MAX)
  }

  predicate PrefixAccepts(prefix: Option<string>, name: string)
  {
    prefix.Some? && prefix.value != "" ==> prefix.value <= name
  }

  predicate Matches(rule: Rule, name: string)
  {
    match rule.filter
    case Some(f) => !f.unsupported && PrefixAccepts(f.prefix, name)
    case None => PrefixAccepts(rule.prefix, name)
  }

  predicate Applies(rule: Rule, name: string)
  {
    rule.enabled && Matches(rule, name)
  }

  /** The event for reaping a marker that is the only version left. */
  function MarkerEvent(rule: Rule, obj: Snapshot, now: u64): (r: Option<Event>)
  {
    if obj.version.isDeleteMarker && obj.total == 1 && rule.expiration.Some? then
      if rule.expiration.value.expiredMarker then Some(Event(DeleteExpiredMarker, rule.id, now))
      else match rule.expiration.value.days
        case None => None
        case Some(days) =>
          var due := ExpectedExpiry(obj.version.createdAt, days);
          if now >= due then Some(Event(DeleteExpiredMarker, rule.id, due)) else None
    else None
  }

  /** When a noncurrent version is due: counted from the version that replaced it. */
  function NoncurrentDue(nc: Noncurrent, obj: Snapshot): (due: u64)
  {
    var base := if obj.successorTime > 0 then obj.successorTime else obj.version.createdAt;
    ExpectedExpiry(base, if nc.days.Some? then nc.days.value else 0)
  }

  predicate RetainedEnough(nc: Noncurrent, newer: nat)
  {
    nc.newer.Some? && nc.newer.value > 0 ==> newer >= nc.newer.value
  }

  function NoncurrentEvent(rule: Rule, obj: Snapshot, now: u64, newer: nat): (r: Option<Event>)
  {
    if !obj.version.isLatest && rule.noncurrent.Some?
       && RetainedEnough(rule.noncurrent.value, newer) && now >= NoncurrentDue(rule.noncurrent.value, obj)
    then Some(Event(DeleteVersion, rule.id, NoncurrentDue(rule.noncurrent.value, obj)))
    else None
  }

  function CurrentEvent(rule: Rule, obj: Snapshot, now: u64): (r: Option<Event>)
  {
    if obj.version.isLatest && !obj.version.isDeleteMarker
       && rule.expiration.Some? && rule.expiration.value.days.Some? then
      var due := ExpectedExpiry(obj.version.createdAt, rule.expiration.value.days.value);
      if now >= due then Some(Event(Delete, rule.id, due)) else None
    else None
  }

  /** What one rule wants done. */
  function Candidate(rule: Rule, obj: Snapshot, now: u64, newer: nat): (r: Option<Event>)
  {
    if !Applies(rule, obj.name) then None
    else if MarkerEvent(rule, obj, now).Some? then MarkerEvent(rule, obj, now)
    else if NoncurrentEvent(rule, obj, now, newer).Some? then NoncurrentEvent(rule, obj, now, newer)
    else CurrentEvent(rule, obj, now)
  }

  function Earlier(a: Option<Event>, b: Event): (r: Option<Event>)
  {
    if a.Some? && a.value.due <= b.due then a else Some(b)
  }

  function Choose(rules: seq<Rule>, obj: Snapshot, now: u64, newer: nat): (r: Option<Event>)
  {
    if rules == [] then None
    else
      var chosen, c := Choose(rules[..|rules| - 1], obj, now, newer), Candidate(rules[|rules| - 1], obj, now, newer);
      if c.Some? then Earlier(chosen, c.value) else chosen
  }

  function Eval(rules: seq<Rule>, obj: Snapshot, now: u64, newer: nat): (e: Event)
  {
    if obj.version.createdAt == 0 then Event(Nothing, "", 0)
    else match Choose(rules, obj, now, newer)
      case None => Event(Nothing, "", 0)
      case Some(e) => e
  }

  method EvalRules(rules: seq<Rule>, obj: Snapshot, now: u64, newer: nat) returns (e: Event)
    ensures e == Eval(rules, obj, now, newer)
  {
    if obj.version.createdAt == 0 { return Event(Nothing, "", 0); }
    var chosen: Option<Event> := None;
    for k := 0 to |rules|
      invariant chosen == Choose(rules[..k], obj, now, newer)
    {
      assert rules[..k + 1][..k] == rules[..k];
      var rule := rules[k];
      if !rule.enabled || !Matches(rule, obj.name) { continue; }
      var marker := MarkerEvent(rule, obj, now);
      if marker.Some? {
        chosen := Earlier(chosen, marker.value);
        continue;
      }
      var noncurrent := NoncurrentEvent(rule, obj, now, newer);
      if noncurrent.Some? {
        chosen := Earlier(chosen, noncurrent.value);
        continue;
      }
      var current := CurrentEvent(rule, obj, now);
      if current.Some? { chosen := Earlier(chosen, current.value); }
    }
    assert rules[..|rules|] == rules;
    e := match chosen case None => Event(Nothing, "", 0) case Some(c) => c;
  }

  /** `k` is the rule that decides: due before every rule in front of it, and not after any
      behind it. */
  ghost predicate Decides(rules: seq<Rule>, obj: Snapshot, now: u64, newer: nat, k: nat)
    requires k < |rules|
  {
    && Candidate(rules[k], obj, now, newer).Some?
    && forall i :: 0 <= i < |rules| && Candidate(rules[i], obj, now, newer).Some? ==>
         var due := Candidate(rules[i], obj, now, newer).value.due;
         var best := Candidate(rules[k], obj, now, newer).value.due;
         if i < k then best < due else best <= due
  }

  /** The event chosen is that of the first rule with the earliest due time, and there is
      none exactly when no rule wants anything. */
  lemma {:induction false} ChoosesEarliest(rules: seq<Rule>, obj: Snapshot, now: u64, newer: nat)
    ensures var chosen := Choose(rules, obj, now, newer);
            && (chosen.None? <==> forall i :: 0 <= i < |rules| ==> Candidate(rules[i], obj, now, newer).None?)
            && (chosen.Some? ==>
                  exists k: nat :: k < |rules| && Decides(rules, obj, now, newer, k)
                                   && Candidate(rules[k], obj, now, newer) == chosen)
  {
    hide Candidate, Decides;
    if rules != [] {
      var n := |rules| - 1;
      var front := rules[..n];
      ChoosesEarliest(front, obj, now, newer);
      assert forall i :: 0 <= i < n ==> front[i] == rules[i];
      var before, c := Choose(front, obj, now, newer), Candidate(rules[n], obj, now, newer);
      if before.Some? {
        var k: nat :| k < n && Decides(front, obj, now, newer, k) && Candidate(front[k], obj, now, newer) == before;
        StillDecides(rules, obj, now, newer, k);
        assert Candidate(rules[k], obj, now, newer) == before;
        if c.Some? && c.value.due < before.value.due {
          assert Decides(rules, obj, now, newer, n);
        } else {
          assert Decides(rules, obj, now, newer, k);
        }
      } else if c.Some? {
        FirstToDecide(rules, obj, now, newer);
      }
    }
  }

  lemma StillDecides(rules: seq<Rule>, obj: Snapshot, now: u64, newer: nat, k: nat)
    requires k < |rules| - 1 && Decides(rules[..|rules| - 1], obj, now, newer, k)
    ensures var n := |rules| - 1;
            var c, best := Candidate(rules[n], obj, now, newer), Candidate(rules[k], obj, now, newer);
            Decides(rules, obj, now, newer, if c.Some? && c.value.due < best.value.due then n else k)
  {
    hide Candidate;
    var front := rules[..|rules| - 1];
    assert forall i :: 0 <= i < |front| ==> front[i] == rules[i];
  }

  lemma FirstToDecide(rules: seq<Rule>, obj: Snapshot, now: u64, newer: nat)
    requires rules != [] && Candidate(rules[|rules| - 1], obj, now, newer).Some?
    requires forall i :: 0 <= i < |rules| - 1 ==> Candidate(rules[i], obj, now, newer).None?
    ensures Decides(rules, obj, now, newer, |rules| - 1)
  {
    hide Candidate;
  }

  // The pass over the versions of one key

  datatype Progress = Progress(done: seq<Action>, newer: nat)

  /** The action performed for an event: a version without an id cannot be deleted by id, and
      the store may refuse. */
  function Apply(action: Action, versionId: string, accepted: bool): (r: Action)
  {
    if !accepted || (action.DeleteVersion? && versionId == "") then Nothing else action
  }

  function SnapshotAt(key: string, total: nat, versions: seq<Version>, i: nat): (obj: Snapshot)
    requires i < |versions|
  {
    Snapshot(key, versions[i], total, if i == 0 then 0 else versions[i - 1].createdAt)
  }

  /** The pass over the first versions of a list of `total`; `accepted` says which deletes the
      store carries out. */
  function Pass(rules: seq<Rule>, key: string, now: u64, total: nat, versions: seq<Version>,
                accepted: seq<bool>): (r: Progress)
    requires |versions| <= |accepted|
    ensures |r.done| == |versions|
  {
    if versions == [] then Progress([], 0)
    else
      var n := |versions| - 1;
      var before := Pass(rules, key, now, total, versions[..n], accepted);
      Advance(rules, SnapshotAt(key, total, versions, n), now, before, accepted[n])
  }

  /** One more version is examined. */
  function Advance(rules: seq<Rule>, obj: Snapshot, now: u64, before: Progress, accepted: bool): (r: Progress)
    ensures |r.done| == |before.done| + 1
  {
    var act := Apply(Eval(rules, obj, now, before.newer).action, obj.version.versionId, accepted);
    Progress(before.done + [act], if !obj.version.isLatest && act.Nothing? then before.newer + 1 else before.newer)
  }

  lemma PassSnoc(rules: seq<Rule>, key: string, now: u64, total: nat, front: seq<Version>, v: Version,
                 accepted: seq<bool>)
    requires |front| < |accepted|
    ensures Pass(rules, key, now, total, front + [v], accepted)
            == Advance(rules, SnapshotAt(key, total, front + [v], |front|), now,
                       Pass(rules, key, now, total, front, accepted), accepted[|front|])
  {
    hide Advance, SnapshotAt;
    assert (front + [v])[..|front|] == front;
  }

  method ApplyVersions(rules: seq<Rule>, key: string, now: u64, versions: seq<Version>, accepted: seq<bool>)
    returns (done: seq<Action>)
    requires |versions| <= |accepted|
    ensures done == Pass(rules, key, now, |versions|, versions, accepted).done
  {
    hide Eval, Apply;
    done := [];
    var newer := 0;
    for i := 0 to |versions|
      invariant Pass(rules, key, now, |versions|, versions[..i], accepted) == Progress(done, newer)
    {
      assert versions[..i + 1][..i] == versions[..i];
      var obj := SnapshotAt(key, |versions|, versions, i);
      assert obj == SnapshotAt(key, |versions|, versions[..i + 1], i);
      var event := EvalRules(rules, obj, now, newer);
      var act := Apply(event.action, obj.version.versionId, accepted[i]);
      done := done + [act];
      if !versions[i].isLatest && act.Nothing? { newer := newer + 1; }
    }
    assert versions[..|versions|] == versions;
  }

  // Retention

  /** How many of the versions are not the latest. */
  function CountNoncurrent(versions: seq<Version>): (n: nat)
  {
    if versions == [] then 0
    else CountNoncurrent(versions[..|versions| - 1]) + if versions[|versions| - 1].isLatest then 0 else 1
  }

  /** Every noncurrent rule that applies to the key keeps at least `n` newer versions. */
  ghost predicate AllKeep(rules: seq<Rule>, key: string, n: nat)
  {
    forall i :: 0 <= i < |rules| && Applies(rules[i], key) && rules[i].noncurrent.Some? ==>
      rules[i].noncurrent.value.newer.Some? && rules[i].noncurrent.value.newer.value >= n
  }

  ghost predicate SomeRuleDeletes(rules: seq<Rule>, obj: Snapshot, now: u64, newer: nat)
  {
    exists i :: 0 <= i < |rules| && Applies(rules[i], obj.name) && NoncurrentEvent(rules[i], obj, now, newer).Some?
  }

  /** On a noncurrent version of a list of two or more, only noncurrent rules act. */
  lemma NoncurrentAction(rules: seq<Rule>, obj: Snapshot, now: u64, newer: nat)
    requires !obj.version.isLatest && obj.total != 1
    ensures var a := Eval(rules, obj, now, newer).action;
            && (a.Nothing? || a.DeleteVersion?)
            && (a.DeleteVersion? <==> obj.version.createdAt != 0 && SomeRuleDeletes(rules, obj, now, newer))
  {
    ChoosesEarliest(rules, obj, now, newer);
  }

  lemma {:induction false} RetainedCount(rules: seq<Rule>, key: string, now: u64, total: nat, versions: seq<Version>,
                                         accepted: seq<bool>, n: nat)
    requires |versions| <= |accepted| && total != 1 && AllKeep(rules, key, n) && CountNoncurrent(versions) <= n
    ensures var r := Pass(rules, key, now, total, versions, accepted);
            && r.newer == CountNoncurrent(versions)
            && forall i :: 0 <= i < |versions| && !versions[i].isLatest ==> r.done[i].Nothing?
  {
    hide Eval;
    if versions != [] {
      var k := |versions| - 1;
      RetainedCount(rules, key, now, total, versions[..k], accepted, n);
      var before := Pass(rules, key, now, total, versions[..k], accepted);
      if !versions[k].isLatest {
        NoncurrentAction(rules, SnapshotAt(key, total, versions, k), now, before.newer);
      }
    }
  }

  lemma {:induction false} PassPrefix(rules: seq<Rule>, key: string, now: u64, total: nat, versions: seq<Version>,
                                      accepted: seq<bool>, k: nat)
    requires k <= |versions| <= |accepted|
    ensures Pass(rules, key, now, total, versions, accepted).done[..k]
            == Pass(rules, key, now, total, versions[..k], accepted).done
  {
    hide Eval, Apply, SnapshotAt;
    if k < |versions| {
      var n := |versions| - 1;
      PassPrefix(rules, key, now, total, versions[..n], accepted, k);
      assert versions[..n][..k] == versions[..k];
    } else {
      assert versions[..k] == versions;
    }
  }

  /** Retention: if every noncurrent rule keeps `n` versions, the first `n` noncurrent versions
      of a list of two or more are never deleted, whatever deletes the store refuses. */
  lemma RetentionHolds(rules: seq<Rule>, key: string, now: u64, versions: seq<Version>, accepted: seq<bool>, n: nat,
                       i: nat)
    requires i < |versions| <= |accepted| && |versions| >= 2 && AllKeep(rules, key, n)
    requires !versions[i].isLatest && CountNoncurrent(versions[..i]) < n
    ensures Pass(rules, key, now, |versions|, versions, accepted).done[i].Nothing?
  {
    hide Pass, AllKeep;
    var front := versions[..i + 1];
    assert front[..i] == versions[..i];
    RetainedCount(rules, key, now, |versions|, front, accepted, n);
    PassPrefix(rules, key, now, |versions|, versions, accepted, i + 1);
    var all := Pass(rules, key, now, |versions|, versions, accepted).done;
    assert all[i] == all[..i + 1][i];
  }

  // Convergence

  /** The versions the pass left in place. */
  function Survivors(versions: seq<Version>, done: seq<Action>): (r: seq<Version>)
    requires |done| == |versions|
  {
    if versions == [] then []
    else
      var n := |versions| - 1;
      Survivors(versions[..n], done[..n]) + if done[n].DeleteVersion? then [] else [versions[n]]
  }

  ghost predicate OnlyNoncurrentRules(rules: seq<Rule>)
  {
    forall i :: 0 <= i < |rules| ==> rules[i].expiration.None?
  }

  /** The head is the latest version and no other is. */
  ghost predicate LatestHead(versions: seq<Version>)
  {
    forall i :: 0 <= i < |versions| ==> (versions[i].isLatest <==> i == 0)
  }

  ghost predicate NewestFirst(versions: seq<Version>)
  {
    forall i, j :: 0 <= i < j < |versions| ==> versions[i].createdAt >= versions[j].createdAt
  }

  /** With only noncurrent rules a version is deleted exactly when one of them says so. */
  lemma OnlyNoncurrentActs(rules: seq<Rule>, obj: Snapshot, now: u64, newer: nat)
    requires OnlyNoncurrentRules(rules)
    ensures Eval(rules, obj, now, newer).action
            == if obj.version.createdAt != 0 && SomeRuleDeletes(rules, obj, now, newer) then DeleteVersion else Nothing
  {
    ChoosesEarliest(rules, obj, now, newer);
  }

  /** A later replacement time never makes a version due sooner. */
  lemma LaterIsSafer(rules: seq<Rule>, obj: Snapshot, later: Snapshot, now: u64, newer: nat)
    requires obj.name == later.name && obj.version == later.version
    requires obj.successorTime <= later.successorTime && (obj.successorTime == 0 ==> later.successorTime == 0)
    requires SomeRuleDeletes(rules, later, now, newer)
    ensures SomeRuleDeletes(rules, obj, now, newer)
  {
    var i :| 0 <= i < |rules| && Applies(rules[i], later.name) && NoncurrentEvent(rules[i], later, now, newer).Some?;
    assert NoncurrentEvent(rules[i], obj, now, newer).Some?;
  }

  /** The survivors so far end with a version at least as new as the last one seen. */
  lemma {:induction false} SurvivorsEnd(versions: seq<Version>, done: seq<Action>)
    requires |done| == |versions| && versions != [] && NewestFirst(versions) && !done[0].DeleteVersion?
    ensures var s, last := Survivors(versions, done), |versions| - 1;
            && s != [] && s[|s| - 1].createdAt >= versions[last].createdAt
            && (!done[last].DeleteVersion? ==> s[|s| - 1] == versions[last])
  {
    var n := |versions| - 1;
    if n > 0 {
      SurvivorsEnd(versions[..n], done[..n]);
    }
  }

  /** All versions but the last, which replaced no other. */
  function Replacing(versions: seq<Version>): (r: seq<Version>)
  {
    if versions == [] then [] else versions[..|versions| - 1]
  }

  /** The second pass, over the survivors of the first so far: nothing is done, and the count
      of retained versions is the same. */
  lemma {:induction false} SecondPass(rules: seq<Rule>, key: string, now: u64, total: nat, versions: seq<Version>,
                                      accepted: seq<bool>,
                                      total': nat, accepted': seq<bool>)
    requires OnlyNoncurrentRules(rules) && LatestHead(versions) && NewestFirst(Replacing(versions))
    requires |versions| <= |accepted| && |versions| <= |accepted'| && forall i :: 0 <= i < |accepted| ==> accepted[i]
    ensures var first := Pass(rules, key, now, total, versions, accepted);
            var left := Survivors(versions, first.done);
            && (versions != [] ==> !first.done[0].DeleteVersion?)
            && (forall i :: 0 <= i < |versions| && versions[i].createdAt == 0 ==> !first.done[i].DeleteVersion?)
            && |left| <= |versions|
            && Quiet(Pass(rules, key, now, total', left, accepted'), first.newer)
  {
    hide Eval, SomeRuleDeletes, NewestFirst, Pass, Survivors, SnapshotAt;
    if versions == [] {
      NoVersions(rules, key, now, total, accepted, total', accepted');
    } else {
      var n := |versions| - 1;
      var front := versions[..n];
      FrontOf(versions);
      assert versions == front + [versions[n]];
      SecondPass(rules, key, now, total, front, accepted, total', accepted');
      PassSnoc(rules, key, now, total, front, versions[n], accepted);
      var before := Pass(rules, key, now, total, front, accepted);
      var first := Pass(rules, key, now, total, versions, accepted);
      var left := Survivors(front, before.done);
      SurvivorsSnoc(front, before.done, versions[n], first.done[n]);
      FirstStep(rules, key, now, total, versions, before.newer);
      assert left + [] == left;
      if !first.done[n].DeleteVersion? {
        if n > 0 {
          SurvivorsEnd(front, before.done);
        } else {
          SurvivorsSnoc([], [], versions[0], first.done[0]);
        }
        SecondStep(rules, key, now, total, versions, before.newer, total', left);
        PassSnoc(rules, key, now, total', left, versions[n], accepted');
        LastSnapshot(key, total', left, versions[n]);
      }
    }
  }

  lemma NoVersions(rules: seq<Rule>, key: string, now: u64, total: nat, accepted: seq<bool>, total': nat,
                   accepted': seq<bool>)
    ensures Pass(rules, key, now, total, [], accepted) == Pass(rules, key, now, total', [], accepted')
            == Progress([], 0)
    ensures Survivors([], []) == []
  {
  }

  lemma SurvivorsSnoc(front: seq<Version>, done: seq<Action>, v: Version, act: Action)
    requires |done| == |front|
    ensures Survivors(front + [v], done + [act]) == Survivors(front, done) + if act.DeleteVersion? then [] else [v]
    ensures Survivors([], []) == []
  {
    assert (front + [v])[..|front|] == front && (done + [act])[..|front|] == done;
  }

  lemma LastSnapshot(key: string, total: nat, left: seq<Version>, v: Version)
    ensures SnapshotAt(key, total, left + [v], |left|).version == v
  {
  }

  lemma FirstStep(rules: seq<Rule>, key: string, now: u64, total: nat, versions: seq<Version>, newer: nat)
    requires OnlyNoncurrentRules(rules) && versions != [] && LatestHead(versions)
    ensures var n := |versions| - 1;
            var obj := SnapshotAt(key, total, versions, n);
            var action := Eval(rules, obj, now, newer).action;
            && obj.version == versions[n] && (action.Nothing? || action.DeleteVersion?)
            && (n == 0 || versions[n].createdAt == 0 ==> action.Nothing?)
  {
    hide Eval, SomeRuleDeletes;
    var obj := SnapshotAt(key, total, versions, |versions| - 1);
    OnlyNoncurrentActs(rules, obj, now, newer);
    if |versions| == 1 {
      HeadIsKept(rules, obj, now, newer);
    }
  }

  /** No action was performed, and `newer` noncurrent versions were counted. */
  ghost predicate Quiet(r: Progress, newer: nat)
  {
    r.newer == newer && forall i :: 0 <= i < |r.done| ==> r.done[i].Nothing?
  }

  lemma FrontOf(versions: seq<Version>)
    requires versions != [] && LatestHead(versions) && NewestFirst(Replacing(versions))
    ensures var front := versions[..|versions| - 1];
            LatestHead(front) && NewestFirst(front) && NewestFirst(Replacing(front))
  {
  }

  lemma HeadIsKept(rules: seq<Rule>, obj: Snapshot, now: u64, newer: nat)
    requires obj.version.isLatest
    ensures !SomeRuleDeletes(rules, obj, now, newer)
  {
  }

  /** A version that the first pass left is left again behind the survivors before it. */
  lemma SecondStep(rules: seq<Rule>, key: string, now: u64, total: nat, versions: seq<Version>, newer: nat,
                   total': nat, left: seq<Version>)
    requires OnlyNoncurrentRules(rules) && versions != [] && LatestHead(versions)
    requires var n := |versions| - 1;
             if n == 0 then left == []
             else
               && left != [] && left[|left| - 1].createdAt >= versions[n - 1].createdAt
               && (versions[n - 1].createdAt == 0 ==> left[|left| - 1].createdAt == 0)
    requires var n := |versions| - 1;
             versions[n].versionId == "" || Eval(rules, SnapshotAt(key, total, versions, n), now, newer).action.Nothing?
    ensures var again := left + [versions[|versions| - 1]];
            var action := Eval(rules, SnapshotAt(key, total', again, |left|), now, newer).action;
            action.Nothing? || (action.DeleteVersion? && versions[|versions| - 1].versionId == "")
  {
    hide Eval, SomeRuleDeletes;
    var n := |versions| - 1;
    var again := left + [versions[n]];
    var obj, later := SnapshotAt(key, total, versions, n), SnapshotAt(key, total', again, |left|);
    assert later.version == versions[n];
    OnlyNoncurrentActs(rules, obj, now, newer);
    OnlyNoncurrentActs(rules, later, now, newer);
    if n == 0 {
      HeadIsKept(rules, later, now, newer);
    } else if versions[n].createdAt != 0 && SomeRuleDeletes(rules, later, now, newer) {
      assert later.successorTime == left[|left| - 1].createdAt;
      LaterIsSafer(rules, obj, later, now, newer);
    }
  }

  /** Convergence: with only noncurrent rules, a latest head and all versions but the last
      listed newest first, once a pass has carried out all its deletes another pass at the same
      time does nothing. */
  lemma PassConverges(rules: seq<Rule>, key: string, now: u64, versions: seq<Version>, accepted: seq<bool>,
                      accepted': seq<bool>)
    requires OnlyNoncurrentRules(rules) && LatestHead(versions) && NewestFirst(Replacing(versions))
    requires |versions| <= |accepted| && |versions| <= |accepted'| && forall i :: 0 <= i < |accepted| ==> accepted[i]
    ensures var left := Survivors(versions, Pass(rules, key, now, |versions|, versions, accepted).done);
            && |left| <= |versions|
            && var again := Pass(rules, key, now, |left|, left, accepted').done;
               (forall i :: 0 <= i < |again| ==> again[i].Nothing?) && Survivors(left, again) == left
  {
    hide Pass;
    var left := Survivors(versions, Pass(rules, key, now, |versions|, versions, accepted).done);
    SecondPass(rules, key, now, |versions|, versions, accepted, |left|, accepted');
    QuietKeepsAll(left, Pass(rules, key, now, |left|, left, accepted').done);
  }

  lemma {:induction false} QuietKeepsAll(versions: seq<Version>, done: seq<Action>)
    requires |done| == |versions| && forall i :: 0 <= i < |done| ==> done[i].Nothing?
    ensures Survivors(versions, done) == versions
  {
    if versions != [] {
      QuietKeepsAll(versions[..|versions| - 1], done[..|done| - 1]);
    }
  }

  // Exactly which lists converge

  /** Deletes every noncurrent version as soon as it is replaced. */
  function PlainRules(): (r: seq<Rule>)
  {
    [Rule(true, "r", None, None, None, Some(Noncurrent(None, None)))]
  }

  lemma PlainActs(obj: Snapshot, now: u64, newer: nat)
    ensures OnlyNoncurrentRules(PlainRules())
    ensures var base := if obj.successorTime > 0 then obj.successorTime else obj.version.createdAt;
            Eval(PlainRules(), obj, now, newer).action
            == if !obj.version.isLatest && obj.version.createdAt != 0 && now >= base then DeleteVersion else Nothing
  {
    var rules := PlainRules();
    OnlyNoncurrentActs(rules, obj, now, newer);
    assert Applies(rules[0], obj.name);
    assert SomeRuleDeletes(rules, obj, now, newer) <==> NoncurrentEvent(rules[0], obj, now, newer).Some?;
  }

  function Yes(n: nat): (r: seq<bool>)
    ensures |r| == n && forall i :: 0 <= i < n ==> r[i]
  {
    seq(n, _ => true)
  }

  /** A version with a time and an id, as every version of a versioned bucket has. */
  ghost predicate AllStamped(versions: seq<Version>)
  {
    forall i :: 0 <= i < |versions| ==> versions[i].createdAt > 0 && versions[i].versionId != ""
  }

  /** While the times fall no lower than `now`, the last survivor is as old as the last version:
      either that version survives, or it and the one before it are of time `now`. */
  lemma {:induction false} FallingEnd(key: string, now: u64, total: nat, versions: seq<Version>, accepted: seq<bool>)
    requires versions != [] && LatestHead(versions) && NewestFirst(versions) && now > 0
    requires |versions| <= |accepted| && forall i :: 0 <= i < |versions| ==> versions[i].createdAt >= now
    ensures var s := Survivors(versions, Pass(PlainRules(), key, now, total, versions, accepted).done);
            s != [] && s[|s| - 1].createdAt == versions[|versions| - 1].createdAt
  {
    hide Eval, Pass, PlainRules;
    var rules, n := PlainRules(), |versions| - 1;
    var front := versions[..n];
    assert versions == front + [versions[n]];
    var before := Pass(rules, key, now, total, front, accepted);
    PassSnoc(rules, key, now, total, front, versions[n], accepted);
    PlainActs(SnapshotAt(key, total, versions, n), now, before.newer);
    var act := Pass(rules, key, now, total, versions, accepted).done[n];
    SurvivorsSnoc(front, before.done, versions[n], act);
    if n > 0 {
      FallingEnd(key, now, total, front, accepted);
    } else {
      SurvivorsSnoc([], [], versions[0], act);
    }
  }

  lemma {:induction false} SurvivorsPrefix(versions: seq<Version>, done: seq<Action>, k: nat)
    requires k <= |versions| == |done|
    ensures Survivors(versions[..k], done[..k]) <= Survivors(versions, done)
  {
    if k < |versions| {
      var n := |versions| - 1;
      SurvivorsPrefix(versions[..n], done[..n], k);
      assert versions[..n][..k] == versions[..k] && done[..n][..k] == done[..k];
    } else {
      assert versions[..k] == versions && done[..k] == done;
    }
  }

  /** One more version in the pass with the plain rule. */
  lemma PlainStep(key: string, now: u64, total: nat, front: seq<Version>, v: Version, accepted: seq<bool>)
    requires front != [] && |front| < |accepted| && accepted[|front|] && !v.isLatest && v.createdAt > 0
    requires v.versionId != ""
    requires front[|front| - 1].createdAt > 0
    ensures var before := Pass(PlainRules(), key, now, total, front, accepted).done;
            var act := if now >= front[|front| - 1].createdAt then DeleteVersion else Nothing;
            && Pass(PlainRules(), key, now, total, front + [v], accepted).done == before + [act]
            && Survivors(front + [v], before + [act]) == Survivors(front, before) + if act.Nothing? then [v] else []
  {
    hide Eval, Pass, PlainRules;
    var rules, n := PlainRules(), |front|;
    PassSnoc(rules, key, now, total, front, v, accepted);
    var before := Pass(rules, key, now, total, front, accepted);
    PlainActs(SnapshotAt(key, total, front + [v], n), now, before.newer);
    SurvivorsSnoc(front, before.done, v, if now >= front[n - 1].createdAt then DeleteVersion else Nothing);
  }

  /** Two passes, all deletes carried out; the second does nothing. */
  ghost predicate Settles(rules: seq<Rule>, key: string, now: u64, versions: seq<Version>)
  {
    var left := Survivors(versions, Pass(rules, key, now, |versions|, versions, Yes(|versions|)).done);
    && |left| <= |versions|
    && var again := Pass(rules, key, now, |left|, left, Yes(|versions|)).done;
       forall i :: 0 <= i < |again| ==> again[i].Nothing?
  }

  /** Where times rise, below the last version: the newer version is deleted at the older one's
      time, the version behind it is spared, and the second pass deletes that one too. */
  lemma RiseDoesNotSettle(key: string, versions: seq<Version>, i: nat)
    requires LatestHead(versions) && AllStamped(versions)
    requires 1 <= i < |versions| - 1 && NewestFirst(versions[..i]) && versions[i - 1].createdAt < versions[i].createdAt
    ensures !Settles(PlainRules(), key, versions[i - 1].createdAt, versions)
  {
    hide Pass, Survivors, PlainRules;
    var rules, now, total, yes := PlainRules(), versions[i - 1].createdAt, |versions|, Yes(|versions|);
    var head, next := versions[..i], versions[i + 1];
    FallingEnd(key, now, total, head, yes);
    PlainStep(key, now, total, head, versions[i], yes);
    assert head + [versions[i]] == versions[..i + 1];
    PlainStep(key, now, total, versions[..i + 1], next, yes);
    assert versions[..i + 1] + [next] == versions[..i + 2];
    var done := Pass(rules, key, now, total, versions, yes).done;
    PassPrefix(rules, key, now, total, versions, yes, i + 2);
    SurvivorsPrefix(versions, done, i + 2);
    var kept := Survivors(head, Pass(rules, key, now, total, head, yes).done);
    var left, p := Survivors(versions, done), |kept|;
    assert kept + [] == kept;
    assert kept + [next] <= left;
    if |left| <= |versions| {
      assert left[..p + 1] == kept + [next];
      PlainStep(key, now, |left|, kept, next, yes);
      PassPrefix(rules, key, now, |left|, left, yes, p + 1);
      var again := Pass(rules, key, now, |left|, left, yes).done;
      assert again[p] == again[..p + 1][p] == DeleteVersion;
    }
  }

  lemma {:induction false} FirstRise(versions: seq<Version>) returns (i: nat)
    requires !NewestFirst(versions)
    ensures 1 <= i < |versions| && NewestFirst(versions[..i]) && versions[i - 1].createdAt < versions[i].createdAt
  {
    var n := |versions| - 1;
    var front := versions[..n];
    if NewestFirst(front) {
      i := n;
      var a, b :| 0 <= a < b < |versions| && versions[a].createdAt < versions[b].createdAt;
      assert a < n - 1 ==> front[a].createdAt >= front[n - 1].createdAt;
    } else {
      i := FirstRise(front);
      assert front[..i] == versions[..i];
    }
  }

  /** A list with a latest head, times and ids settles in one pass, under all noncurrent rules
      and at all times, exactly when all its versions but the last are listed newest first. */
  lemma SettlesIff(key: string, versions: seq<Version>)
    requires LatestHead(versions) && AllStamped(versions)
    ensures (forall rules: seq<Rule>, now: u64 :: OnlyNoncurrentRules(rules) ==> Settles(rules, key, now, versions))
            <==> NewestFirst(Replacing(versions))
  {
    hide Pass, Survivors, NewestFirst, OnlyNoncurrentRules, Settles;
    if NewestFirst(Replacing(versions)) {
      forall rules: seq<Rule>, now: u64 | OnlyNoncurrentRules(rules)
        ensures Settles(rules, key, now, versions)
      {
        OrderedSettles(rules, key, now, versions);
      }
    } else {
      var i := FirstRise(Replacing(versions));
      assert versions[..|versions| - 1][..i] == versions[..i];
      RiseDoesNotSettle(key, versions, i);
      PlainActs(Snapshot(key, versions[0], 0, 0), 0, 0);
    }
  }

  lemma OrderedSettles(rules: seq<Rule>, key: string, now: u64, versions: seq<Version>)
    requires LatestHead(versions) && OnlyNoncurrentRules(rules) && NewestFirst(Replacing(versions))
    ensures Settles(rules, key, now, versions)
  {
    hide Pass, Survivors, NewestFirst, OnlyNoncurrentRules;
    PassConverges(rules, key, now, versions, Yes(|versions|), Yes(|versions|));
  }

  function RisingTimes(): (r: seq<Version>)
  {
    [Version(50, "c", true, false), Version(200, "b", false, false), Version(10, "a", false, false)]
  }

  /** The order of times matters: a version replaced by one from the future is spared until
      that one is gone. */
  lemma UnorderedTimesDoNotConverge(key: string)
    ensures var versions := RisingTimes();
            LatestHead(versions) && AllStamped(versions) && !Settles(PlainRules(), key, 50, versions)
  {
    var versions := RisingTimes();
    RiseDoesNotSettle(key, versions, 1);
  }
}
