/** What the lifecycle rules do, said of the rules' own fields. */
module LifecycleActions {
  import opened ByteCodec
  import opened Lifecycle

  /** The rule is enabled and the key has its prefix. A filter, if there is one, replaces the rule's
      own prefix, and turns the rule off if it asks for more than a prefix. */
  predicate InForce(rule: Rule, name: string)
  {
    && rule.enabled
    && (rule.filter.None? ==> rule.prefix.None? || rule.prefix.value <= name)
    && (rule.filter.Some? ==>
          && !rule.filter.value.unsupported
          && (rule.filter.value.prefix.None? || rule.filter.value.prefix.value <= name))
  }

  /** So many days after a time, as far as 64 bits go; a number of days that is not positive adds
      none. */
  function DaysAfter(time: u64, days: int): (due: u64)
  {
    var sum := time + (if days > 0 then days else 0) * 86_400;
    if sum > 0xffff_ffff_ffff_ffff then 0xffff_ffff_ffff_ffff else sum
  }

  /** The rule expires objects by age, and one created then is due at `due`, which has come. */
  predicate Aged(rule: Rule, created: u64, now: u64, due: u64)
  {
    && rule.expiration.Some? && rule.expiration.value.days.Some?
    && due == DaysAfter(created, rule.expiration.value.days.value) && now >= due
  }

  /** The rule removes a marker that is the only version left: at once, or by age. */
  predicate Reaps(rule: Rule, obj: Snapshot, now: u64, due: u64)
  {
    && obj.version.isDeleteMarker && obj.total == 1 && rule.expiration.Some?
    && if rule.expiration.value.expiredMarker then due == now else Aged(rule, obj.version.createdAt, now, due)
  }

  /** The rule removes a noncurrent version: enough newer ones are kept, and its days since it was
      replaced have passed, or since it was created where the replacement is unknown. */
  predicate Purges(rule: Rule, obj: Snapshot, now: u64, newer: nat, due: u64)
  {
    && !obj.version.isLatest && rule.noncurrent.Some?
    && var nc := rule.noncurrent.value;
       && (nc.newer.None? || newer >= nc.newer.value)
       && due == DaysAfter(if obj.successorTime == 0 then obj.version.createdAt else obj.successorTime,
                           if nc.days.None? then 0 else nc.days.value)
       && now >= due
  }

  /** The rule removes the current version by age. */
  predicate Expires(rule: Rule, obj: Snapshot, now: u64, due: u64)
  {
    obj.version.isLatest && !obj.version.isDeleteMarker && Aged(rule, obj.version.createdAt, now, due)
  }

  /** What one rule asks for, and since when. */
  ghost predicate Asks(rule: Rule, obj: Snapshot, now: u64, newer: nat, action: Action, due: u64)
  {
    && InForce(rule, obj.name)
    && match action
       case Nothing => false
       case DeleteExpiredMarker => Reaps(rule, obj, now, due)
       case DeleteVersion => Purges(rule, obj, now, newer, due) && !CanReap(rule, obj, now)
       case Delete => Expires(rule, obj, now, due)
  }

  ghost predicate CanReap(rule: Rule, obj: Snapshot, now: u64)
  {
    exists due: u64 :: Reaps(rule, obj, now, due)
  }

  lemma ExpiryIsDaysAfter(time: u64, days: int)
    ensures ExpectedExpiry(time, days) == DaysAfter(time, days)
  {
  }

  lemma InForceIsApplies(rule: Rule, name: string)
    ensures InForce(rule, name) <==> Applies(rule, name)
  {
  }

  lemma ReapsIff(rule: Rule, obj: Snapshot, now: u64, due: u64)
    ensures Reaps(rule, obj, now, due)
            <==> MarkerEvent(rule, obj, now) == Some(Event(DeleteExpiredMarker, rule.id, due))
    ensures CanReap(rule, obj, now) <==> MarkerEvent(rule, obj, now).Some?
    ensures MarkerEvent(rule, obj, now).Some? ==>
              var e := MarkerEvent(rule, obj, now).value; e.action == DeleteExpiredMarker && e.ruleId == rule.id
  {
    hide ExpectedExpiry, DaysAfter;
    if rule.expiration.Some? && rule.expiration.value.days.Some? {
      ExpiryIsDaysAfter(obj.version.createdAt, rule.expiration.value.days.value);
    }
    if MarkerEvent(rule, obj, now).Some? {
      assert Reaps(rule, obj, now, MarkerEvent(rule, obj, now).value.due);
    }
  }

  lemma PurgesIff(rule: Rule, obj: Snapshot, now: u64, newer: nat, due: u64)
    ensures Purges(rule, obj, now, newer, due)
            <==> NoncurrentEvent(rule, obj, now, newer) == Some(Event(DeleteVersion, rule.id, due))
  {
    hide ExpectedExpiry, DaysAfter;
    if rule.noncurrent.Some? {
      var nc := rule.noncurrent.value;
      ExpiryIsDaysAfter(if obj.successorTime == 0 then obj.version.createdAt else obj.successorTime,
                        if nc.days.None? then 0 else nc.days.value);
    }
  }

  lemma ExpiresIff(rule: Rule, obj: Snapshot, now: u64, due: u64)
    ensures Expires(rule, obj, now, due) <==> CurrentEvent(rule, obj, now) == Some(Event(Delete, rule.id, due))
  {
    hide ExpectedExpiry, DaysAfter;
    if rule.expiration.Some? && rule.expiration.value.days.Some? {
      ExpiryIsDaysAfter(obj.version.createdAt, rule.expiration.value.days.value);
    }
  }

  lemma AsksIff(rule: Rule, obj: Snapshot, now: u64, newer: nat, action: Action, due: u64)
    ensures Asks(rule, obj, now, newer, action, due)
            <==> Candidate(rule, obj, now, newer) == Some(Event(action, rule.id, due))
  {
    hide MarkerEvent, NoncurrentEvent, CurrentEvent, Reaps, Purges, Expires, Applies, InForce, CanReap;
    InForceIsApplies(rule, obj.name);
    ReapsIff(rule, obj, now, due);
    PurgesIff(rule, obj, now, newer, due);
    ExpiresIff(rule, obj, now, due);
    Kinds(rule, obj, now, newer, due);
  }

  lemma Kinds(rule: Rule, obj: Snapshot, now: u64, newer: nat, due: u64)
    ensures Expires(rule, obj, now, due) ==> !CanReap(rule, obj, now) && NoncurrentEvent(rule, obj, now, newer).None?
    ensures NoncurrentEvent(rule, obj, now, newer).Some? ==>
              var e := NoncurrentEvent(rule, obj, now, newer).value; e.action == DeleteVersion && e.ruleId == rule.id
    ensures CurrentEvent(rule, obj, now).Some? ==>
              var e := CurrentEvent(rule, obj, now).value; e.action == Delete && e.ruleId == rule.id
    ensures CanReap(rule, obj, now) ==> obj.version.isDeleteMarker
  {
  }

  // What the rules together do

  /** Rule `k` asks for this action, since before every rule in front of it and not after any behind
      it. */
  ghost predicate AsksFirst(rules: seq<Rule>, obj: Snapshot, now: u64, newer: nat, k: nat, action: Action, due: u64)
    requires k < |rules|
  {
    && Asks(rules[k], obj, now, newer, action, due)
    && forall i, other, since :: 0 <= i < |rules| && Asks(rules[i], obj, now, newer, other, since) ==>
         if i < k then due < since else due <= since
  }

  ghost predicate NoneAsks(rules: seq<Rule>, obj: Snapshot, now: u64, newer: nat)
  {
    forall i, action, due :: 0 <= i < |rules| ==> !Asks(rules[i], obj, now, newer, action, due)
  }

  /** The whole evaluation: a version without a creation time is left alone; otherwise the event is
      what the first rule that has been asking longest asks for, and there is none exactly when no
      rule asks. */
  lemma EvalIs(rules: seq<Rule>, obj: Snapshot, now: u64, newer: nat)
    ensures var e := Eval(rules, obj, now, newer);
            && (e.action.Nothing? <==> obj.version.createdAt == 0 || NoneAsks(rules, obj, now, newer))
            && (!e.action.Nothing? ==>
                  exists k: nat :: k < |rules| && e.ruleId == rules[k].id
                                   && AsksFirst(rules, obj, now, newer, k, e.action, e.due))
  {
    hide Candidate, Asks;
    ChoosesEarliest(rules, obj, now, newer);
    forall i, action, due: u64 | 0 <= i < |rules|
      ensures Asks(rules[i], obj, now, newer, action, due)
              <==> Candidate(rules[i], obj, now, newer) == Some(Event(action, rules[i].id, due))
    {
      AsksIff(rules[i], obj, now, newer, action, due);
    }
    var chosen := Choose(rules, obj, now, newer);
    if chosen.Some? {
      var k: nat :| k < |rules| && Decides(rules, obj, now, newer, k) && Candidate(rules[k], obj, now, newer) == chosen;
      NamesItsRule(rules[k], obj, now, newer);
      assert Asks(rules[k], obj, now, newer, chosen.value.action, chosen.value.due);
      assert AsksFirst(rules, obj, now, newer, k, chosen.value.action, chosen.value.due);
    } else {
      assert NoneAsks(rules, obj, now, newer);
    }
  }

  lemma NamesItsRule(rule: Rule, obj: Snapshot, now: u64, newer: nat)
    ensures var c := Candidate(rule, obj, now, newer);
            c.Some? ==> c.value.ruleId == rule.id && !c.value.action.Nothing?
  {
  }

  /** Some rule in force has the age of the version behind it. */
  ghost predicate SomeAged(rules: seq<Rule>, obj: Snapshot, now: u64)
  {
    exists i: nat, due: u64 ::
      i < |rules| && InForce(rules[i], obj.name) && Aged(rules[i], obj.version.createdAt, now, due)
  }

  /** A current version is deleted exactly when it has a creation time and, for some rule in force,
      its days since then have passed; otherwise nothing happens to it. */
  lemma CurrentDeletedIff(rules: seq<Rule>, obj: Snapshot, now: u64, newer: nat)
    requires obj.version.isLatest && !obj.version.isDeleteMarker
    ensures Eval(rules, obj, now, newer).action
            == if obj.version.createdAt != 0 && SomeAged(rules, obj, now) then Delete else Nothing
  {
    hide Eval, Aged, InForce;
    EvalIs(rules, obj, now, newer);
    forall i, action, due | 0 <= i < |rules|
      ensures Asks(rules[i], obj, now, newer, action, due) ==>
                action == Delete && InForce(rules[i], obj.name) && Aged(rules[i], obj.version.createdAt, now, due)
    {
    }
    var created := obj.version.createdAt;
    if i: nat, due: u64 :| i < |rules| && InForce(rules[i], obj.name) && Aged(rules[i], created, now, due) {
      assert Asks(rules[i], obj, now, newer, Delete, due);
    }
  }

  /** A marker that is the latest and only version is reaped exactly when it has a creation time and
      some rule in force reaps markers, or has its age behind it. */
  lemma MarkerReapedIff(rules: seq<Rule>, obj: Snapshot, now: u64, newer: nat)
    requires obj.version.isDeleteMarker && obj.total == 1 && obj.version.isLatest
    ensures Eval(rules, obj, now, newer).action
            == if obj.version.createdAt != 0 && (SomeReaper(rules, obj.name) || SomeAged(rules, obj, now))
               then DeleteExpiredMarker else Nothing
  {
    hide Eval, Aged, InForce;
    EvalIs(rules, obj, now, newer);
    forall i, action, due | 0 <= i < |rules|
      ensures Asks(rules[i], obj, now, newer, action, due) ==>
                && action == DeleteExpiredMarker && InForce(rules[i], obj.name)
                && (Reaper(rules[i]) || Aged(rules[i], obj.version.createdAt, now, due))
    {
    }
    if i: nat :| i < |rules| && InForce(rules[i], obj.name) && Reaper(rules[i]) {
      assert Asks(rules[i], obj, now, newer, DeleteExpiredMarker, now);
    }
    var created := obj.version.createdAt;
    if i: nat, due: u64 :| i < |rules| && InForce(rules[i], obj.name) && Aged(rules[i], created, now, due) {
      AgedReaps(rules[i], obj, now, newer, due);
    }
  }

  lemma AgedReaps(rule: Rule, obj: Snapshot, now: u64, newer: nat, due: u64)
    requires obj.version.isDeleteMarker && obj.total == 1 && InForce(rule, obj.name)
    requires Aged(rule, obj.version.createdAt, now, due)
    ensures exists since: u64 :: Asks(rule, obj, now, newer, DeleteExpiredMarker, since)
  {
    hide InForce, DaysAfter;
    assert Asks(rule, obj, now, newer, DeleteExpiredMarker, if rule.expiration.value.expiredMarker then now else due);
  }

  predicate Reaper(rule: Rule)
  {
    rule.expiration.Some? && rule.expiration.value.expiredMarker
  }

  ghost predicate SomeReaper(rules: seq<Rule>, name: string)
  {
    exists i: nat :: i < |rules| && InForce(rules[i], name) && Reaper(rules[i])
  }

  /** A noncurrent version, not the only one, is deleted exactly when it has a creation time and some
      rule in force purges it; otherwise nothing happens to it. */
  lemma NoncurrentDeletedIff(rules: seq<Rule>, obj: Snapshot, now: u64, newer: nat)
    requires !obj.version.isLatest && obj.total != 1
    ensures Eval(rules, obj, now, newer).action
            == if obj.version.createdAt != 0 && SomePurges(rules, obj, now, newer) then DeleteVersion else Nothing
  {
    hide Eval, Purges, InForce;
    EvalIs(rules, obj, now, newer);
    forall i, action, due | 0 <= i < |rules|
      ensures Asks(rules[i], obj, now, newer, action, due) ==>
                action == DeleteVersion && InForce(rules[i], obj.name) && Purges(rules[i], obj, now, newer, due)
    {
    }
    if i: nat, due: u64 :| i < |rules| && InForce(rules[i], obj.name) && Purges(rules[i], obj, now, newer, due) {
      assert Asks(rules[i], obj, now, newer, DeleteVersion, due);
    }
  }

  ghost predicate SomePurges(rules: seq<Rule>, obj: Snapshot, now: u64, newer: nat)
  {
    exists i: nat, due: u64 ::
      i < |rules| && InForce(rules[i], obj.name) && Purges(rules[i], obj, now, newer, due)
  }

  /** The latest marker in front of other versions stays. */
  lemma MarkerInFrontStays(rules: seq<Rule>, obj: Snapshot, now: u64, newer: nat)
    requires obj.version.isDeleteMarker && obj.total != 1 && obj.version.isLatest
    ensures Eval(rules, obj, now, newer).action == Nothing
  {
    hide Eval, InForce;
    EvalIs(rules, obj, now, newer);
    forall i, action, due | 0 <= i < |rules|
      ensures !Asks(rules[i], obj, now, newer, action, due)
    {
    }
  }

  // What a pass does

  /** The noncurrent versions in front of position `i` that the pass left alone. */
  ghost function KeptBefore(versions: seq<Version>, done: seq<Action>, i: nat): (r: set<nat>)
    requires |done| == |versions| && i <= |versions|
  {
    set j: nat | j < i && !versions[j].isLatest && done[j].Nothing?
  }

  /** What happens to one version in a pass: what the rules say of it, given how many noncurrent
      versions in front of it were left alone, unless the store refuses, or the version has to be
      deleted by an id it does not have. */
  ghost predicate PassActs(rules: seq<Rule>, key: string, now: u64, versions: seq<Version>, accepted: seq<bool>,
                           done: seq<Action>, i: nat)
    requires |done| == |versions| <= |accepted| && i < |versions|
  {
    var obj := Snapshot(key, versions[i], |versions|, if i == 0 then 0 else versions[i - 1].createdAt);
    var action := Eval(rules, obj, now, |KeptBefore(versions, done, i)|).action;
    var byId := action.DeleteVersion? && versions[i].versionId == "";
    done[i] == if accepted[i] && !byId then action else Nothing
  }

  lemma {:induction false} PassIs(rules: seq<Rule>, key: string, now: u64, versions: seq<Version>, accepted: seq<bool>,
                                  i: nat)
    requires i < |versions| <= |accepted|
    ensures PassActs(rules, key, now, versions, accepted, Pass(rules, key, now, |versions|, versions, accepted).done, i)
  {
    hide Eval, Pass, Apply;
    var total := |versions|;
    var done := Pass(rules, key, now, total, versions, accepted).done;
    var front := versions[..i];
    assert versions[..i + 1] == front + [versions[i]];
    PassSnoc(rules, key, now, total, front, versions[i], accepted);
    PassPrefix(rules, key, now, total, versions, accepted, i + 1);
    PassPrefix(rules, key, now, total, versions, accepted, i);
    KeptCount(rules, key, now, total, front, accepted);
    var before := Pass(rules, key, now, total, front, accepted);
    assert KeptBefore(versions, done, i) == KeptBefore(front, before.done, i) by {
      assert forall j :: 0 <= j < i ==> done[j] == done[..i][j];
    }
    assert done[i] == done[..i + 1][i];
    OneApplied(rules, SnapshotAt(key, total, front + [versions[i]], i), now, before, accepted[i]);
  }

  lemma OneApplied(rules: seq<Rule>, obj: Snapshot, now: u64, before: Progress, accepted: bool)
    ensures var action := Eval(rules, obj, now, before.newer).action;
            var r := Advance(rules, obj, now, before, accepted).done;
            r[|before.done|]
            == if accepted && !(action.DeleteVersion? && obj.version.versionId == "") then action else Nothing
  {
    hide Eval;
  }

  lemma {:induction false} KeptCount(rules: seq<Rule>, key: string, now: u64, total: nat, versions: seq<Version>,
                                     accepted: seq<bool>)
    requires |versions| <= |accepted|
    ensures var r := Pass(rules, key, now, total, versions, accepted);
            r.newer == |KeptBefore(versions, r.done, |versions|)|
  {
    hide Pass, Advance, SnapshotAt;
    if versions == [] {
      NothingPassed(rules, key, now, total, accepted);
    } else {
      var n := |versions| - 1;
      var front := versions[..n];
      KeptCount(rules, key, now, total, front, accepted);
      assert versions == front + [versions[n]];
      PassSnoc(rules, key, now, total, front, versions[n], accepted);
      var before := Pass(rules, key, now, total, front, accepted);
      OneCounted(rules, SnapshotAt(key, total, versions, n), now, before, accepted[n]);
      assert SnapshotAt(key, total, versions, n).version == versions[n] by { SnapshotOf(key, total, versions, n); }
      KeptSnoc(versions, Pass(rules, key, now, total, versions, accepted).done);
    }
  }

  lemma NothingPassed(rules: seq<Rule>, key: string, now: u64, total: nat, accepted: seq<bool>)
    ensures var r := Pass(rules, key, now, total, [], accepted); r.newer == 0 && |KeptBefore([], r.done, 0)| == 0
  {
    assert KeptBefore([], [], 0) == {};
  }

  lemma SnapshotOf(key: string, total: nat, versions: seq<Version>, i: nat)
    requires i < |versions|
    ensures SnapshotAt(key, total, versions, i).version == versions[i]
  {
  }

  lemma OneCounted(rules: seq<Rule>, obj: Snapshot, now: u64, before: Progress, accepted: bool)
    ensures var r, n := Advance(rules, obj, now, before, accepted), |before.done|;
            && r.done[..n] == before.done
            && r.newer == before.newer + if !obj.version.isLatest && r.done[n].Nothing? then 1 else 0
  {
    hide Eval, Apply;
  }

  lemma KeptSnoc(versions: seq<Version>, done: seq<Action>)
    requires |done| == |versions| > 0
    ensures var n := |versions| - 1;
            |KeptBefore(versions, done, n + 1)|
            == |KeptBefore(versions[..n], done[..n], n)| + if !versions[n].isLatest && done[n].Nothing? then 1 else 0
  {
    var n := |versions| - 1;
    var a, b := KeptBefore(versions, done, n + 1), KeptBefore(versions[..n], done[..n], n);
    assert a == b + if !versions[n].isLatest && done[n].Nothing? then {n} else {};
  }
}
