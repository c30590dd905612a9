/**
 * What a live run of the sync executor does, stated over the call list
 * `PlannedOps` that `SyncService.Execute` is proved to issue: which calls
 * of each kind, in which order, how many, and when there are none.
 */
module SyncProperties {
  import opened Models
  import opened Sync
  import opened DiffEngine
  import opened DiffProperties

  // ---------------------------------------------------------------------------
  // Each call list, element by element

  lemma {:induction false} UnsubscribeOpsAt(subs: seq<string>)
    ensures forall i :: 0 <= i < |subs| ==> UnsubscribeOps(subs)[i] == Unsubscribe(subs[i])
  {
    if subs != [] {
      UnsubscribeOpsAt(subs[..|subs| - 1]);
    }
  }

  lemma {:induction false} SubscribeOpsAt(subs: seq<string>)
    ensures forall i :: 0 <= i < |subs| ==> SubscribeOps(subs)[i] == Subscribe(subs[i])
  {
    if subs != [] {
      SubscribeOpsAt(subs[..|subs| - 1]);
    }
  }

  lemma {:induction false} CreateOpsAt(multis: seq<Multireddit>)
    ensures forall i :: 0 <= i < |multis| ==>
      CreateOps(multis)[i] == CreateMulti(multis[i].name, multis[i].subreddits)
  {
    if multis != [] {
      CreateOpsAt(multis[..|multis| - 1]);
    }
  }

  lemma {:induction false} AddOpsAt(name: string, subs: seq<string>)
    ensures forall i :: 0 <= i < |subs| ==> AddOps(name, subs)[i] == AddToMulti(name, subs[i])
  {
    if subs != [] {
      AddOpsAt(name, subs[..|subs| - 1]);
    }
  }

  lemma {:induction false} RemoveOpsAt(name: string, subs: seq<string>)
    ensures forall i :: 0 <= i < |subs| ==> RemoveOps(name, subs)[i] == RemoveFromMulti(name, subs[i])
  {
    if subs != [] {
      RemoveOpsAt(name, subs[..|subs| - 1]);
    }
  }

  // ---------------------------------------------------------------------------
  // The edits of the multireddit updates

  /** When every update edits something, there are no edits exactly when there are no updates. */
  lemma {:induction false} NoEditsNoUpdates(updates: seq<MultiUpdate>)
    requires forall u :: u in updates ==> u.add != [] || u.remove != []
    ensures EditCount(updates) == 0 <==> updates == []
  {
    if updates != [] {
      var u := updates[|updates| - 1];
      assert u in updates;
    }
  }

  /** The update calls of a concatenation are those of each part in turn. */
  lemma {:induction false} UpdateOpsAppend(a: seq<MultiUpdate>, b: seq<MultiUpdate>)
    ensures UpdateOps(a + b) == UpdateOps(a) + UpdateOps(b)
    decreases |b|
  {
    if b == [] {
      assert a + b == a;
    } else {
      var n := |b| - 1;
      var u := b[n];
      assert (a + b)[..|a + b| - 1] == a + b[..n];
      UpdateOpsAppend(a, b[..n]);
      AppendAssoc(UpdateOps(a), UpdateOps(b[..n]), AddOps(u.name, u.add) + RemoveOps(u.name, u.remove));
    }
  }

  /**
   * The calls for update `k` form one contiguous block, every addition
   * before every removal, between the calls of the updates before it and
   * those of the updates after it.
   */
  lemma UpdateBlock(updates: seq<MultiUpdate>, k: nat)
    requires k < |updates|
    ensures UpdateOps(updates) ==
      UpdateOps(updates[..k]) +
      (AddOps(updates[k].name, updates[k].add) + RemoveOps(updates[k].name, updates[k].remove)) +
      UpdateOps(updates[k + 1..])
  {
    assert updates == updates[..k + 1] + updates[k + 1..];
    UpdateOpsAppend(updates[..k + 1], updates[k + 1..]);
    UpdateOpsStep(updates, k);
  }

  // ---------------------------------------------------------------------------
  // Phases

  /** The phase a call belongs to; a run goes through the phases in increasing order. */
  function Phase(op: Op): nat {
    match op
    case Unsubscribe(_) => 0
    case Subscribe(_) => 1
    case CreateMulti(_, _) => 2
    case AddToMulti(_, _) => 3
    case RemoveFromMulti(_, _) => 3
    case DeleteMulti(_) => 4
  }

  /** The calls of `ops` in phase `p`, in their order. */
  function OfPhase(ops: seq<Op>, p: nat): (r: seq<Op>)
    ensures |r| <= |ops|
    ensures forall i :: 0 <= i < |r| ==> Phase(r[i]) == p
  {
    if ops == [] then []
    else
      var last := ops[|ops| - 1];
      OfPhase(ops[..|ops| - 1], p) + (if Phase(last) == p then [last] else [])
  }

  /** Every call of `ops` in phase `p` is kept: with the contract of `OfPhase`, the phase-`p` subsequence. */
  lemma {:induction false} OfPhaseComplete(ops: seq<Op>, p: nat)
    ensures forall op :: op in ops && Phase(op) == p ==> op in OfPhase(ops, p)
  {
    if ops != [] {
      OfPhaseComplete(ops[..|ops| - 1], p);
      assert ops == ops[..|ops| - 1] + [ops[|ops| - 1]];
    }
  }

  ghost predicate Within(ops: seq<Op>, lo: nat, hi: nat) {
    forall i :: 0 <= i < |ops| ==> lo <= Phase(ops[i]) <= hi
  }

  ghost predicate PhaseOrdered(ops: seq<Op>) {
    forall i, j :: 0 <= i < j < |ops| ==> Phase(ops[i]) <= Phase(ops[j])
  }

  lemma {:induction false} OfPhaseAppend(a: seq<Op>, b: seq<Op>, p: nat)
    ensures OfPhase(a + b, p) == OfPhase(a, p) + OfPhase(b, p)
    decreases |b|
  {
    if b == [] {
      assert a + b == a;
    } else {
      var n := |b| - 1;
      assert (a + b)[..|a + b| - 1] == a + b[..n];
      OfPhaseAppend(a, b[..n], p);
    }
  }

  /** A list of calls all in phase `p` is its own phase-`p` part and has no other. */
  lemma {:induction false} OfPhaseWithin(ops: seq<Op>, p: nat, q: nat)
    requires Within(ops, p, p)
    ensures OfPhase(ops, q) == if p == q then ops else []
  {
    if ops != [] {
      OfPhaseWithin(ops[..|ops| - 1], p, q);
      assert ops[..|ops| - 1] + [ops[|ops| - 1]] == ops;
    }
  }

  lemma OrderedConcat(a: seq<Op>, b: seq<Op>, lo: nat, mid: nat, hi: nat)
    requires lo <= mid <= hi
    requires Within(a, lo, mid) && Within(b, mid, hi)
    requires PhaseOrdered(a) && PhaseOrdered(b)
    ensures Within(a + b, lo, hi) && PhaseOrdered(a + b)
  {
    forall i | 0 <= i < |a + b|
      ensures lo <= Phase((a + b)[i]) <= hi
    {
      if i < |a| {
        assert (a + b)[i] == a[i];
      } else {
        assert (a + b)[i] == b[i - |a|];
      }
    }
    forall i, j | 0 <= i < j < |a + b|
      ensures Phase((a + b)[i]) <= Phase((a + b)[j])
    {
      if j < |a| {
        assert (a + b)[i] == a[i] && (a + b)[j] == a[j];
      } else if i < |a| {
        assert (a + b)[i] == a[i] && (a + b)[j] == b[j - |a|];
      } else {
        assert (a + b)[i] == b[i - |a|] && (a + b)[j] == b[j - |a|];
      }
    }
  }

  lemma {:induction false} UpdateOpsWithin(updates: seq<MultiUpdate>)
    ensures Within(UpdateOps(updates), 3, 3)
  {
    if updates != [] {
      var u := updates[|updates| - 1];
      UpdateOpsWithin(updates[..|updates| - 1]);
      AddOpsAt(u.name, u.add);
      RemoveOpsAt(u.name, u.remove);
      var edits := AddOps(u.name, u.add) + RemoveOps(u.name, u.remove);
      assert Within(edits, 3, 3);
      OrderedConcat(UpdateOps(updates[..|updates| - 1]), edits, 3, 3, 3);
    }
  }

  /** Each call list of one kind lies in that kind's phase. */
  lemma KindsWithin(diff: SyncDiff)
    ensures Within(UnsubscribeOps(diff.subsToRemove), 0, 0)
    ensures Within(SubscribeOps(diff.subsToAdd), 1, 1)
    ensures Within(CreateOps(diff.multisToAdd), 2, 2)
    ensures Within(UpdateOps(diff.multisToUpdate), 3, 3)
  {
    UnsubscribeOpsAt(diff.subsToRemove);
    SubscribeOpsAt(diff.subsToAdd);
    CreateOpsAt(diff.multisToAdd);
    UpdateOpsWithin(diff.multisToUpdate);
  }

  // ---------------------------------------------------------------------------
  // What a live run issues

  /**
   * The calls go phase by phase: all unsubscriptions, then all
   * subscriptions, then all creations, then the multireddit edits; no
   * multireddit is ever deleted, so `multis_to_remove` is not acted on.
   */
  lemma PlannedOrder(diff: SyncDiff, syncSubs: bool, syncMultis: bool, clean: bool)
    ensures PhaseOrdered(PlannedOps(diff, syncSubs, syncMultis, clean))
    ensures forall op :: op in PlannedOps(diff, syncSubs, syncMultis, clean) ==> !op.DeleteMulti?
  {
    KindsWithin(diff);
    var u := if syncSubs && clean then UnsubscribeOps(diff.subsToRemove) else [];
    var s := if syncSubs then SubscribeOps(diff.subsToAdd) else [];
    var c := if syncMultis then CreateOps(diff.multisToAdd) else [];
    var e := if syncMultis then UpdateOps(diff.multisToUpdate) else [];
    var ops := PlannedOps(diff, syncSubs, syncMultis, clean);
    assert ops == (u + s) + (c + e);
    FourOrdered(u, s, c, e);
    forall op | op in ops
      ensures !op.DeleteMulti?
    {
      var i :| 0 <= i < |ops| && ops[i] == op;
    }
  }

  lemma FourOrdered(u: seq<Op>, s: seq<Op>, c: seq<Op>, e: seq<Op>)
    requires Within(u, 0, 0) && Within(s, 1, 1) && Within(c, 2, 2) && Within(e, 3, 3)
    ensures Within((u + s) + (c + e), 0, 3) && PhaseOrdered((u + s) + (c + e))
  {
    OrderedConcat(u, s, 0, 0, 1);
    OrderedConcat(c, e, 2, 2, 3);
    OrderedConcat(u + s, c + e, 0, 1, 3);
  }

  /** The calls of each phase: those of the matching list of the diff, or none when the phase is off. */
  lemma PlannedPhases(diff: SyncDiff, syncSubs: bool, syncMultis: bool, clean: bool)
    ensures var ops := PlannedOps(diff, syncSubs, syncMultis, clean);
      && OfPhase(ops, 0) == (if syncSubs && clean then UnsubscribeOps(diff.subsToRemove) else [])
      && OfPhase(ops, 1) == (if syncSubs then SubscribeOps(diff.subsToAdd) else [])
      && OfPhase(ops, 2) == (if syncMultis then CreateOps(diff.multisToAdd) else [])
      && OfPhase(ops, 3) == (if syncMultis then UpdateOps(diff.multisToUpdate) else [])
      && OfPhase(ops, 4) == []
  {
    KindsWithin(diff);
    var u := if syncSubs && clean then UnsubscribeOps(diff.subsToRemove) else [];
    var s := if syncSubs then SubscribeOps(diff.subsToAdd) else [];
    var c := if syncMultis then CreateOps(diff.multisToAdd) else [];
    var e := if syncMultis then UpdateOps(diff.multisToUpdate) else [];
    PlannedParts(diff, syncSubs, syncMultis, clean);
    FourPhases(u, s, c, e);
  }

  /** The planned calls are the four phases in turn. */
  lemma PlannedParts(diff: SyncDiff, syncSubs: bool, syncMultis: bool, clean: bool)
    ensures PlannedOps(diff, syncSubs, syncMultis, clean) ==
      ((if syncSubs && clean then UnsubscribeOps(diff.subsToRemove) else []) +
       (if syncSubs then SubscribeOps(diff.subsToAdd) else [])) +
      ((if syncMultis then CreateOps(diff.multisToAdd) else []) +
       (if syncMultis then UpdateOps(diff.multisToUpdate) else []))
  {
  }

  lemma FourPhases(u: seq<Op>, s: seq<Op>, c: seq<Op>, e: seq<Op>)
    requires Within(u, 0, 0) && Within(s, 1, 1) && Within(c, 2, 2) && Within(e, 3, 3)
    ensures var ops := (u + s) + (c + e);
      && OfPhase(ops, 0) == u
      && OfPhase(ops, 1) == s
      && OfPhase(ops, 2) == c
      && OfPhase(ops, 3) == e
      && OfPhase(ops, 4) == []
  {
    OnlyPhase(u, 0);
    OnlyPhase(s, 1);
    OnlyPhase(c, 2);
    OnlyPhase(e, 3);
    forall p: nat
      ensures OfPhase((u + s) + (c + e), p) == OfPhase(u, p) + OfPhase(s, p) + (OfPhase(c, p) + OfPhase(e, p))
    {
      OfPhaseAppend(u + s, c + e, p);
      OfPhaseAppend(u, s, p);
      OfPhaseAppend(c, e, p);
    }
  }

  lemma OnlyPhase(ops: seq<Op>, p: nat)
    requires Within(ops, p, p)
    ensures forall q: nat :: OfPhase(ops, q) == if p == q then ops else []
  {
    forall q: nat
      ensures OfPhase(ops, q) == if p == q then ops else []
    {
      OfPhaseWithin(ops, p, q);
    }
  }

  // ---------------------------------------------------------------------------
  // How many calls

  /** A diff without changes makes no call, whatever the flags. */
  lemma NoChangesNoCalls(diff: SyncDiff, syncSubs: bool, syncMultis: bool, clean: bool)
    requires !diff.HasChanges()
    ensures PlannedOps(diff, syncSubs, syncMultis, clean) == []
  {
  }

  /** Syncing an account onto an identical one makes no call. */
  lemma SelfSyncNoCalls(subs: seq<string>, multis: seq<Multireddit>,
                        syncSubs: bool, syncMultis: bool, clean: bool)
    ensures PlannedOps(Diff(subs, subs, multis, multis), syncSubs, syncMultis, clean) == []
  {
    SelfDiffHasNoChanges(subs, multis);
    NoChangesNoCalls(Diff(subs, subs, multis, multis), syncSubs, syncMultis, clean);
  }

  /**
   * A full live run (both phases, cleaning) of a computed diff makes no
   * call exactly when the diff has nothing to add, remove, create or
   * update: only `multis_to_remove` may then be non-empty.
   */
  lemma FullSyncCallsIff(sourceSubs: seq<string>, targetSubs: seq<string>,
                         sourceMultis: seq<Multireddit>, targetMultis: seq<Multireddit>)
    ensures var d := Diff(sourceSubs, targetSubs, sourceMultis, targetMultis);
      PlannedOps(d, true, true, true) == [] <==>
        d.subsToAdd == [] && d.subsToRemove == [] && d.multisToAdd == [] && d.multisToUpdate == []
  {
    var d := Diff(sourceSubs, targetSubs, sourceMultis, targetMultis);
    UpdateContents(sourceSubs, targetSubs, sourceMultis, targetMultis);
    NoEditsNoUpdates(d.multisToUpdate);
  }

  /**
   * In a live run that syncs multireddits, the calls for update `k` are one
   * block (its additions, then its removals) after every subreddit call,
   * every creation and the calls of the updates before it, and before the
   * calls of the updates after it.
   */
  lemma PlannedUpdateBlock(diff: SyncDiff, syncSubs: bool, clean: bool, k: nat)
    requires k < |diff.multisToUpdate|
    ensures var us := diff.multisToUpdate;
      PlannedOps(diff, syncSubs, true, clean) ==
        (if syncSubs then SubredditOps(diff, clean) else []) +
        CreateOps(diff.multisToAdd) + UpdateOps(us[..k]) +
        (AddOps(us[k].name, us[k].add) + RemoveOps(us[k].name, us[k].remove)) +
        UpdateOps(us[k + 1..])
  {
    var us := diff.multisToUpdate;
    UpdateBlock(us, k);
    var pre := if syncSubs then SubredditOps(diff, clean) else [];
    var block := AddOps(us[k].name, us[k].add) + RemoveOps(us[k].name, us[k].remove);
    Regroup(pre, CreateOps(diff.multisToAdd), UpdateOps(us[..k]), block, UpdateOps(us[k + 1..]));
  }

  lemma Regroup<T>(p: seq<T>, c: seq<T>, x: seq<T>, b: seq<T>, y: seq<T>)
    ensures p + (c + (x + b + y)) == p + c + x + b + y
  {
  }

  // ---------------------------------------------------------------------------
  // An end-to-end run

  /**
   * Source a, b, c against target b, d, both phases, cleaning: unsubscribe
   * from d, then subscribe to a and to c, and nothing else.
   */
  lemma ExampleRun()
    ensures PlannedOps(Diff(["a", "b", "c"], ["b", "d"], [], []), true, true, true) ==
      [Unsubscribe("d"), Subscribe("a"), Subscribe("c")]
  {
    SubsExample();
    var d := Diff(["a", "b", "c"], ["b", "d"], [], []);
    assert d.multisToAdd == [] && d.multisToUpdate == [];
    ExampleOps(d, "a", "c", "d");
  }

  lemma ExampleOps(d: SyncDiff, a: string, c: string, r: string)
    requires d.subsToAdd == [a, c] && d.subsToRemove == [r]
    requires d.multisToAdd == [] && d.multisToUpdate == []
    ensures PlannedOps(d, true, true, true) == [Unsubscribe(r), Subscribe(a), Subscribe(c)]
  {
    assert [a, c][..1] == [a];
    assert SubscribeOps([a]) == [Subscribe(a)];
    assert SubscribeOps([a, c]) == [Subscribe(a), Subscribe(c)];
    assert UnsubscribeOps([r]) == [Unsubscribe(r)];
  }
}
