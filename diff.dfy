/**
 * The diff engine: compares a source and a target account and lists the
 * subreddits and multireddits to add, remove and update. Names are compared
 * case-insensitively.
 */
module DiffEngine {
  import opened CaseFold
  import opened OrderedDicts
  import opened Models

  /** A multireddit's identity: its lower-cased name. */
  function MultiKey(m: Multireddit): string {
    Lower(m.name)
  }

  /** The lower-cased names of a list of subreddits. */
  function LowerSet(ss: seq<string>): set<string> {
    set s | s in ss :: Lower(s)
  }

  ghost function NameKeys(ms: seq<Multireddit>): set<string> {
    set m | m in ms :: MultiKey(m)
  }

  ghost function UpdateKeys(us: seq<MultiUpdate>): set<string> {
    set u | u in us :: Lower(u.name)
  }

  /** The lower-cased member names of a multireddit. */
  function MemberSet(m: Multireddit): set<string> {
    LowerSet(m.subreddits)
  }

  /** The last multireddit of `ms` whose lower-cased name is `k`. */
  ghost function LastMulti(ms: seq<Multireddit>, k: string): (m: Multireddit)
    requires k in NameKeys(ms)
    ensures 0 <= LastIndex(ms, MultiKey, k) && m == ms[LastIndex(ms, MultiKey, k)]
    ensures m in ms && MultiKey(m) == k
  {
    FromSeqKeys(ms, MultiKey);
    FromSeqLast(ms, MultiKey, k);
    FromSeq(ms, MultiKey).vals[k]
  }

  // ---------------------------------------------------------------------------
  // The list comprehensions of the diff

  /** `[vals[k] for k in ks if k not in exclude]` */
  function Select<V>(ks: seq<string>, vals: map<string, V>, exclude: set<string>): (r: seq<V>)
  {
    if ks == [] then []
    else
      var n := |ks| - 1;
      Select(ks[..n], vals, exclude) + (if ks[n] in vals && ks[n] !in exclude then [vals[ks[n]]] else [])
  }

  lemma SelectSnoc<V>(ks: seq<string>, k: string, vals: map<string, V>, exclude: set<string>)
    ensures Select(ks + [k], vals, exclude) == Select(ks, vals, exclude) +
      (if k in vals && k !in exclude then [vals[k]] else [])
  {
    assert (ks + [k])[..|ks|] == ks;
  }

  lemma {:induction false} SelectLength<V>(ks: seq<string>, vals: map<string, V>, exclude: set<string>)
    ensures |Select(ks, vals, exclude)| <= |ks|
  {
    if ks != [] {
      SelectLength(ks[..|ks| - 1], vals, exclude);
    }
  }

  /** `[k for k in ks if k not in exclude]` */
  function Without(ks: seq<string>, exclude: set<string>): (r: seq<string>)
    ensures forall k :: k in r <==> k in ks && k !in exclude
    ensures Distinct(ks) ==> Distinct(r)
  {
    if ks == [] then []
    else
      var n := |ks| - 1;
      assert ks == ks[..n] + [ks[n]];
      Without(ks[..n], exclude) + (if ks[n] !in exclude then [ks[n]] else [])
  }

  /** The lower-cased members of a multireddit, each once, in order of first appearance. */
  function Members(m: Multireddit): (r: seq<string>)
    ensures Distinct(r)
    ensures forall s :: s in r <==> s in MemberSet(m)
  {
    FromSeqKeys(m.subreddits, Lower);
    FromSeq(m.subreddits, Lower).keys
  }

  /**
   * The update that brings `tgt`'s members in line with `src`'s, or None
   * when their lower-cased member sets agree.
   */
  function UpdateFor(src: Multireddit, tgt: Multireddit): (u: Option<MultiUpdate>)
    ensures u.Some? <==> MemberSet(src) != MemberSet(tgt)
    ensures u.Some? ==> u.value.name == src.name && (u.value.add != [] || u.value.remove != [])
  {
    var add := Without(Members(src), MemberSet(tgt));
    var remove := Without(Members(tgt), MemberSet(src));
    if add != [] || remove != [] then
      assert MemberSet(src) != MemberSet(tgt) by {
        if add != [] {
          assert add[0] in add;
        } else {
          assert remove[0] in remove;
        }
      }
      Some(MultiUpdate(src.name, add, remove))
    else
      assert MemberSet(src) == MemberSet(tgt) by {
        forall s | s in MemberSet(src) ensures s in MemberSet(tgt) {
          assert s in Members(src);
        }
        forall s | s in MemberSet(tgt) ensures s in MemberSet(src) {
          assert s in Members(tgt);
        }
      }
      None
  }

  /**
   * An update adds exactly the lower-cased members the source has and the
   * target lacks, and removes exactly those the target has and the source
   * lacks, each once.
   */
  lemma UpdateMembers(src: Multireddit, tgt: Multireddit)
    requires UpdateFor(src, tgt).Some?
    ensures var u := UpdateFor(src, tgt).value;
      (forall s :: s in u.add <==> s in MemberSet(src) && s !in MemberSet(tgt)) &&
      (forall s :: s in u.remove <==> s in MemberSet(tgt) && s !in MemberSet(src)) &&
      Distinct(u.add) && Distinct(u.remove)
  {
  }

  /** The updates for the keys `ks` present on both sides, in the order of `ks`. */
  function Updates(ks: seq<string>, sv: map<string, Multireddit>, tv: map<string, Multireddit>): (r: seq<MultiUpdate>)
  {
    if ks == [] then []
    else
      var n := |ks| - 1;
      var k := ks[n];
      Updates(ks[..n], sv, tv) +
        (if k in sv && k in tv && UpdateFor(sv[k], tv[k]).Some? then [UpdateFor(sv[k], tv[k]).value] else [])
  }

  lemma {:induction false} UpdatesLength(ks: seq<string>, sv: map<string, Multireddit>, tv: map<string, Multireddit>)
    ensures |Updates(ks, sv, tv)| <= |ks|
  {
    if ks != [] {
      UpdatesLength(ks[..|ks| - 1], sv, tv);
    }
  }

  lemma {:induction false} UpdatesEdit(ks: seq<string>, sv: map<string, Multireddit>, tv: map<string, Multireddit>)
    ensures forall u :: u in Updates(ks, sv, tv) ==> u.add != [] || u.remove != []
  {
    if ks != [] {
      UpdatesEdit(ks[..|ks| - 1], sv, tv);
    }
  }

  lemma UpdatesSnoc(ks: seq<string>, k: string, sv: map<string, Multireddit>, tv: map<string, Multireddit>)
    ensures Updates(ks + [k], sv, tv) == Updates(ks, sv, tv) +
      (if k in sv && k in tv && UpdateFor(sv[k], tv[k]).Some? then [UpdateFor(sv[k], tv[k]).value] else [])
  {
    assert (ks + [k])[..|ks|] == ks;
  }

  /** `[from_lower[s] for s in from_lower if s not in other_lower]` over case-folded subreddit dicts. */
  function MissingSubs(from: seq<string>, other: seq<string>): (r: seq<string>)
    ensures |r| <= |from|
  {
    var f := FromSeq(from, Lower);
    SelectLength(f.keys, f.vals, FromSeq(other, Lower).vals.Keys);
    Select(f.keys, f.vals, FromSeq(other, Lower).vals.Keys)
  }

  /** The multireddits of `from` whose lower-cased name `other` lacks, one per name. */
  function MissingMultis(from: seq<Multireddit>, other: seq<Multireddit>): (r: seq<Multireddit>)
    ensures |r| <= |from|
  {
    var f := FromSeq(from, MultiKey);
    SelectLength(f.keys, f.vals, FromSeq(other, MultiKey).vals.Keys);
    Select(f.keys, f.vals, FromSeq(other, MultiKey).vals.Keys)
  }

  /** The updates for the lower-cased names on both sides, in order of first appearance in `source`. */
  function MultiUpdates(source: seq<Multireddit>, target: seq<Multireddit>): (r: seq<MultiUpdate>)
    ensures |r| <= |source|
    ensures forall u :: u in r ==> u.add != [] || u.remove != []
  {
    var s := FromSeq(source, MultiKey);
    UpdatesLength(s.keys, s.vals, FromSeq(target, MultiKey).vals);
    UpdatesEdit(s.keys, s.vals, FromSeq(target, MultiKey).vals);
    Updates(s.keys, s.vals, FromSeq(target, MultiKey).vals)
  }

  /** `compute_diff`, as a value. */
  function Diff(sourceSubs: seq<string>, targetSubs: seq<string>,
                sourceMultis: seq<Multireddit>, targetMultis: seq<Multireddit>): (d: SyncDiff)
    ensures |d.subsToAdd| <= |sourceSubs| && |d.subsToRemove| <= |targetSubs|
    ensures |d.multisToAdd| <= |sourceMultis| && |d.multisToRemove| <= |targetMultis|
    ensures |d.multisToUpdate| <= |sourceMultis|
    ensures forall u :: u in d.multisToUpdate ==> u.add != [] || u.remove != []
  {
    SyncDiff(
      MissingSubs(sourceSubs, targetSubs),
      MissingSubs(targetSubs, sourceSubs),
      MissingMultis(sourceMultis, targetMultis),
      MissingMultis(targetMultis, sourceMultis),
      MultiUpdates(sourceMultis, targetMultis))
  }

  /**
   * `compute_diff`: the subreddit lists by comprehension, the multireddit
   * lists by one loop over the source multireddits and one over the target's.
   */
  method ComputeDiff(sourceSubs: seq<string>, targetSubs: seq<string>,
                     sourceMultis: seq<Multireddit>, targetMultis: seq<Multireddit>)
    returns (diff: SyncDiff)
    ensures diff == Diff(sourceSubs, targetSubs, sourceMultis, targetMultis)
  {
    var subsToAdd := MissingSubs(sourceSubs, targetSubs);
    var subsToRemove := MissingSubs(targetSubs, sourceSubs);

    var sourceMap := FromSeq(sourceMultis, MultiKey);
    var targetMap := FromSeq(targetMultis, MultiKey);
    var multisToAdd, multisToUpdate := ScanSource(sourceMap, targetMap);
    var multisToRemove := ScanTarget(targetMap, sourceMap);

    diff := SyncDiff(subsToAdd, subsToRemove, multisToAdd, multisToRemove, multisToUpdate);
  }

  /**
   * The loop over the source multireddits: a name the target lacks is
   * added, a name on both sides whose members differ gets its update.
   */
  method ScanSource(sourceMap: Dict<Multireddit>, targetMap: Dict<Multireddit>)
    returns (multisToAdd: seq<Multireddit>, multisToUpdate: seq<MultiUpdate>)
    requires Valid(sourceMap)
    ensures multisToAdd == Select(sourceMap.keys, sourceMap.vals, targetMap.vals.Keys)
    ensures multisToUpdate == Updates(sourceMap.keys, sourceMap.vals, targetMap.vals)
  {
    multisToAdd := [];
    multisToUpdate := [];
    for i := 0 to |sourceMap.keys|
      invariant multisToAdd == Select(sourceMap.keys[..i], sourceMap.vals, targetMap.vals.Keys)
      invariant multisToUpdate == Updates(sourceMap.keys[..i], sourceMap.vals, targetMap.vals)
    {
      var nameLower := sourceMap.keys[i];
      assert sourceMap.keys[..i + 1] == sourceMap.keys[..i] + [nameLower];
      assert nameLower in sourceMap.vals;
      UpdatesSnoc(sourceMap.keys[..i], nameLower, sourceMap.vals, targetMap.vals);
      SelectSnoc(sourceMap.keys[..i], nameLower, sourceMap.vals, targetMap.vals.Keys);
      var sourceMulti := sourceMap.vals[nameLower];
      if nameLower !in targetMap.vals {
        multisToAdd := multisToAdd + [sourceMulti];
      } else {
        var update := UpdateFor(sourceMulti, targetMap.vals[nameLower]);
        if update.Some? {
          multisToUpdate := multisToUpdate + [update.value];
        }
      }
    }
    assert sourceMap.keys[..|sourceMap.keys|] == sourceMap.keys;
  }

  /** The loop over the target multireddits: a name the source lacks is removed. */
  method ScanTarget(targetMap: Dict<Multireddit>, sourceMap: Dict<Multireddit>)
    returns (multisToRemove: seq<Multireddit>)
    requires Valid(targetMap)
    ensures multisToRemove == Select(targetMap.keys, targetMap.vals, sourceMap.vals.Keys)
  {
    multisToRemove := [];
    for i := 0 to |targetMap.keys|
      invariant multisToRemove == Select(targetMap.keys[..i], targetMap.vals, sourceMap.vals.Keys)
    {
      var nameLower := targetMap.keys[i];
      assert targetMap.keys[..i + 1] == targetMap.keys[..i] + [nameLower];
      assert nameLower in targetMap.vals;
      SelectSnoc(targetMap.keys[..i], nameLower, targetMap.vals, sourceMap.vals.Keys);
      if nameLower !in sourceMap.vals {
        multisToRemove := multisToRemove + [targetMap.vals[nameLower]];
      }
    }
    assert targetMap.keys[..|targetMap.keys|] == targetMap.keys;
  }
}
