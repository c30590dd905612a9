/** What the diff engine promises about the lists it computes. */
module DiffProperties {
  import opened CaseFold
  import opened OrderedDicts
  import opened Models
  import opened DiffEngine

  // ---------------------------------------------------------------------------
  // Dict comprehensions and the filtered list comprehension

  /** Every value of a comprehension dict sits under its own key and is the last item with that key. */
  lemma FromSeqKeyed<V>(xs: seq<V>, key: V -> string)
    ensures forall k :: k in FromSeq(xs, key).vals ==>
      key(FromSeq(xs, key).vals[k]) == k && 0 <= LastIndex(xs, key, k) &&
      FromSeq(xs, key).vals[k] == xs[LastIndex(xs, key, k)]
  {
    forall k | k in FromSeq(xs, key).vals
      ensures key(FromSeq(xs, key).vals[k]) == k && 0 <= LastIndex(xs, key, k) &&
        FromSeq(xs, key).vals[k] == xs[LastIndex(xs, key, k)]
    {
      FromSeqLast(xs, key, k);
    }
  }

  /**
   * `[vals[k] for k in ks if k not in exclude]` holds the value of every
   * listed key outside `exclude` and nothing else; over distinct keys no key
   * repeats.
   */
  lemma {:induction false} SelectSpec<V>(ks: seq<string>, vals: map<string, V>, exclude: set<string>, key: V -> string)
    requires forall k :: k in vals ==> key(vals[k]) == k
    ensures forall v :: v in Select(ks, vals, exclude) ==>
      key(v) in ks && key(v) in vals && key(v) !in exclude && vals[key(v)] == v
    ensures forall k :: k in ks && k in vals && k !in exclude ==> vals[k] in Select(ks, vals, exclude)
    ensures Distinct(ks) ==> forall i, j :: 0 <= i < j < |Select(ks, vals, exclude)| ==>
      key(Select(ks, vals, exclude)[i]) != key(Select(ks, vals, exclude)[j])
  {
    if ks != [] {
      var n := |ks| - 1;
      var r := Select(ks, vals, exclude);
      var prev := Select(ks[..n], vals, exclude);
      SelectSpec(ks[..n], vals, exclude, key);
      assert ks == ks[..n] + [ks[n]];
      if Distinct(ks) {
        assert Distinct(ks[..n]);
        forall i, j | 0 <= i < j < |r| ensures key(r[i]) != key(r[j]) {
          if j >= |prev| {
            assert r[j] == vals[ks[n]] && r[i] == prev[i] && prev[i] in prev;
            assert key(r[i]) in ks[..n];
          }
        }
      }
    }
  }

  // ---------------------------------------------------------------------------
  // Subreddits

  /**
   * Each subreddit of `from` missing from `other` is a spelling from `from`,
   * namely the last one of its lower-cased name, and no lower-cased name
   * is listed twice.
   */
  lemma MissingSubsSpellings(from: seq<string>, other: seq<string>)
    ensures forall x :: x in MissingSubs(from, other) ==>
      0 <= LastIndex(from, Lower, Lower(x)) && x == from[LastIndex(from, Lower, Lower(x))]
    ensures forall x :: x in MissingSubs(from, other) ==> x in from
    ensures forall i, j :: 0 <= i < j < |MissingSubs(from, other)| ==>
      Lower(MissingSubs(from, other)[i]) != Lower(MissingSubs(from, other)[j])
  {
    var f := FromSeq(from, Lower);
    FromSeqKeyed(from, Lower);
    SelectSpec(f.keys, f.vals, FromSeq(other, Lower).vals.Keys, Lower);
  }

  /** The lower-cased names of the subreddits of `from` missing from `other` are those only `from` has. */
  lemma MissingSubsNames(from: seq<string>, other: seq<string>)
    ensures LowerSet(MissingSubs(from, other)) == LowerSet(from) - LowerSet(other)
  {
    var f := FromSeq(from, Lower);
    var o := FromSeq(other, Lower);
    var r := MissingSubs(from, other);
    FromSeqKeyed(from, Lower);
    FromSeqKeys(from, Lower);
    FromSeqKeys(other, Lower);
    SelectSpec(f.keys, f.vals, o.vals.Keys, Lower);
    forall k | k in LowerSet(from) - LowerSet(other) ensures k in LowerSet(r) {
      assert f.vals[k] in r;
    }
  }

  /**
   * No subreddit is both added and removed: the lower-cased names of
   * `subs_to_add` are those only the source has, in source spelling, and
   * those of `subs_to_remove` those only the target has, in target spelling.
   */
  lemma SubsDiffSpec(sourceSubs: seq<string>, targetSubs: seq<string>,
                     sourceMultis: seq<Multireddit>, targetMultis: seq<Multireddit>)
    ensures var d := Diff(sourceSubs, targetSubs, sourceMultis, targetMultis);
      && LowerSet(d.subsToAdd) == LowerSet(sourceSubs) - LowerSet(targetSubs)
      && LowerSet(d.subsToRemove) == LowerSet(targetSubs) - LowerSet(sourceSubs)
      && LowerSet(d.subsToAdd) !! LowerSet(d.subsToRemove)
      && (forall x :: x in d.subsToAdd ==> x in sourceSubs)
      && (forall x :: x in d.subsToRemove ==> x in targetSubs)
  {
    MissingSubsSpellings(sourceSubs, targetSubs);
    MissingSubsSpellings(targetSubs, sourceSubs);
    MissingSubsNames(sourceSubs, targetSubs);
    MissingSubsNames(targetSubs, sourceSubs);
  }

  /** Swapping source and target swaps the subreddits and multireddits to add and to remove. */
  lemma AntiSymmetry(a: seq<string>, b: seq<string>, ma: seq<Multireddit>, mb: seq<Multireddit>)
    ensures Diff(a, b, ma, mb).subsToAdd == Diff(b, a, mb, ma).subsToRemove
    ensures Diff(a, b, ma, mb).multisToAdd == Diff(b, a, mb, ma).multisToRemove
  {
  }

  // ---------------------------------------------------------------------------
  // Multireddits

  /**
   * Each multireddit of `from` whose name `other` lacks is the last
   * multireddit of `from` with its lower-cased name, and no lower-cased name
   * is listed twice.
   */
  lemma MissingMultisItems(from: seq<Multireddit>, other: seq<Multireddit>)
    ensures forall m :: m in MissingMultis(from, other) ==>
      MultiKey(m) in NameKeys(from) && m == LastMulti(from, MultiKey(m))
    ensures forall i, j :: 0 <= i < j < |MissingMultis(from, other)| ==>
      MultiKey(MissingMultis(from, other)[i]) != MultiKey(MissingMultis(from, other)[j])
  {
    var f := FromSeq(from, MultiKey);
    var r := MissingMultis(from, other);
    FromSeqKeys(from, MultiKey);
    FromSeqKeyed(from, MultiKey);
    SelectSpec(f.keys, f.vals, FromSeq(other, MultiKey).vals.Keys, MultiKey);
    forall m | m in r ensures MultiKey(m) in NameKeys(from) && m == LastMulti(from, MultiKey(m)) {
      assert MultiKey(m) in f.vals && f.vals[MultiKey(m)] == m;
    }
  }

  /** The lower-cased names of the multireddits of `from` missing from `other` are those only `from` has. */
  lemma MissingMultisNames(from: seq<Multireddit>, other: seq<Multireddit>)
    ensures NameKeys(MissingMultis(from, other)) == NameKeys(from) - NameKeys(other)
  {
    var f := FromSeq(from, MultiKey);
    var o := FromSeq(other, MultiKey);
    var r := MissingMultis(from, other);
    FromSeqKeyed(from, MultiKey);
    FromSeqKeys(from, MultiKey);
    FromSeqKeys(other, MultiKey);
    SelectSpec(f.keys, f.vals, o.vals.Keys, MultiKey);
    forall k | k in NameKeys(from) - NameKeys(other) ensures k in NameKeys(r) {
      assert f.vals[k] in r;
    }
  }

  /**
   * The updates over the keys `ks` are those of the keys present on both
   * sides whose member sets differ, each carrying the source's name, and
   * over distinct keys no lower-cased name repeats.
   */
  lemma UpdatesSpec(ks: seq<string>, sv: map<string, Multireddit>, tv: map<string, Multireddit>)
    requires forall k :: k in sv ==> MultiKey(sv[k]) == k
    ensures forall u :: u in Updates(ks, sv, tv) ==>
      Lower(u.name) in ks && Lower(u.name) in sv && Lower(u.name) in tv &&
      UpdateFor(sv[Lower(u.name)], tv[Lower(u.name)]) == Some(u)
    ensures forall k :: k in ks && k in sv && k in tv && UpdateFor(sv[k], tv[k]).Some? ==>
      UpdateFor(sv[k], tv[k]).value in Updates(ks, sv, tv)
    ensures Distinct(ks) ==> forall i, j :: 0 <= i < j < |Updates(ks, sv, tv)| ==>
      Lower(Updates(ks, sv, tv)[i].name) != Lower(Updates(ks, sv, tv)[j].name)
  {
    UpdatesSound(ks, sv, tv);
    UpdatesComplete(ks, sv, tv);
    UpdatesDistinct(ks, sv, tv);
  }

  /** Every update is the one for a listed key present on both sides, under that key. */
  lemma {:induction false} UpdatesSound(ks: seq<string>, sv: map<string, Multireddit>, tv: map<string, Multireddit>)
    requires forall k :: k in sv ==> MultiKey(sv[k]) == k
    ensures forall u :: u in Updates(ks, sv, tv) ==>
      Lower(u.name) in ks && Lower(u.name) in sv && Lower(u.name) in tv &&
      UpdateFor(sv[Lower(u.name)], tv[Lower(u.name)]) == Some(u)
  {
    if ks != [] {
      var n := |ks| - 1;
      UpdatesSound(ks[..n], sv, tv);
      assert ks == ks[..n] + [ks[n]];
    }
  }

  /** Every listed key present on both sides with differing members has its update. */
  lemma {:induction false} UpdatesComplete(ks: seq<string>, sv: map<string, Multireddit>, tv: map<string, Multireddit>)
    ensures forall k :: k in ks && k in sv && k in tv && UpdateFor(sv[k], tv[k]).Some? ==>
      UpdateFor(sv[k], tv[k]).value in Updates(ks, sv, tv)
  {
    if ks != [] {
      var n := |ks| - 1;
      UpdatesComplete(ks[..n], sv, tv);
      assert ks == ks[..n] + [ks[n]];
    }
  }

  /** Over distinct keys, no lower-cased name is updated twice. */
  lemma {:induction false} UpdatesDistinct(ks: seq<string>, sv: map<string, Multireddit>, tv: map<string, Multireddit>)
    requires forall k :: k in sv ==> MultiKey(sv[k]) == k
    ensures Distinct(ks) ==> forall i, j :: 0 <= i < j < |Updates(ks, sv, tv)| ==>
      Lower(Updates(ks, sv, tv)[i].name) != Lower(Updates(ks, sv, tv)[j].name)
  {
    if ks != [] && Distinct(ks) {
      var n := |ks| - 1;
      var r := Updates(ks, sv, tv);
      var prev := Updates(ks[..n], sv, tv);
      UpdatesDistinct(ks[..n], sv, tv);
      UpdatesSound(ks[..n], sv, tv);
      assert Distinct(ks[..n]);
      forall i, j | 0 <= i < j < |r| ensures Lower(r[i].name) != Lower(r[j].name) {
        if j >= |prev| {
          assert r[i] == prev[i] && prev[i] in prev;
          assert Lower(r[i].name) in ks[..n];
        }
      }
    }
  }

  /**
   * `multis_to_update` holds, for each lower-cased name both sides have,
   * the update between the last source and the last target multireddit of
   * that name exactly when their lower-cased member sets differ; no name is
   * listed twice.
   */
  lemma MultiUpdatesSpec(source: seq<Multireddit>, target: seq<Multireddit>)
    ensures forall u :: u in MultiUpdates(source, target) ==>
      Lower(u.name) in NameKeys(source) && Lower(u.name) in NameKeys(target) &&
      UpdateFor(LastMulti(source, Lower(u.name)), LastMulti(target, Lower(u.name))) == Some(u)
    ensures forall k :: k in NameKeys(source) && k in NameKeys(target) ==>
      (k in UpdateKeys(MultiUpdates(source, target)) <==>
       MemberSet(LastMulti(source, k)) != MemberSet(LastMulti(target, k)))
    ensures forall i, j :: 0 <= i < j < |MultiUpdates(source, target)| ==>
      Lower(MultiUpdates(source, target)[i].name) != Lower(MultiUpdates(source, target)[j].name)
  {
    var s := FromSeq(source, MultiKey);
    var t := FromSeq(target, MultiKey);
    var r := MultiUpdates(source, target);
    FromSeqKeyed(source, MultiKey);
    FromSeqKeys(source, MultiKey);
    FromSeqKeys(target, MultiKey);
    UpdatesSpec(s.keys, s.vals, t.vals);
    forall k | k in NameKeys(source) && k in NameKeys(target)
      ensures k in UpdateKeys(r) <==> MemberSet(LastMulti(source, k)) != MemberSet(LastMulti(target, k))
    {
      if MemberSet(LastMulti(source, k)) != MemberSet(LastMulti(target, k)) {
        assert UpdateFor(s.vals[k], t.vals[k]).value in r;
      }
    }
  }

  /**
   * Each lower-cased multireddit name lands in at most one of
   * `multis_to_add` (source only), `multis_to_remove` (target only) and
   * `multis_to_update` (both sides).
   */
  lemma MultiBuckets(sourceSubs: seq<string>, targetSubs: seq<string>,
                     sourceMultis: seq<Multireddit>, targetMultis: seq<Multireddit>)
    ensures var d := Diff(sourceSubs, targetSubs, sourceMultis, targetMultis);
      && NameKeys(d.multisToAdd) == NameKeys(sourceMultis) - NameKeys(targetMultis)
      && NameKeys(d.multisToRemove) == NameKeys(targetMultis) - NameKeys(sourceMultis)
      && UpdateKeys(d.multisToUpdate) <= NameKeys(sourceMultis) * NameKeys(targetMultis)
      && NameKeys(d.multisToAdd) !! NameKeys(d.multisToRemove)
      && NameKeys(d.multisToAdd) !! UpdateKeys(d.multisToUpdate)
      && NameKeys(d.multisToRemove) !! UpdateKeys(d.multisToUpdate)
  {
    MissingMultisNames(sourceMultis, targetMultis);
    MissingMultisNames(targetMultis, sourceMultis);
    MultiUpdatesSpec(sourceMultis, targetMultis);
  }

  /**
   * Every update is emitted with a non-empty `add` or `remove`, carries the
   * source spelling of the name, adds the lower-cased members only the
   * source multireddit has and removes those only the target's has.
   */
  lemma UpdateContents(sourceSubs: seq<string>, targetSubs: seq<string>,
                       sourceMultis: seq<Multireddit>, targetMultis: seq<Multireddit>)
    ensures forall u :: u in Diff(sourceSubs, targetSubs, sourceMultis, targetMultis).multisToUpdate ==>
      Lower(u.name) in NameKeys(sourceMultis) && Lower(u.name) in NameKeys(targetMultis) &&
      var src := LastMulti(sourceMultis, Lower(u.name));
      var tgt := LastMulti(targetMultis, Lower(u.name));
      && u.name == src.name
      && (u.add != [] || u.remove != [])
      && (forall x :: x in u.add <==> x in MemberSet(src) && x !in MemberSet(tgt))
      && (forall x :: x in u.remove <==> x in MemberSet(tgt) && x !in MemberSet(src))
  {
    MultiUpdatesSpec(sourceMultis, targetMultis);
    forall u | u in MultiUpdates(sourceMultis, targetMultis) {
      UpdateMembers(LastMulti(sourceMultis, Lower(u.name)), LastMulti(targetMultis, Lower(u.name)));
    }
  }

  // ---------------------------------------------------------------------------
  // Convergence

  /** Source and target agree under case-folding: same subreddits, same multireddit names, same members. */
  ghost predicate Converged(sourceSubs: seq<string>, targetSubs: seq<string>,
                            sourceMultis: seq<Multireddit>, targetMultis: seq<Multireddit>) {
    && LowerSet(sourceSubs) == LowerSet(targetSubs)
    && NameKeys(sourceMultis) == NameKeys(targetMultis)
    && forall k :: k in NameKeys(sourceMultis) && k in NameKeys(targetMultis) ==>
         MemberSet(LastMulti(sourceMultis, k)) == MemberSet(LastMulti(targetMultis, k))
  }

  lemma NoMultisNoNames(ms: seq<Multireddit>)
    ensures ms != [] ==> NameKeys(ms) != {}
  {
    if ms != [] {
      assert MultiKey(ms[0]) in NameKeys(ms);
    }
  }

  lemma NoUpdatesNoNames(us: seq<MultiUpdate>)
    ensures us != [] ==> UpdateKeys(us) != {}
  {
    if us != [] {
      assert Lower(us[0].name) in UpdateKeys(us);
    }
  }

  /** The diff has no changes exactly when source and target have converged. */
  lemma NoChangesIffConverged(sourceSubs: seq<string>, targetSubs: seq<string>,
                              sourceMultis: seq<Multireddit>, targetMultis: seq<Multireddit>)
    ensures !Diff(sourceSubs, targetSubs, sourceMultis, targetMultis).HasChanges() <==>
      Converged(sourceSubs, targetSubs, sourceMultis, targetMultis)
  {
    if Converged(sourceSubs, targetSubs, sourceMultis, targetMultis) {
      ConvergedHasNoChanges(sourceSubs, targetSubs, sourceMultis, targetMultis);
    }
    if !Diff(sourceSubs, targetSubs, sourceMultis, targetMultis).HasChanges() {
      NoChangesConverged(sourceSubs, targetSubs, sourceMultis, targetMultis);
    }
  }

  lemma ConvergedHasNoChanges(sourceSubs: seq<string>, targetSubs: seq<string>,
                              sourceMultis: seq<Multireddit>, targetMultis: seq<Multireddit>)
    requires Converged(sourceSubs, targetSubs, sourceMultis, targetMultis)
    ensures !Diff(sourceSubs, targetSubs, sourceMultis, targetMultis).HasChanges()
  {
    var d := Diff(sourceSubs, targetSubs, sourceMultis, targetMultis);
    SubsDiffSpec(sourceSubs, targetSubs, sourceMultis, targetMultis);
    MultiBuckets(sourceSubs, targetSubs, sourceMultis, targetMultis);
    MultiUpdatesSpec(sourceMultis, targetMultis);
    NoNamesNoSubs(d.subsToAdd);
    NoNamesNoSubs(d.subsToRemove);
    NoMultisNoNames(d.multisToAdd);
    NoMultisNoNames(d.multisToRemove);
    NoUpdatesNoNames(d.multisToUpdate);
  }

  lemma NoChangesConverged(sourceSubs: seq<string>, targetSubs: seq<string>,
                           sourceMultis: seq<Multireddit>, targetMultis: seq<Multireddit>)
    requires !Diff(sourceSubs, targetSubs, sourceMultis, targetMultis).HasChanges()
    ensures Converged(sourceSubs, targetSubs, sourceMultis, targetMultis)
  {
    NoneMissingSameSubs(sourceSubs, targetSubs);
    NoneMissingSameNames(sourceMultis, targetMultis);
    NoUpdatesSameMembers(sourceMultis, targetMultis);
  }

  lemma NoneMissingSameSubs(a: seq<string>, b: seq<string>)
    requires MissingSubs(a, b) == [] && MissingSubs(b, a) == []
    ensures LowerSet(a) == LowerSet(b)
  {
    MissingSubsNames(a, b);
    MissingSubsNames(b, a);
    assert LowerSet(a) - LowerSet(b) == {} && LowerSet(b) - LowerSet(a) == {};
  }

  lemma NoneMissingSameNames(a: seq<Multireddit>, b: seq<Multireddit>)
    requires MissingMultis(a, b) == [] && MissingMultis(b, a) == []
    ensures NameKeys(a) == NameKeys(b)
  {
    MissingMultisNames(a, b);
    MissingMultisNames(b, a);
    assert NameKeys(a) - NameKeys(b) == {} && NameKeys(b) - NameKeys(a) == {};
  }

  lemma NoUpdatesSameMembers(source: seq<Multireddit>, target: seq<Multireddit>)
    requires MultiUpdates(source, target) == []
    ensures forall k :: k in NameKeys(source) && k in NameKeys(target) ==>
      MemberSet(LastMulti(source, k)) == MemberSet(LastMulti(target, k))
  {
    MultiUpdatesSpec(source, target);
    assert UpdateKeys(MultiUpdates(source, target)) == {};
  }

  /** Diffing an account against an identical one yields no changes. */
  lemma SelfDiffHasNoChanges(subs: seq<string>, multis: seq<Multireddit>)
    ensures !Diff(subs, subs, multis, multis).HasChanges()
  {
    NoChangesIffConverged(subs, subs, multis, multis);
  }

  /** Empty inputs give the empty diff. */
  lemma EmptyInputs()
    ensures Diff([], [], [], []) == SyncDiff([], [], [], [], [])
  {
  }

  /** A subreddit both sides have under case-folding is neither added nor removed. */
  lemma CaseFoldExample()
    ensures Diff(["AskReddit"], ["askreddit"], [], []).subsToAdd == []
    ensures Diff(["AskReddit"], ["askreddit"], [], []).subsToRemove == []
  {
    var a, b := ["AskReddit"], ["askreddit"];
    SameNames(a, b);
    MissingSubsNames(a, b);
    MissingSubsNames(b, a);
    NoNamesNoSubs(MissingSubs(a, b));
    NoNamesNoSubs(MissingSubs(b, a));
  }

  lemma SameNames(a: seq<string>, b: seq<string>)
    requires a == ["AskReddit"] && b == ["askreddit"]
    ensures LowerSet(a) == LowerSet(b)
  {
    assert Lower(a[0]) == b[0] by {
      assert forall i :: 0 <= i < |b[0]| ==> Lower(a[0])[i] == b[0][i];
    }
    LowerIsLower(a[0]);
    assert forall x :: x in a <==> x == a[0];
    assert forall x :: x in b <==> x == b[0];
  }

  lemma NoNamesNoSubs(ss: seq<string>)
    ensures ss != [] ==> LowerSet(ss) != {}
  {
    if ss != [] {
      assert Lower(ss[0]) in LowerSet(ss);
    }
  }

  lemma FromSeqSnoc<V>(xs: seq<V>, x: V, key: V -> string)
    ensures FromSeq(xs + [x], key) == Put(FromSeq(xs, key), key(x), x)
  {
    assert (xs + [x])[..|xs|] == xs;
  }

  /** Lower-case names index to themselves. */
  lemma LowerDict2(a: string, b: string)
    requires IsLower(a) && IsLower(b) && a != b
    ensures FromSeq([a, b], Lower) == Dict([a, b], map[a := a, b := b])
  {
    LowerOfLower(a);
    LowerOfLower(b);
    FromSeqSnoc([], a, Lower);
    FromSeqSnoc([a], b, Lower);
    assert [a] + [b] == [a, b];
  }

  lemma LowerDict3(a: string, b: string, c: string)
    requires IsLower(a) && IsLower(b) && IsLower(c) && a != b && b != c && a != c
    ensures FromSeq([a, b, c], Lower) == Dict([a, b, c], map[a := a, b := b, c := c])
  {
    LowerDict2(a, b);
    LowerOfLower(c);
    FromSeqSnoc([a, b], c, Lower);
    assert [a, b] + [c] == [a, b, c];
  }

  /** Source a, b, c against target b, d: add a and c, remove d. */
  lemma SubsExample()
    ensures Diff(["a", "b", "c"], ["b", "d"], [], []).subsToAdd == ["a", "c"]
    ensures Diff(["a", "b", "c"], ["b", "d"], [], []).subsToRemove == ["d"]
  {
    assert IsLower("a") && IsLower("b") && IsLower("c") && IsLower("d");
    assert "a" != "b" && "a" != "d" && "c" != "b" && "c" != "d" && "a" != "c" && "b" != "d";
    SubsExampleDicts("a", "b", "c", "d");
    SubsExampleSelect("a", "b", "c", "d");
  }

  lemma SubsExampleDicts(a: string, b: string, c: string, d: string)
    requires IsLower(a) && IsLower(b) && IsLower(c) && IsLower(d)
    requires a != b && a != d && c != b && c != d && a != c && b != d
    ensures MissingSubs([a, b, c], [b, d]) == Select([a, b, c], map[a := a, b := b, c := c], {b, d})
    ensures MissingSubs([b, d], [a, b, c]) == Select([b, d], map[b := b, d := d], {a, b, c})
  {
    LowerDict3(a, b, c);
    LowerDict2(b, d);
    DictKeys2(b, d);
    DictKeys3(a, b, c);
    MissingSubsFromDicts([a, b, c], [b, d], [a, b, c], map[a := a, b := b, c := c], {b, d});
    MissingSubsFromDicts([b, d], [a, b, c], [b, d], map[b := b, d := d], {a, b, c});
  }

  lemma DictKeys2(a: string, b: string)
    ensures map[a := a, b := b].Keys == {a, b}
  {
  }

  lemma DictKeys3(a: string, b: string, c: string)
    ensures map[a := a, b := b, c := c].Keys == {a, b, c}
  {
  }

  lemma MissingSubsFromDicts(from: seq<string>, other: seq<string>, ks: seq<string>,
                             vals: map<string, string>, otherKeys: set<string>)
    requires FromSeq(from, Lower) == Dict(ks, vals)
    requires FromSeq(other, Lower).vals.Keys == otherKeys
    ensures MissingSubs(from, other) == Select(ks, vals, otherKeys)
  {
  }

  lemma SubsExampleSelect(a: string, b: string, c: string, d: string)
    requires a != b && a != d && c != b && c != d && a != c && b != d
    ensures Select([a, b, c], map[a := a, b := b, c := c], {b, d}) == [a, c]
    ensures Select([b, d], map[b := b, d := d], {a, b, c}) == [d]
  {
    SelectThree(a, b, c, map[a := a, b := b, c := c], {b, d});
    var t := map[b := b, d := d];
    SelectSnoc([], b, t, {a, b, c});
    SelectSnoc([b], d, t, {a, b, c});
    assert [] + [b] == [b] && [b] + [d] == [b, d];
  }

  lemma SelectThree(a: string, b: string, c: string, s: map<string, string>, exclude: set<string>)
    requires a in s && b in s && c in s
    ensures Select([a, b, c], s, exclude) ==
      (if a !in exclude then [s[a]] else []) + (if b !in exclude then [s[b]] else []) + (if c !in exclude then [s[c]] else [])
  {
    SelectSnoc([], a, s, exclude);
    SelectSnoc([a], b, s, exclude);
    SelectSnoc([a, b], c, s, exclude);
    assert [] + [a] == [a] && [a] + [b] == [a, b] && [a, b] + [c] == [a, b, c];
  }

  /**
   * Source multireddit "news" with worldnews and politics against target
   * "news" with worldnews: one update adding politics, nothing else.
   */
  lemma NewsExample()
    ensures Diff([], [], [Multireddit("news", ["worldnews", "politics"])], [Multireddit("news", ["worldnews"])])
      == SyncDiff([], [], [], [], [MultiUpdate("news", ["politics"], [])])
  {
    assert IsLower("worldnews") && IsLower("politics") && "worldnews" != "politics";
    ExampleUpdate("news", "worldnews", "politics");
    SameNameDiff(Multireddit("news", ["worldnews", "politics"]), Multireddit("news", ["worldnews"]));
  }

  /** One multireddit on each side under the same lower-cased name: at most an update. */
  lemma SameNameDiff(src: Multireddit, tgt: Multireddit)
    requires MultiKey(src) == MultiKey(tgt)
    ensures MissingMultis([src], [tgt]) == [] && MissingMultis([tgt], [src]) == []
    ensures MultiUpdates([src], [tgt]) == if UpdateFor(src, tgt).Some? then [UpdateFor(src, tgt).value] else []
  {
    var k := MultiKey(src);
    SingletonDict(src);
    SingletonDict(tgt);
    var s := map[k := src];
    var t := map[k := tgt];
    SelectSnoc([], k, s, t.Keys);
    SelectSnoc([], k, t, s.Keys);
    SameNameUpdates(k, s, t);
  }

  lemma SingletonDict(m: Multireddit)
    ensures FromSeq([m], MultiKey) == Dict([MultiKey(m)], map[MultiKey(m) := m])
  {
    FromSeqSnoc([], m, MultiKey);
    assert [] + [m] == [m];
  }

  lemma SameNameUpdates(k: string, s: map<string, Multireddit>, t: map<string, Multireddit>)
    requires k in s && k in t
    ensures Updates([k], s, t) == if UpdateFor(s[k], t[k]).Some? then [UpdateFor(s[k], t[k]).value] else []
  {
    UpdatesSnoc([], k, s, t);
    assert [] + [k] == [k];
  }

  lemma ExampleUpdate(n: string, w: string, p: string)
    requires IsLower(w) && IsLower(p) && w != p
    ensures UpdateFor(Multireddit(n, [w, p]), Multireddit(n, [w])) == Some(MultiUpdate(n, [p], []))
  {
    var src, tgt := Multireddit(n, [w, p]), Multireddit(n, [w]);
    ExampleMembers(n, w, p);
    ExampleWithout(w, p);
    assert Without(Members(src), MemberSet(tgt)) == [p];
    assert Without(Members(tgt), MemberSet(src)) == [];
  }

  lemma ExampleWithout(w: string, p: string)
    requires w != p
    ensures Without([w, p], {w}) == [p] && Without([w], {w, p}) == []
  {
    WithoutAll([w], {w, p});
    WithoutAll([w], {w});
    WithoutSnoc([w], p, {w});
    assert [w] + [p] == [w, p];
  }

  /** Excluding every key leaves nothing. */
  lemma WithoutAll(ks: seq<string>, exclude: set<string>)
    requires forall k :: k in ks ==> k in exclude
    ensures Without(ks, exclude) == []
  {
    if Without(ks, exclude) != [] {
      assert Without(ks, exclude)[0] in Without(ks, exclude);
    }
  }

  lemma ExampleMembers(n: string, w: string, p: string)
    requires IsLower(w) && IsLower(p) && w != p
    ensures Members(Multireddit(n, [w, p])) == [w, p] && MemberSet(Multireddit(n, [w, p])) == {w, p}
    ensures Members(Multireddit(n, [w])) == [w] && MemberSet(Multireddit(n, [w])) == {w}
  {
    MembersTwo(n, w, p);
    MemberSetTwo(n, w, p);
    MembersOne(n, w);
    MemberSetOne(n, w);
  }

  lemma MembersTwo(n: string, w: string, p: string)
    requires IsLower(w) && IsLower(p) && w != p
    ensures Members(Multireddit(n, [w, p])) == [w, p]
  {
    LowerDict2(w, p);
  }

  lemma MemberSetTwo(n: string, w: string, p: string)
    requires IsLower(w) && IsLower(p)
    ensures MemberSet(Multireddit(n, [w, p])) == {w, p}
  {
    LowerOfLower(w);
    LowerOfLower(p);
    var m := Multireddit(n, [w, p]);
    assert Lower(m.subreddits[0]) == w;
    assert Lower(m.subreddits[1]) == p;
  }

  lemma MembersOne(n: string, w: string)
    requires IsLower(w)
    ensures Members(Multireddit(n, [w])) == [w]
  {
    LowerOfLower(w);
    FromSeqSnoc([], w, Lower);
    assert [] + [w] == [w];
  }

  lemma MemberSetOne(n: string, w: string)
    requires IsLower(w)
    ensures MemberSet(Multireddit(n, [w])) == {w}
  {
    LowerOfLower(w);
    var m := Multireddit(n, [w]);
    assert Lower(m.subreddits[0]) == w;
  }

  lemma WithoutSnoc(ks: seq<string>, k: string, exclude: set<string>)
    ensures Without(ks + [k], exclude) == Without(ks, exclude) + (if k !in exclude then [k] else [])
  {
    assert (ks + [k])[..|ks|] == ks;
  }
}
