/**
 * The sync executor: applies a diff to the target account through its
 * writer, in a fixed phase order, or only describes it in dry-run mode.
 */
module Sync {
  import opened Models

  /** A call on the target account's writer. */
  datatype Op =
    | Subscribe(subreddit: string)
    | Unsubscribe(subreddit: string)
    | CreateMulti(name: string, subreddits: seq<string>)
    | DeleteMulti(name: string)
    | AddToMulti(multi: string, subreddit: string)
    | RemoveFromMulti(multi: string, subreddit: string)

  /**
   * The write surface of the target account. Every call is appended to the
   * ghost `trace`; whether it succeeded is the remote's answer, unknown here.
   */
  class RedditWriter {
    const username: string
    ghost var trace: seq<Op>

    constructor(username: string)
      ensures this.username == username && trace == []
    {
      this.username := username;
      trace := [];
    }

    method SubscribeToSubreddit(subreddit: string) returns (ok: bool)
      modifies this
      ensures trace == old(trace) + [Subscribe(subreddit)]
    {
      ok :| true;
      trace := trace + [Subscribe(subreddit)];
    }

    method UnsubscribeFromSubreddit(subreddit: string) returns (ok: bool)
      modifies this
      ensures trace == old(trace) + [Unsubscribe(subreddit)]
    {
      ok :| true;
      trace := trace + [Unsubscribe(subreddit)];
    }

    method CreateMultireddit(name: string, subreddits: seq<string>) returns (ok: bool)
      modifies this
      ensures trace == old(trace) + [CreateMulti(name, subreddits)]
    {
      ok :| true;
      trace := trace + [CreateMulti(name, subreddits)];
    }

    method DeleteMultireddit(name: string) returns (ok: bool)
      modifies this
      ensures trace == old(trace) + [DeleteMulti(name)]
    {
      ok :| true;
      trace := trace + [DeleteMulti(name)];
    }

    method AddSubToMulti(multi: string, subreddit: string) returns (ok: bool)
      modifies this
      ensures trace == old(trace) + [AddToMulti(multi, subreddit)]
    {
      ok :| true;
      trace := trace + [AddToMulti(multi, subreddit)];
    }

    method RemoveSubFromMulti(multi: string, subreddit: string) returns (ok: bool)
      modifies this
      ensures trace == old(trace) + [RemoveFromMulti(multi, subreddit)]
    {
      ok :| true;
      trace := trace + [RemoveFromMulti(multi, subreddit)];
    }
  }

  // ---------------------------------------------------------------------------
  // The calls a live run makes

  function UnsubscribeOps(subs: seq<string>): (ops: seq<Op>)
    ensures |ops| == |subs|
  {
    if subs == [] then [] else UnsubscribeOps(subs[..|subs| - 1]) + [Unsubscribe(subs[|subs| - 1])]
  }

  function SubscribeOps(subs: seq<string>): (ops: seq<Op>)
    ensures |ops| == |subs|
  {
    if subs == [] then [] else SubscribeOps(subs[..|subs| - 1]) + [Subscribe(subs[|subs| - 1])]
  }

  function CreateOps(multis: seq<Multireddit>): (ops: seq<Op>)
    ensures |ops| == |multis|
  {
    if multis == [] then []
    else
      var m := multis[|multis| - 1];
      CreateOps(multis[..|multis| - 1]) + [CreateMulti(m.name, m.subreddits)]
  }

  function AddOps(name: string, subs: seq<string>): (ops: seq<Op>)
    ensures |ops| == |subs|
  {
    if subs == [] then [] else AddOps(name, subs[..|subs| - 1]) + [AddToMulti(name, subs[|subs| - 1])]
  }

  function RemoveOps(name: string, subs: seq<string>): (ops: seq<Op>)
    ensures |ops| == |subs|
  {
    if subs == [] then [] else RemoveOps(name, subs[..|subs| - 1]) + [RemoveFromMulti(name, subs[|subs| - 1])]
  }

  /** The number of membership edits the updates ask for: the sum of `|add| + |remove|`. */
  function EditCount(updates: seq<MultiUpdate>): nat {
    if updates == [] then 0
    else
      var u := updates[|updates| - 1];
      EditCount(updates[..|updates| - 1]) + |u.add| + |u.remove|
  }

  /** For each update in turn: all its additions, then all its removals; one call per edit. */
  function UpdateOps(updates: seq<MultiUpdate>): (ops: seq<Op>)
    ensures |ops| == EditCount(updates)
  {
    if updates == [] then []
    else
      var u := updates[|updates| - 1];
      UpdateOps(updates[..|updates| - 1]) + (AddOps(u.name, u.add) + RemoveOps(u.name, u.remove))
  }

  lemma CreateOpsStep(multis: seq<Multireddit>, i: nat)
    requires i < |multis|
    ensures CreateOps(multis[..i + 1]) == CreateOps(multis[..i]) + [CreateMulti(multis[i].name, multis[i].subreddits)]
  {
    assert multis[..i + 1][..i] == multis[..i];
  }

  lemma UpdateOpsStep(updates: seq<MultiUpdate>, i: nat)
    requires i < |updates|
    ensures UpdateOps(updates[..i + 1]) ==
      UpdateOps(updates[..i]) + (AddOps(updates[i].name, updates[i].add) + RemoveOps(updates[i].name, updates[i].remove))
  {
    assert updates[..i + 1][..i] == updates[..i];
  }

  lemma AppendAssoc<T>(a: seq<T>, b: seq<T>, c: seq<T>)
    ensures a + b + c == a + (b + c)
  {
  }

  /** The subreddit phase: removals first (only when cleaning), then additions, one call each. */
  function SubredditOps(diff: SyncDiff, clean: bool): (ops: seq<Op>)
    ensures |ops| == (if clean then |diff.subsToRemove| else 0) + |diff.subsToAdd|
  {
    (if clean then UnsubscribeOps(diff.subsToRemove) else []) + SubscribeOps(diff.subsToAdd)
  }

  /** The multireddit phase: one creation per new multireddit, then one call per membership edit. */
  function MultiredditOps(diff: SyncDiff): (ops: seq<Op>)
    ensures |ops| == |diff.multisToAdd| + EditCount(diff.multisToUpdate)
  {
    CreateOps(diff.multisToAdd) + UpdateOps(diff.multisToUpdate)
  }

  /**
   * The writer calls `execute` makes in live mode, in order. None is
   * skipped, whatever the earlier calls returned: one per subreddit to
   * remove (only when cleaning), one per subreddit to add, one per
   * multireddit to create and one per membership edit.
   */
  function PlannedOps(diff: SyncDiff, syncSubs: bool, syncMultis: bool, clean: bool): (ops: seq<Op>)
    ensures |ops| ==
      (if syncSubs then (if clean then |diff.subsToRemove| else 0) + |diff.subsToAdd| else 0) +
      (if syncMultis then |diff.multisToAdd| + EditCount(diff.multisToUpdate) else 0)
  {
    (if syncSubs then SubredditOps(diff, clean) else []) + (if syncMultis then MultiredditOps(diff) else [])
  }

  // ---------------------------------------------------------------------------
  // The executor

  /** Orchestrates sync operations to a target account. */
  class SyncService {
    const target: RedditWriter
    const dryRun: bool

    constructor(target: RedditWriter, dryRun: bool)
      ensures this.target == target && this.dryRun == dryRun
    {
      this.target := target;
      this.dryRun := dryRun;
    }

    /**
     * Applies `diff`: in dry-run mode no writer call is made; in live mode
     * exactly the planned calls, whatever each of them returns.
     */
    method Execute(diff: SyncDiff, syncSubs: bool, syncMultis: bool, clean: bool)
      modifies target
      ensures target.trace == old(target.trace) + (if dryRun then [] else PlannedOps(diff, syncSubs, syncMultis, clean))
    {
      if syncSubs {
        SyncSubreddits(diff, clean);
      }
      ghost var subsDone := target.trace;
      if syncMultis {
        SyncMultireddits(diff);
      }
      if !dryRun {
        ghost var subs := if syncSubs then SubredditOps(diff, clean) else [];
        ghost var multis := if syncMultis then MultiredditOps(diff) else [];
        assert subsDone == old(target.trace) + subs;
        assert target.trace == subsDone + multis;
        AppendAssoc(old(target.trace), subs, multis);
      }
    }

    method SyncSubreddits(diff: SyncDiff, clean: bool)
      modifies target
      ensures target.trace == old(target.trace) + (if dryRun then [] else SubredditOps(diff, clean))
    {
      if clean && diff.subsToRemove != [] {
        UnsubscribeFromSubs(diff.subsToRemove);
      }
      ghost var removed := target.trace;
      if diff.subsToAdd != [] {
        SubscribeToSubs(diff.subsToAdd);
      }
      if !dryRun {
        ghost var unsubs := if clean then UnsubscribeOps(diff.subsToRemove) else [];
        assert removed == old(target.trace) + unsubs;
        assert target.trace == removed + SubscribeOps(diff.subsToAdd);
        AppendAssoc(old(target.trace), unsubs, SubscribeOps(diff.subsToAdd));
      }
    }

    method UnsubscribeFromSubs(subs: seq<string>)
      modifies target
      ensures target.trace == old(target.trace) + (if dryRun then [] else UnsubscribeOps(subs))
    {
      if dryRun {
        return;
      }
      for i := 0 to |subs|
        invariant target.trace == old(target.trace) + UnsubscribeOps(subs[..i])
      {
        assert subs[..i + 1][..i] == subs[..i];
        var success := target.UnsubscribeFromSubreddit(subs[i]);
      }
      assert subs[..|subs|] == subs;
    }

    method SubscribeToSubs(subs: seq<string>)
      modifies target
      ensures target.trace == old(target.trace) + (if dryRun then [] else SubscribeOps(subs))
    {
      if dryRun {
        return;
      }
      for i := 0 to |subs|
        invariant target.trace == old(target.trace) + SubscribeOps(subs[..i])
      {
        assert subs[..i + 1][..i] == subs[..i];
        var success := target.SubscribeToSubreddit(subs[i]);
      }
      assert subs[..|subs|] == subs;
    }

    method SyncMultireddits(diff: SyncDiff)
      modifies target
      ensures target.trace == old(target.trace) + (if dryRun then [] else MultiredditOps(diff))
    {
      CreateMultis(diff.multisToAdd);
      UpdateMultis(diff.multisToUpdate);
      if !dryRun {
        AppendAssoc(old(target.trace), CreateOps(diff.multisToAdd), UpdateOps(diff.multisToUpdate));
      }
    }

    /** The first loop of the multireddit phase: one creation per new multireddit. */
    method CreateMultis(toAdd: seq<Multireddit>)
      modifies target
      ensures target.trace == old(target.trace) + (if dryRun then [] else CreateOps(toAdd))
    {
      for i := 0 to |toAdd|
        invariant target.trace == old(target.trace) + (if dryRun then [] else CreateOps(toAdd[..i]))
      {
        CreateOpsStep(toAdd, i);
        var m := toAdd[i];
        if !dryRun {
          var success := target.CreateMultireddit(m.name, m.subreddits);
        }
      }
      assert toAdd[..|toAdd|] == toAdd;
    }

    /** The second loop of the multireddit phase: the edits of each changed multireddit. */
    method UpdateMultis(updates: seq<MultiUpdate>)
      modifies target
      ensures target.trace == old(target.trace) + (if dryRun then [] else UpdateOps(updates))
    {
      for i := 0 to |updates|
        invariant target.trace == old(target.trace) + (if dryRun then [] else UpdateOps(updates[..i]))
      {
        UpdateOpsStep(updates, i);
        var m := updates[i];
        if !dryRun {
          ApplyUpdate(m);
          AppendAssoc(old(target.trace), UpdateOps(updates[..i]), AddOps(m.name, m.add) + RemoveOps(m.name, m.remove));
        }
      }
      assert updates[..|updates|] == updates;
    }

    /** The live branch of one update: every addition, then every removal, each its own call. */
    method ApplyUpdate(m: MultiUpdate)
      modifies target
      ensures target.trace == old(target.trace) + (AddOps(m.name, m.add) + RemoveOps(m.name, m.remove))
    {
      for j := 0 to |m.add|
        invariant target.trace == old(target.trace) + AddOps(m.name, m.add[..j])
      {
        assert m.add[..j + 1][..j] == m.add[..j];
        var success := target.AddSubToMulti(m.name, m.add[j]);
      }
      assert m.add[..|m.add|] == m.add;
      ghost var added := target.trace;
      for j := 0 to |m.remove|
        invariant target.trace == added + RemoveOps(m.name, m.remove[..j])
      {
        assert m.remove[..j + 1][..j] == m.remove[..j];
        var success := target.RemoveSubFromMulti(m.name, m.remove[j]);
      }
      assert m.remove[..|m.remove|] == m.remove;
      AppendAssoc(old(target.trace), AddOps(m.name, m.add), RemoveOps(m.name, m.remove));
    }
  }
}
