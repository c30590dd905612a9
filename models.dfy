/**
 * The data model of the reconciliation core: multireddits, multireddit
 * updates, exported account data and the diff between two accounts, with
 * their dict (JSON object) forms.
 */
module Models {

  /** The JSON values the dict forms use. */
  datatype Json = JStr(str: string) | JArr(items: seq<Json>) | JObj(fields: map<string, Json>)

  type JsonObject = map<string, Json>

  datatype Option<T> = None | Some(value: T)

  /** Why loading a dict failed: a required key is missing (Python's KeyError), or a value is not of the expected JSON shape. */
  datatype LoadError = MissingKey(key: string) | WrongShape(key: string)

  datatype Result<T> = Ok(value: T) | Err(error: LoadError)

  /** A multireddit (custom feed): a name and its member subreddits. */
  datatype Multireddit = Multireddit(name: string, subreddits: seq<string>)

  /** Changes needed to bring an existing multireddit in line: members to add and to remove. */
  datatype MultiUpdate = MultiUpdate(name: string, add: seq<string>, remove: seq<string>)

  /** The state exported from one account. */
  datatype AccountData = AccountData(username: string, subreddits: seq<string>, multireddits: seq<Multireddit>)

  /** Differences between a source and a target account. */
  datatype SyncDiff = SyncDiff(
    subsToAdd: seq<string>,
    subsToRemove: seq<string>,
    multisToAdd: seq<Multireddit>,
    multisToRemove: seq<Multireddit>,
    multisToUpdate: seq<MultiUpdate>)
  {
    /** `has_changes()`: the diff is not the empty diff. */
    predicate HasChanges()
      ensures HasChanges() <==> this != SyncDiff([], [], [], [], [])
    {
      subsToAdd != [] || subsToRemove != [] || multisToAdd != [] || multisToRemove != [] || multisToUpdate != []
    }
  }

  // ---------------------------------------------------------------------------
  // Lists of strings

  function StringItems(ss: seq<string>): (js: seq<Json>)
    ensures |js| == |ss|
    ensures forall i :: 0 <= i < |ss| ==> js[i] == JStr(ss[i])
  {
    if ss == [] then [] else [JStr(ss[0])] + StringItems(ss[1..])
  }

  function AsStringItems(js: seq<Json>): (r: Option<seq<string>>)
    ensures r.Some? <==> forall i :: 0 <= i < |js| ==> js[i].JStr?
    ensures r.Some? ==> |r.value| == |js| && forall i :: 0 <= i < |js| ==> js[i] == JStr(r.value[i])
  {
    if js == [] then Some([])
    else if !js[0].JStr? then None
    else match AsStringItems(js[1..])
      case None => None
      case Some(rest) => Some([js[0].str] + rest)
  }

  /** Reads a JSON array of strings; None for any other shape. */
  function AsStrings(j: Json): (r: Option<seq<string>>)
    ensures r.Some? <==> j.JArr? && forall i :: 0 <= i < |j.items| ==> j.items[i].JStr?
    ensures r.Some? ==> |r.value| == |j.items| && forall i :: 0 <= i < |j.items| ==> j.items[i] == JStr(r.value[i])
  {
    if j.JArr? then AsStringItems(j.items) else None
  }

  lemma {:induction false} StringItemsRoundTrip(ss: seq<string>)
    ensures AsStringItems(StringItems(ss)) == Some(ss)
  {
    if ss != [] {
      StringItemsRoundTrip(ss[1..]);
      assert [ss[0]] + ss[1..] == ss;
      assert StringItems(ss)[1..] == StringItems(ss[1..]);
    }
  }

  /** A list of strings as a JSON array, one string item per name, which reads back unchanged. */
  function Strings(ss: seq<string>): (j: Json)
    ensures j.JArr? && |j.items| == |ss|
    ensures forall i :: 0 <= i < |ss| ==> j.items[i] == JStr(ss[i])
    ensures AsStrings(j) == Some(ss)
  {
    StringItemsRoundTrip(ss);
    JArr(StringItems(ss))
  }

  // ---------------------------------------------------------------------------
  // Multireddit

  /** `Multireddit.to_dict`: exactly the keys "name" and "subreddits". */
  function MultiToDict(m: Multireddit): (d: JsonObject)
    ensures d.Keys == {"name", "subreddits"}
    ensures d["name"] == JStr(m.name)
    ensures AsStrings(d["subreddits"]) == Some(m.subreddits)
  {
    map["name" := JStr(m.name), "subreddits" := Strings(m.subreddits)]
  }

  /**
   * `Multireddit.from_dict`: "name" is required (KeyError without it);
   * "subreddits" defaults to the empty list.
   */
  function MultiFromDict(d: JsonObject): (r: Result<Multireddit>)
    ensures "name" !in d ==> r == Err(MissingKey("name"))
    ensures r.Ok? ==> d["name"] == JStr(r.value.name)
    ensures r.Ok? && "subreddits" !in d ==> r.value.subreddits == []
    ensures r.Ok? && "subreddits" in d ==> AsStrings(d["subreddits"]) == Some(r.value.subreddits)
    ensures r.Err? ==> r.error in {MissingKey("name"), WrongShape("name"), WrongShape("subreddits")}
    ensures r.Ok? <==> "name" in d && d["name"].JStr? && ("subreddits" !in d || AsStrings(d["subreddits"]).Some?)
    ensures r == Err(MissingKey("name")) <==> "name" !in d
    ensures "name" in d && !d["name"].JStr? ==> r == Err(WrongShape("name"))
  {
    if "name" !in d then Err(MissingKey("name"))
    else if !d["name"].JStr? then Err(WrongShape("name"))
    else
      var subs := if "subreddits" in d then AsStrings(d["subreddits"]) else Some([]);
      if subs.None? then Err(WrongShape("subreddits"))
      else Ok(Multireddit(d["name"].str, subs.value))
  }

  /** A multireddit survives `to_dict` followed by `from_dict`. */
  lemma MultiRoundTrip(m: Multireddit)
    ensures MultiFromDict(MultiToDict(m)) == Ok(m)
  {
  }

  /** A multireddit dict without "subreddits" loads with no members; any other key is ignored. */
  lemma MultiDefaultSubreddits(name: string, extra: JsonObject)
    requires "name" !in extra && "subreddits" !in extra
    ensures MultiFromDict(extra["name" := JStr(name)]) == Ok(Multireddit(name, []))
  {
  }

  /** `[m.to_dict() for m in ms]` */
  function MultisToJson(ms: seq<Multireddit>): (js: seq<Json>)
    ensures |js| == |ms|
    ensures forall i :: 0 <= i < |ms| ==> js[i] == JObj(MultiToDict(ms[i]))
  {
    if ms == [] then [] else [JObj(MultiToDict(ms[0]))] + MultisToJson(ms[1..])
  }

  /** `[Multireddit.from_dict(m) for m in items]`: the first failure is raised. */
  function MultisFromJson(js: seq<Json>): (r: Result<seq<Multireddit>>)
    ensures r.Ok? ==> |r.value| == |js|
    ensures r.Err? ==> r.error in {WrongShape("multireddits"), MissingKey("name"), WrongShape("name"), WrongShape("subreddits")}
    ensures r.Ok? <==> forall i :: 0 <= i < |js| ==> js[i].JObj? && MultiFromDict(js[i].fields).Ok?
    ensures r.Ok? ==> forall i :: 0 <= i < |js| ==> MultiFromDict(js[i].fields) == Ok(r.value[i])
  {
    if js == [] then Ok([])
    else if !js[0].JObj? then Err(WrongShape("multireddits"))
    else match MultiFromDict(js[0].fields)
      case Err(e) => Err(e)
      case Ok(m) =>
        match MultisFromJson(js[1..])
        case Err(e) => Err(e)
        case Ok(rest) => Ok([m] + rest)
  }

  lemma {:induction false} MultisRoundTrip(ms: seq<Multireddit>)
    ensures MultisFromJson(MultisToJson(ms)) == Ok(ms)
  {
    if ms != [] {
      MultiRoundTrip(ms[0]);
      MultisRoundTrip(ms[1..]);
      assert [ms[0]] + ms[1..] == ms;
      assert MultisToJson(ms)[1..] == MultisToJson(ms[1..]);
    }
  }

  // ---------------------------------------------------------------------------
  // MultiUpdate

  /** `MultiUpdate.to_dict`: exactly the keys "name", "add" and "remove", carrying the fields unchanged. */
  function UpdateToDict(u: MultiUpdate): (d: JsonObject)
    ensures d.Keys == {"name", "add", "remove"}
    ensures d["name"] == JStr(u.name)
    ensures AsStrings(d["add"]) == Some(u.add) && AsStrings(d["remove"]) == Some(u.remove)
  {
    map["name" := JStr(u.name), "add" := Strings(u.add), "remove" := Strings(u.remove)]
  }

  function UpdatesToJson(us: seq<MultiUpdate>): (js: seq<Json>)
    ensures |js| == |us|
    ensures forall i :: 0 <= i < |us| ==> js[i] == JObj(UpdateToDict(us[i]))
  {
    if us == [] then [] else [JObj(UpdateToDict(us[0]))] + UpdatesToJson(us[1..])
  }

  // ---------------------------------------------------------------------------
  // AccountData

  /**
   * `AccountData.to_dict`: the username under "source_account", the
   * subreddit names under "subreddits" and each multireddit's own
   * `to_dict` under "multireddits".
   */
  function AccountToDict(a: AccountData): (d: JsonObject)
    ensures d.Keys == {"source_account", "subreddits", "multireddits"}
    ensures d["source_account"] == JStr(a.username)
    ensures AsStrings(d["subreddits"]) == Some(a.subreddits)
    ensures d["multireddits"].JArr? && |d["multireddits"].items| == |a.multireddits|
    ensures forall i :: 0 <= i < |a.multireddits| ==> d["multireddits"].items[i] == JObj(MultiToDict(a.multireddits[i]))
  {
    map[
      "source_account" := JStr(a.username),
      "subreddits" := Strings(a.subreddits),
      "multireddits" := JArr(MultisToJson(a.multireddits))]
  }

  /**
   * `AccountData.from_dict`: "source_account" defaults to "unknown",
   * "subreddits" and "multireddits" to the empty list; a multireddit that
   * cannot be loaded makes the whole load fail. Other keys are ignored.
   */
  function AccountFromDict(d: JsonObject): (r: Result<AccountData>)
    ensures r.Ok? && "source_account" !in d ==> r.value.username == "unknown"
    ensures r.Ok? && "subreddits" !in d ==> r.value.subreddits == []
    ensures r.Ok? && "multireddits" !in d ==> r.value.multireddits == []
    ensures r.Err? ==> r.error in {WrongShape("source_account"), WrongShape("subreddits"),
      WrongShape("multireddits"), WrongShape("name"), MissingKey("name")}
    ensures r.Ok? <==>
      && ("source_account" !in d || d["source_account"].JStr?)
      && ("subreddits" !in d || AsStrings(d["subreddits"]).Some?)
      && ("multireddits" !in d || (d["multireddits"].JArr? && MultisFromJson(d["multireddits"].items).Ok?))
    ensures r.Ok? && "source_account" in d ==> d["source_account"] == JStr(r.value.username)
    ensures r.Ok? && "subreddits" in d ==> AsStrings(d["subreddits"]) == Some(r.value.subreddits)
    ensures r.Ok? && "multireddits" in d ==> MultisFromJson(d["multireddits"].items) == Ok(r.value.multireddits)
    ensures "source_account" in d && !d["source_account"].JStr? ==> r == Err(WrongShape("source_account"))
  {
    var user := if "source_account" in d then d["source_account"] else JStr("unknown");
    var subs := if "subreddits" in d then AsStrings(d["subreddits"]) else Some([]);
    var multis := if "multireddits" in d then d["multireddits"] else JArr([]);
    if !user.JStr? then Err(WrongShape("source_account"))
    else if subs.None? then Err(WrongShape("subreddits"))
    else if !multis.JArr? then Err(WrongShape("multireddits"))
    else match MultisFromJson(multis.items)
      case Err(e) => Err(e)
      case Ok(ms) => Ok(AccountData(user.str, subs.value, ms))
  }

  /** Loading an empty dict gives the defaults. */
  lemma AccountDefaults()
    ensures AccountFromDict(map[]) == Ok(AccountData("unknown", [], []))
  {
  }

  /** Loading reads only the three known keys. */
  lemma AccountIgnoresExtraKeys(d: JsonObject, extra: JsonObject)
    requires extra.Keys !! {"source_account", "subreddits", "multireddits"}
    ensures AccountFromDict(d + extra) == AccountFromDict(d)
  {
    var e := d + extra;
    assert forall k :: k in {"source_account", "subreddits", "multireddits"} ==> (k in e <==> k in d);
  }

  /**
   * Export followed by import gives the account back, also when the export
   * carries an "exported_at" timestamp.
   */
  lemma AccountRoundTrip(a: AccountData, exportedAt: string)
    ensures AccountFromDict(AccountToDict(a)) == Ok(a)
    ensures AccountFromDict(AccountToDict(a)["exported_at" := JStr(exportedAt)]) == Ok(a)
  {
    MultisRoundTrip(a.multireddits);
    AccountIgnoresExtraKeys(AccountToDict(a), map["exported_at" := JStr(exportedAt)]);
    assert AccountToDict(a)["exported_at" := JStr(exportedAt)] == AccountToDict(a) + map["exported_at" := JStr(exportedAt)];
  }

  /** An export holding a multireddit without a "name" cannot be loaded. */
  lemma MissingNameFailsLoad(m: JsonObject)
    requires "name" !in m
    ensures AccountFromDict(map["multireddits" := JArr([JObj(m)])]) == Err(MissingKey("name"))
  {
    assert [JObj(m)][0] == JObj(m);
  }

  // ---------------------------------------------------------------------------
  // SyncDiff

  /** `SyncDiff.to_dict` */
  function DiffToDict(diff: SyncDiff): (d: JsonObject)
    ensures d.Keys == {"subs_to_add", "subs_to_remove", "multis_to_add", "multis_to_remove", "multis_to_update"}
  {
    map[
      "subs_to_add" := Strings(diff.subsToAdd),
      "subs_to_remove" := Strings(diff.subsToRemove),
      "multis_to_add" := JArr(MultisToJson(diff.multisToAdd)),
      "multis_to_remove" := JArr(MultisToJson(diff.multisToRemove)),
      "multis_to_update" := JArr(UpdatesToJson(diff.multisToUpdate))]
  }

  /** The subreddit lists of a diff's dict form read back as the names they render. */
  lemma DiffToDictSubs(diff: SyncDiff)
    ensures AsStrings(DiffToDict(diff)["subs_to_add"]) == Some(diff.subsToAdd)
    ensures AsStrings(DiffToDict(diff)["subs_to_remove"]) == Some(diff.subsToRemove)
  {
    var d := DiffToDict(diff);
    assert d["subs_to_add"] == Strings(diff.subsToAdd);
    assert d["subs_to_remove"] == Strings(diff.subsToRemove);
  }

  /** The multireddit lists of a diff's dict form load back through `Multireddit.from_dict` as the lists they render. */
  lemma DiffToDictReadBack(diff: SyncDiff)
    ensures MultisFromJson(DiffToDict(diff)["multis_to_add"].items) == Ok(diff.multisToAdd)
    ensures MultisFromJson(DiffToDict(diff)["multis_to_remove"].items) == Ok(diff.multisToRemove)
  {
    var d := DiffToDict(diff);
    assert d["multis_to_add"] == JArr(MultisToJson(diff.multisToAdd));
    assert d["multis_to_remove"] == JArr(MultisToJson(diff.multisToRemove));
    MultisRoundTrip(diff.multisToAdd);
    MultisRoundTrip(diff.multisToRemove);
  }

  /**
   * Each list of a diff's dict form holds, at every position, the
   * `to_dict` of the multireddit or update at that position.
   */
  lemma DiffToDictEntries(diff: SyncDiff)
    ensures var js := DiffToDict(diff)["multis_to_add"].items;
      |js| == |diff.multisToAdd| && forall i :: 0 <= i < |js| ==> js[i] == JObj(MultiToDict(diff.multisToAdd[i]))
    ensures var js := DiffToDict(diff)["multis_to_remove"].items;
      |js| == |diff.multisToRemove| && forall i :: 0 <= i < |js| ==> js[i] == JObj(MultiToDict(diff.multisToRemove[i]))
    ensures var js := DiffToDict(diff)["multis_to_update"].items;
      |js| == |diff.multisToUpdate| && forall i :: 0 <= i < |js| ==> js[i] == JObj(UpdateToDict(diff.multisToUpdate[i]))
  {
    var d := DiffToDict(diff);
    assert d["multis_to_add"] == JArr(MultisToJson(diff.multisToAdd));
    assert d["multis_to_remove"] == JArr(MultisToJson(diff.multisToRemove));
    assert d["multis_to_update"] == JArr(UpdatesToJson(diff.multisToUpdate));
  }
}
