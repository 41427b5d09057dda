/** Snapshot management: the request bodies sent to the engine's snapshot
    API, the automatic snapshot names, the filter on registration errors
    and the choices of the interactive menu. The engine itself is not part
    of this model; a call is described by the request it would send. */
module SetupSnapshots {
  import opened Optional
  import opened Text
  import opened Decimal
  import opened Json

  // ------------------------------------------------------------ the clock

  /** A reading of the wall clock, as `datetime.now()` gives it. */
  datatype DateTime = DateTime(year: nat, month: nat, day: nat, hour: nat, minute: nat, second: nat)

  predicate ValidDateTime(t: DateTime) {
    1 <= t.year <= 9999 && 1 <= t.month <= 12 && 1 <= t.day <= 31
    && t.hour < 24 && t.minute < 60 && t.second < 60
  }

  /** `t.strftime('%Y%m%d_%H%M%S')` */
  function Stamp(t: DateTime): string {
    (ZeroPad(t.year, 4) + ZeroPad(t.month, 2) + ZeroPad(t.day, 2)) + "_"
    + (ZeroPad(t.hour, 2) + ZeroPad(t.minute, 2) + ZeroPad(t.second, 2))
  }

  /** Reads a `%Y%m%d_%H%M%S` stamp back; `None` for anything else. */
  function ParseStamp(s: string): Option<DateTime> {
    if |s| == 15 && AllDigits(s[..8]) && s[8] == '_' && AllDigits(s[9..]) then
      var date, time := s[..8], s[9..];
      Some(DateTime(Value(date[..4]), Value(date[4..6]), Value(date[6..]),
                    Value(time[..2]), Value(time[2..4]), Value(time[4..])))
    else None
  }

  /** The three parts of a concatenation are its slices. */
  lemma Slices3(a: string, b: string, c: string)
    ensures var s := a + b + c;
      s[..|a|] == a && s[|a|..|a| + |b|] == b && s[|a| + |b|..] == c
  {
  }

  lemma DigitsSlices3(a: string, b: string, c: string)
    requires AllDigits(a) && AllDigits(b) && AllDigits(c)
    ensures AllDigits(a + b + c)
  {
  }

  lemma PaddedField(n: nat, w: nat)
    requires 1 <= w && n < Pow10(w)
    ensures |ZeroPad(n, w)| == w && AllDigits(ZeroPad(n, w)) && Value(ZeroPad(n, w)) == n
  {
    ZeroPadWidth(n, w);
    ZeroPadValue(n, w);
  }

  /** A date of eight digits and a time of six, glued with `_`, parse
      back as their fields. */
  lemma ParseDateTime(date: string, time: string)
    requires |date| == 8 && |time| == 6 && AllDigits(date) && AllDigits(time)
    ensures var s := date + "_" + time;
      |s| == 15 && s[8] == '_' &&
      ParseStamp(s) == Some(DateTime(Value(date[..4]), Value(date[4..6]), Value(date[6..]),
                                     Value(time[..2]), Value(time[2..4]), Value(time[4..])))
  {
    var s := date + "_" + time;
    assert s[..8] == date && s[9..] == time;
  }

  /** Six digit fields of the stamp's widths, glued with `_` after the
      third, parse back field by field. */
  lemma ParseFields(y: string, mo: string, d: string, h: string, mi: string, se: string)
    requires |y| == 4 && |mo| == 2 && |d| == 2 && |h| == 2 && |mi| == 2 && |se| == 2
    requires AllDigits(y) && AllDigits(mo) && AllDigits(d) && AllDigits(h) && AllDigits(mi) && AllDigits(se)
    ensures var s := (y + mo + d) + "_" + (h + mi + se);
      |s| == 15 && s[8] == '_' &&
      ParseStamp(s) == Some(DateTime(Value(y), Value(mo), Value(d), Value(h), Value(mi), Value(se)))
  {
    var date, time := y + mo + d, h + mi + se;
    Slices3(y, mo, d);
    Slices3(h, mi, se);
    DigitsSlices3(y, mo, d);
    DigitsSlices3(h, mi, se);
    ParseDateTime(date, time);
  }

  /** The stamp has 15 characters, zero-padded fields and `_` between the
      date and the time, and it reads back as the clock reading it came
      from. */
  lemma StampRoundTrip(t: DateTime)
    requires ValidDateTime(t)
    ensures |Stamp(t)| == 15 && Stamp(t)[8] == '_'
    ensures ParseStamp(Stamp(t)) == Some(t)
  {
    assert Pow10(2) == 100 && Pow10(4) == 10000;
    PaddedField(t.year, 4);
    PaddedField(t.month, 2);
    PaddedField(t.day, 2);
    PaddedField(t.hour, 2);
    PaddedField(t.minute, 2);
    PaddedField(t.second, 2);
    ParseFields(ZeroPad(t.year, 4), ZeroPad(t.month, 2), ZeroPad(t.day, 2),
                ZeroPad(t.hour, 2), ZeroPad(t.minute, 2), ZeroPad(t.second, 2));
  }

  /** Two different clock readings never give the same stamp. */
  lemma StampInjective(t1: DateTime, t2: DateTime)
    requires ValidDateTime(t1) && ValidDateTime(t2) && Stamp(t1) == Stamp(t2)
    ensures t1 == t2
  {
    StampRoundTrip(t1);
    StampRoundTrip(t2);
  }

  // ---------------------------------------------------- requests sent out

  datatype SnapshotCall =
    | CreateRepository(name: string, body: map<string, Json>)
    | CreateSnapshot(repository: string, snapshot: string, body: map<string, Json>, waitForCompletion: bool)
    | RestoreSnapshot(repository: string, snapshot: string, body: map<string, Json>, waitForCompletion: bool)

  /** `register_snapshot_repository(client, repo_name, repo_path)`: a
      shared-filesystem repository at the given path, compressed. */
  function RegisterRepository(repoName: string, repoPath: string): (c: SnapshotCall)
    ensures c.CreateRepository? && c.name == repoName
    ensures c.body.Keys == {"type", "settings"} && c.body["type"] == JString("fs")
    ensures c.body["settings"] == JObject(map["location" := JString(repoPath), "compress" := JBool(true)])
  {
    CreateRepository(repoName, map[
      "type" := JString("fs"),
      "settings" := JObject(map["location" := JString(repoPath), "compress" := JBool(true)])])
  }

  /** Python's truth value of an optional list argument. */
  predicate NonEmpty(indices: Option<seq<string>>) {
    indices.Some? && indices.value != []
  }

  /** `body = {}; if indices: body["indices"] = ",".join(indices)` */
  function IndicesBody(indices: Option<seq<string>>): map<string, Json> {
    if NonEmpty(indices) then map["indices" := JString(Join(indices.value, ","))] else map[]
  }

  /** `"snapshot_"` and the stamp when no name is given; a given name,
      even an empty one, unchanged. */
  function SnapshotName(snapshotName: Option<string>, now: DateTime): string {
    if snapshotName.None? then "snapshot_" + Stamp(now) else snapshotName.value
  }

  /** `create_snapshot(client, repo_name, snapshot_name, indices, wait_for_completion)`
      with `now` the clock reading. */
  function CreateSnapshotCall(repoName: string, snapshotName: Option<string>, indices: Option<seq<string>>,
                              waitForCompletion: bool, now: DateTime): SnapshotCall {
    CreateSnapshot(repoName, SnapshotName(snapshotName, now), IndicesBody(indices), waitForCompletion)
  }

  /** `restore_snapshot(client, repo_name, snapshot_name, indices,
      rename_pattern, rename_replacement, wait_for_completion)` */
  function RestoreSnapshotCall(repoName: string, snapshotName: string, indices: Option<seq<string>>,
                               renamePattern: Option<string>, renameReplacement: Option<string>,
                               waitForCompletion: bool): SnapshotCall {
    var body := IndicesBody(indices);
    var renames := renamePattern.Some? && renamePattern.value != []
                   && renameReplacement.Some? && renameReplacement.value != [];
    RestoreSnapshot(repoName, snapshotName,
      if renames then body["rename_pattern" := JString(renamePattern.value)]
                          ["rename_replacement" := JString(renameReplacement.value)]
      else body,
      waitForCompletion)
  }

  /** An unnamed snapshot is called `snapshot_` and a 15-character stamp
      that reads back as the clock reading; a named one keeps its name.
      The body has the key `indices` exactly when the list is non-empty,
      and then the list can be read back from it as long as no index name
      holds a comma. The wait flag is passed through. */
  lemma CreateSnapshotSpec(repoName: string, snapshotName: Option<string>, indices: Option<seq<string>>,
                           waitForCompletion: bool, now: DateTime)
    requires ValidDateTime(now)
    ensures var c := CreateSnapshotCall(repoName, snapshotName, indices, waitForCompletion, now);
      && c.CreateSnapshot? && c.repository == repoName && c.waitForCompletion == waitForCompletion
      && (snapshotName.Some? ==> c.snapshot == snapshotName.value)
      && (snapshotName.None? ==> |c.snapshot| == 24 && c.snapshot[..9] == "snapshot_"
                                 && ParseStamp(c.snapshot[9..]) == Some(now))
      && c.body.Keys <= {"indices"}
      && ("indices" in c.body <==> indices.Some? && |indices.value| > 0)
      && ("indices" in c.body ==> c.body["indices"].JString?)
      && (("indices" in c.body && forall k :: 0 <= k < |indices.value| ==> ',' !in indices.value[k]) ==>
            SplitOn(c.body["indices"].s, ',') == indices.value)
  {
    StampRoundTrip(now);
    if snapshotName.None? {
      var name := "snapshot_" + Stamp(now);
      assert name[..9] == "snapshot_" && name[9..] == Stamp(now);
    }
    if NonEmpty(indices) && forall k :: 0 <= k < |indices.value| ==> ',' !in indices.value[k] {
      SplitOnJoin(indices.value, ',');
    }
  }

  /** The restore body follows the same `indices` rule, and carries the
      two rename keys together or not at all: both exactly when pattern
      and replacement are both non-empty. */
  lemma RestoreSnapshotSpec(repoName: string, snapshotName: string, indices: Option<seq<string>>,
                            renamePattern: Option<string>, renameReplacement: Option<string>,
                            waitForCompletion: bool)
    ensures var c := RestoreSnapshotCall(repoName, snapshotName, indices, renamePattern, renameReplacement, waitForCompletion);
      && c.RestoreSnapshot? && c.repository == repoName && c.snapshot == snapshotName
      && c.waitForCompletion == waitForCompletion
      && c.body.Keys <= {"indices", "rename_pattern", "rename_replacement"}
      && ("indices" in c.body <==> indices.Some? && |indices.value| > 0)
      && ("indices" in c.body ==> c.body["indices"] == JString(Join(indices.value, ",")))
      && ("rename_pattern" in c.body <==> "rename_replacement" in c.body)
      && ("rename_pattern" in c.body <==>
            renamePattern.Some? && |renamePattern.value| > 0 && renameReplacement.Some? && |renameReplacement.value| > 0)
      && ("rename_pattern" in c.body ==>
            c.body["rename_pattern"] == JString(renamePattern.value)
            && c.body["rename_replacement"] == JString(renameReplacement.value))
  {
  }

  // ------------------------------------------------- registration errors

  const AlreadyExists := "repository_already_exists"

  /** What the demo does after trying to register the repository. */
  datatype Flow = Continue | Reraise

  /** `'repository_already_exists' in str(e).lower()` */
  predicate AlreadyExistsError(message: string) {
    Contains(Lower(message), AlreadyExists)
  }

  /** `error` is the message of the exception raised, if any. */
  function AfterRegistration(error: Option<string>): Flow {
    if error.Some? && !AlreadyExistsError(error.value) then Reraise else Continue
  }

  /** An error is swallowed exactly when its message mentions that the
      repository already exists, in any mix of upper and lower case; every
      other error is raised again, and success goes on. */
  lemma AfterRegistrationSpec(message: string, spelled: string, i: int)
    requires OccursAt(message, spelled, i) && Lower(spelled) == AlreadyExists
    ensures AfterRegistration(Some(message)) == Continue
    ensures AfterRegistration(None) == Continue
  {
    LowerKeepsOccurrence(message, spelled, i);
    ContainsAt(Lower(message), AlreadyExists);
  }

  lemma OtherErrorsReraised(message: string)
    requires forall i :: !OccursAt(Lower(message), AlreadyExists, i)
    ensures AfterRegistration(Some(message)) == Reraise
  {
    ContainsAt(Lower(message), AlreadyExists);
  }

  // ------------------------------------------------------------ the demo

  /** The demo's snapshot: named `demo_snapshot_` and the stamp, holding
      the configured index, waited for. */
  function DemoSnapshotCall(repoName: string, indexName: string, now: DateTime): (c: SnapshotCall)
    requires ValidDateTime(now)
    ensures c.CreateSnapshot? && c.repository == repoName && c.waitForCompletion
    ensures |c.snapshot| == 29 && c.snapshot[..14] == "demo_snapshot_" && ParseStamp(c.snapshot[14..]) == Some(now)
    ensures c.body == map["indices" := JString(indexName)]
  {
    StampRoundTrip(now);
    var name := "demo_snapshot_" + Stamp(now);
    assert name[..14] == "demo_snapshot_" && name[14..] == Stamp(now);
    CreateSnapshotCall(repoName, Some(name), Some([indexName]), true, now)
  }

  // ------------------------------------------------------------ the menu

  datatype MenuEntry = Register | Create | ListSnapshots | Restore | Demo | Exit | Invalid

  /** The menu choice typed; only the exact digits 1 to 6 select. */
  function MenuChoice(typed: string): (e: MenuEntry)
    ensures e == Invalid <==> typed !in {"1", "2", "3", "4", "5", "6"}
  {
    if typed == "1" then Register
    else if typed == "2" then Create
    else if typed == "3" then ListSnapshots
    else if typed == "4" then Restore
    else if typed == "5" then Demo
    else if typed == "6" then Exit
    else Invalid
  }

  /** Choice 2: the typed name, stripped; nothing left means automatic. */
  function MenuCreate(repoName: string, indexName: string, typed: string, now: DateTime): SnapshotCall {
    var name := Strip(typed);
    CreateSnapshotCall(repoName, if name == [] then None else Some(name), Some([indexName]), true, now)
  }

  /** Choice 4, once the listing has said whether any snapshot exists:
      restore the typed snapshot to `<index>_restored`. */
  function MenuRestore(repoName: string, indexName: string, snapshotsFound: bool, typed: string): Option<SnapshotCall> {
    var name := Strip(typed);
    if snapshotsFound && name != [] then
      Some(RestoreSnapshotCall(repoName, name, Some([indexName]), Some(indexName), Some(indexName + "_restored"), true))
    else None
  }

  /** A name that strips to nothing gives an automatic name; any other is
      used stripped, so it neither starts nor ends with white space. */
  lemma MenuCreateSpec(repoName: string, indexName: string, typed: string, now: DateTime)
    requires ValidDateTime(now)
    ensures var c := MenuCreate(repoName, indexName, typed, now);
      && c.CreateSnapshot? && c.waitForCompletion && c.body == map["indices" := JString(indexName)]
      && (Strip(typed) == [] ==> c.snapshot[..9] == "snapshot_" && ParseStamp(c.snapshot[9..]) == Some(now))
      && (Strip(typed) != [] ==>
            c.snapshot == Strip(typed) && !IsSpace(c.snapshot[0]) && !IsSpace(c.snapshot[|c.snapshot| - 1]))
  {
    CreateSnapshotSpec(repoName, if Strip(typed) == [] then None else Some(Strip(typed)), Some([indexName]), true, now);
    StripEnds(typed);
  }

  /** A restore is sent only when snapshots exist and a name was typed.
      It restores the configured index; the rename keys are present
      whenever the index name is non-empty, and then the restored index
      is named differently from the original. */
  lemma MenuRestoreSpec(repoName: string, indexName: string, snapshotsFound: bool, typed: string)
    ensures var r := MenuRestore(repoName, indexName, snapshotsFound, typed);
      && (r.Some? <==> snapshotsFound && Strip(typed) != [])
      && (r.Some? ==>
            && r.value.RestoreSnapshot? && r.value.snapshot == Strip(typed) && r.value.waitForCompletion
            && r.value.body["indices"] == JString(indexName)
            && ("rename_pattern" in r.value.body <==> indexName != [])
            && (indexName != [] ==>
                  && r.value.body["rename_pattern"] == JString(indexName)
                  && r.value.body["rename_replacement"] == JString(indexName + "_restored")
                  && indexName + "_restored" != indexName))
  {
    if snapshotsFound && Strip(typed) != [] {
      RestoreSnapshotSpec(repoName, Strip(typed), Some([indexName]), Some(indexName), Some(indexName + "_restored"), true);
      assert |indexName + "_restored"| > |indexName|;
    }
  }
}
