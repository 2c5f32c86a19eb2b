/** deleteZoneObject.py: deletes every object named in a file from the
    switch's defined configuration, skipping names it cannot find, then
    saves the configuration if the operator confirms. */
module DeleteZoneObject {
  import opened Wrappers
  import opened Text
  import opened Zoning
  import opened Fabric
  import opened ObjectResolver

  /** delObjects: every line of the file, stripped, in file order. */
  method ReadTargets(lines: seq<string>) returns (targets: seq<string>)
    ensures |targets| == |lines|
    ensures forall k :: 0 <= k < |lines| ==> targets[k] == Strip(lines[k])
  {
    targets := [];
    var i := 0;
    while i < |lines|
      invariant 0 <= i <= |lines|
      invariant |targets| == i
      invariant forall k :: 0 <= k < i ==> targets[k] == Strip(lines[k])
    {
      targets := targets + [Strip(lines[i])];
      i := i + 1;
    }
  }

  /** Nothing is dropped: a blank line becomes the target "" and a name
      listed twice is a target twice. */
  lemma BlankAndRepeatedLinesKept(lines: seq<string>, targets: seq<string>, k: nat, m: nat)
    requires |targets| == |lines| && forall j :: 0 <= j < |lines| ==> targets[j] == Strip(lines[j])
    requires k < m < |lines|
    ensures AllSpace(lines[k]) ==> targets[k] == ""
    ensures lines[k] == lines[m] ==> targets[k] == targets[m]
  {
  }

  /** The deletes the loop issues for targets: one per target that
      resolves, in target order. */
  ghost function Issued(t: Tables, targets: seq<string>): seq<FabricCall> {
    if targets == [] then []
    else
      var last := targets[|targets| - 1];
      Issued(t, targets[..|targets| - 1])
        + (if ResolveWith(t, last).Some? then [Delete(ResolveWith(t, last).value.uri)] else [])
  }

  /** The targets the loop reports as not found and passes over. */
  ghost function Skipped(t: Tables, targets: seq<string>): seq<string> {
    if targets == [] then []
    else
      var last := targets[|targets| - 1];
      Skipped(t, targets[..|targets| - 1]) + (if ResolveWith(t, last).None? then [last] else [])
  }

  /** The targets that resolve, in order. */
  ghost function Resolvable(t: Tables, targets: seq<string>): seq<string> {
    if targets == [] then []
    else
      var last := targets[|targets| - 1];
      Resolvable(t, targets[..|targets| - 1]) + (if ResolveWith(t, last).Some? then [last] else [])
  }

  /** The resources whose delete printed an error, the k-th delete being
      answered deleteStatus(k). */
  ghost function Reported(calls: seq<FabricCall>, deleteStatus: nat -> int): seq<string> {
    if calls == [] then []
    else
      var last := calls[|calls| - 1];
      Reported(calls[..|calls| - 1], deleteStatus)
        + (if last.Delete? && ObjectDeleteReported(deleteStatus(|calls| - 1)) then [last.uri] else [])
  }

  /** The confirmation gate: `len(answer) == 1 and answer in "Yy"`. */
  function Confirmed(answer: string): (ok: bool)
    ensures ok <==> answer == "Y" || answer == "y"
  {
    |answer| == 1 && answer[0] in "Yy"
  }

  /** Commit when the override is set (no question asked) or the answer
      confirms. */
  function Commit(overrideConfirm: bool, answer: string): (ok: bool)
    ensures ok <==> overrideConfirm || answer == "Y" || answer == "y"
  {
    overrideConfirm || Confirmed(answer)
  }

  datatype BatchRun = BatchRun(
    targets: seq<string>,
    calls: seq<FabricCall>,
    skipped: seq<string>,
    reported: seq<string>,
    saved: bool,
    saveReported: bool)

  /** main once the file's lines, the switch's two configurations and the
      operator's answer are in hand. deleteStatus(k) is the switch's answer
      to the k-th delete issued (a target listed twice is deleted twice and
      may be answered differently each time), saveStatus its answer to the
      save. */
  method DeleteObjects(defined: DefinedConfiguration, effective: EffectiveConfiguration, lines: seq<string>,
                       overrideConfirm: bool, answer: string, deleteStatus: nat -> int, saveStatus: int)
    returns (run: BatchRun)
    ensures |run.targets| == |lines| && forall k :: 0 <= k < |lines| ==> run.targets[k] == Strip(lines[k])
    ensures run.calls == [GetEffective, GetDefined] + Issued(TablesOf(defined), run.targets)
      + (if Commit(overrideConfirm, answer) then [Save(effective.checksum)] else [])
    ensures run.skipped == Skipped(TablesOf(defined), run.targets)
    ensures run.reported == Reported(Issued(TablesOf(defined), run.targets), deleteStatus)
    ensures run.saved == Commit(overrideConfirm, answer)
    ensures run.saveReported <==> run.saved && SaveReported(saveStatus)
  {
    var targets := ReadTargets(lines);
    var calls := [GetEffective, GetDefined];
    var checksumRead := effective.checksum;
    var tables := BuildTables(defined);
    var deletes, skipped, reported := DeleteEach(tables, targets, deleteStatus);
    calls := calls + deletes;
    var saved := false;
    var saveReported := false;
    if overrideConfirm || Confirmed(answer) {
      calls := calls + [Save(checksumRead)];
      saved := true;
      saveReported := SaveReported(saveStatus);
    }
    run := BatchRun(targets, calls, skipped, reported, saved, saveReported);
  }

  /** The loop over delObjects: resolve each target, report and skip it
      when no table has it, delete its resource otherwise. */
  method DeleteEach(tables: Tables, targets: seq<string>, deleteStatus: nat -> int)
    returns (deletes: seq<FabricCall>, skipped: seq<string>, reported: seq<string>)
    ensures deletes == Issued(tables, targets)
    ensures skipped == Skipped(tables, targets)
    ensures reported == Reported(deletes, deleteStatus)
  {
    deletes, skipped, reported := [], [], [];
    var i := 0;
    while i < |targets|
      invariant 0 <= i <= |targets|
      invariant deletes == Issued(tables, targets[..i])
      invariant skipped == Skipped(tables, targets[..i])
      invariant reported == Reported(deletes, deleteStatus)
    {
      var target := targets[i];
      TargetStep(tables, targets, i);
      var found := ResolveWith(tables, target);
      if found.None? {
        skipped := skipped + [target];
        i := i + 1;
        continue;
      }
      ReportedStep(deletes, Delete(found.value.uri), deleteStatus);
      var result := deleteStatus(|deletes|);
      deletes := deletes + [Delete(found.value.uri)];
      if ObjectDeleteReported(result) {
        reported := reported + [found.value.uri];
      }
      i := i + 1;
    }
    assert targets[..i] == targets;
  }

  lemma TargetStep(t: Tables, targets: seq<string>, i: nat)
    requires i < |targets|
    ensures Issued(t, targets[..i + 1]) == Issued(t, targets[..i])
      + (if ResolveWith(t, targets[i]).Some? then [Delete(ResolveWith(t, targets[i]).value.uri)] else [])
    ensures Skipped(t, targets[..i + 1]) == Skipped(t, targets[..i]) + (if ResolveWith(t, targets[i]).None? then [targets[i]] else [])
  {
    assert targets[..i + 1][..i] == targets[..i];
  }

  lemma ReportedStep(calls: seq<FabricCall>, c: FabricCall, deleteStatus: nat -> int)
    ensures Reported(calls + [c], deleteStatus) == Reported(calls, deleteStatus)
      + (if c.Delete? && ObjectDeleteReported(deleteStatus(|calls|)) then [c.uri] else [])
  {
    var s := calls + [c];
    assert s != [] && |s| - 1 == |calls|;
    assert s[..|s| - 1] == calls && s[|s| - 1] == c;
  }

  /** A resource is reported exactly when one of its deletes was answered
      with neither 204 nor 400. */
  lemma {:induction false} ReportedSpec(calls: seq<FabricCall>, deleteStatus: nat -> int, u: string)
    ensures u in Reported(calls, deleteStatus) <==>
      exists k :: 0 <= k < |calls| && calls[k] == Delete(u) && ObjectDeleteReported(deleteStatus(k))
    decreases |calls|
  {
    if calls != [] {
      var p := calls[..|calls| - 1];
      ReportedSpec(p, deleteStatus, u);
      if exists k :: 0 <= k < |p| && p[k] == Delete(u) && ObjectDeleteReported(deleteStatus(k)) {
        var k :| 0 <= k < |p| && p[k] == Delete(u) && ObjectDeleteReported(deleteStatus(k));
        assert calls[k] == p[k];
      }
      if k :| 0 <= k < |calls| && calls[k] == Delete(u) && ObjectDeleteReported(deleteStatus(k)) {
        if k < |p| {
          assert p[k] == calls[k];
        }
      }
    }
  }

  /** The answers are per delete, not per resource: a target listed twice
      can have its first delete accepted and its second refused, and is
      then reported once, for the second delete. */
  lemma RepeatedTargetAnsweredTwice(u: string, answers: nat -> int)
    requires !ObjectDeleteReported(answers(0)) && ObjectDeleteReported(answers(1))
    ensures Reported([Delete(u), Delete(u)], answers) == [u]
  {
    ReportedStep([], Delete(u), answers);
    ReportedStep([Delete(u)], Delete(u), answers);
    assert [] + [Delete(u)] == [Delete(u)];
    assert [Delete(u)] + [Delete(u)] == [Delete(u), Delete(u)];
  }

  /** Each resolving target gets exactly one delete, in target order, of
      the resource of its kind; every target either resolves or is
      skipped, so the deletes and the skipped names together account for
      the whole list. */
  lemma {:induction false} DeletesFollowTargets(t: Tables, targets: seq<string>)
    ensures |Issued(t, targets)| == |Resolvable(t, targets)|
    ensures forall k :: 0 <= k < |Issued(t, targets)| ==>
      ResolveWith(t, Resolvable(t, targets)[k]).Some?
      && Issued(t, targets)[k] == Delete(Uri(ResolveWith(t, Resolvable(t, targets)[k]).value.kind, Resolvable(t, targets)[k]))
    ensures |Resolvable(t, targets)| + |Skipped(t, targets)| == |targets|
    ensures forall s :: s in Skipped(t, targets) <==> s in targets && ResolveWith(t, s).None?
    decreases |targets|
  {
    if targets != [] {
      var p := targets[..|targets| - 1];
      DeletesFollowTargets(t, p);
      assert targets == p + [targets[|targets| - 1]];
    }
  }

  /** A skipped name is the name of no delete issued. */
  lemma SkippedNeverDeleted(t: Tables, targets: seq<string>, s: string, k: nat)
    requires s in Skipped(t, targets) && k < |Issued(t, targets)|
    ensures Issued(t, targets)[k].Delete?
    ensures ParseUri(Issued(t, targets)[k].uri).Some? && ParseUri(Issued(t, targets)[k].uri).value.name != s
  {
    DeletesFollowTargets(t, targets);
    var r := Resolvable(t, targets)[k];
    UriRoundTrip(ResolveWith(t, r).value.kind, r);
  }

  /** The checksum sent with the save is the one read before the first
      delete: the effective configuration is read once, first, and the
      save, when there is one, is the last call. */
  lemma {:induction false} ChecksumReadBeforeDeletes(t: Tables, targets: seq<string>, checksum: string, commit: bool)
    ensures var calls := [GetEffective, GetDefined] + Issued(t, targets) + (if commit then [Save(checksum)] else []);
      && (forall k :: 0 <= k < |calls| && calls[k] == GetEffective ==> k == 0)
      && (forall k :: 0 <= k < |calls| && calls[k].Save? ==> commit && k == |calls| - 1 && calls[k].checksum == checksum)
      && (commit ==> calls[|calls| - 1] == Save(checksum))
  {
    DeletesFollowTargets(t, targets);
  }
}
