/** putBack.py: restores one object from a saved defined configuration by
    deleting it on the switch, creating it again from the saved snapshot
    and saving the configuration. */
module PutBack {
  import opened Wrappers
  import opened Zoning
  import opened Fabric
  import opened ObjectResolver

  /** How a restore ends. */
  datatype RestoreRun =
      /** The name is in no table: message and exit 3, nothing sent. */
    | NotFound
      /** The calls made, and which of them printed an error. */
    | Restored(calls: seq<FabricCall>, deleteReported: bool, createReported: bool, saveReported: bool)

  /** `exit(3)` for a name in no table; a restore ends normally. */
  function ExitCode(run: RestoreRun): int {
    if run.NotFound? then 3 else 0
  }

  /** main after the saved configuration is loaded: build the tables,
      resolve the target, then read the effective configuration, delete,
      create and save with the checksum read first. The switch's answers
      are the three status codes. */
  method RestoreObject(defined: DefinedConfiguration, target: string, effective: EffectiveConfiguration,
                       deleteStatus: int, createStatus: int, saveStatus: int) returns (run: RestoreRun)
    ensures run.NotFound? <==>
      target !in AliasNames(defined.aliases) && target !in ZoneNames(defined.zones) && target !in CfgNames(defined.cfgs)
    ensures ExitCode(run) == if target in AliasNames(defined.aliases) || target in ZoneNames(defined.zones)
      || target in CfgNames(defined.cfgs) then 0 else 3
    ensures run.Restored? ==> ResolveWith(TablesOf(defined), target).Some?
    ensures run.Restored? ==> (var res := ResolveWith(TablesOf(defined), target).value;
      && run.calls == [GetEffective, Delete(res.uri), Create(res.uri, res.payload), Save(effective.checksum)]
      && ParseUri(res.uri) == Some(Located(res.kind, target)))
    ensures run.Restored? ==> (run.deleteReported == ObjectDeleteReported(deleteStatus)
      && run.createReported == CreateReported(createStatus)
      && run.saveReported == SaveReported(saveStatus))
  {
    var tables := BuildTables(defined);
    ResolveSpec(defined, target);
    var found := ResolveWith(tables, target);
    if found.None? {
      return NotFound;
    }
    var uri := found.value.uri;
    var calls := [GetEffective];
    var checksum := effective.checksum;
    calls := calls + [Delete(uri)];
    var deleteReported := ObjectDeleteReported(deleteStatus);
    calls := calls + [Create(uri, found.value.payload)];
    var createReported := CreateReported(createStatus);
    calls := calls + [Save(checksum)];
    run := Restored(calls, deleteReported, createReported, SaveReported(saveStatus));
  }
}
