/** The lookup putBack.py and deleteZoneObject.py share: one table per kind
    of object, filled from the defined configuration, and a name resolved
    to the first table that has it, alias before zone before cfg. */
module ObjectResolver {
  import opened Wrappers
  import opened Zoning
  import opened Fabric

  /** One record of a defined-configuration array: its name and the
      snapshot a table keeps of it. */
  datatype Record = Record(name: string, payload: Payload)

  /** `aliasDict[alias-name] = {'member-entry': ...}`. */
  function AliasRecords(aliases: seq<Alias>): seq<Record> {
    seq(|aliases|, k requires 0 <= k < |aliases| => Record(aliases[k].name, AliasPayload(aliases[k].members)))
  }

  /** `zoneDict[zone-name] = {'member-entry': ..., 'zone-type': ...}`. */
  function ZoneRecords(zones: seq<Zone>): seq<Record> {
    seq(|zones|, k requires 0 <= k < |zones| => Record(zones[k].name, ZonePayload(zones[k].members, zones[k].zoneType)))
  }

  /** `cfgDict[cfg-name] = {'member-zone': ...}`. */
  function CfgRecords(cfgs: seq<Cfg>): seq<Record> {
    seq(|cfgs|, k requires 0 <= k < |cfgs| => Record(cfgs[k].name, CfgPayload(cfgs[k].memberZones)))
  }

  function RecordNames(rs: seq<Record>): (r: seq<string>)
    ensures |r| == |rs| && forall k :: 0 <= k < |rs| ==> r[k] == rs[k].name
  {
    seq(|rs|, k requires 0 <= k < |rs| => rs[k].name)
  }

  /** A table as the loop leaves it: a key per name, holding the snapshot
      of the last record of that name. */
  ghost function Snapshots(rs: seq<Record>): map<string, Payload> {
    map n | n in RecordNames(rs) :: rs[LastIndex(RecordNames(rs), n).value].payload
  }

  lemma SnapshotsStep(rs: seq<Record>, i: nat)
    requires i < |rs|
    ensures Snapshots(rs[..i + 1]) == Snapshots(rs[..i])[rs[i].name := rs[i].payload]
  {
    var p := rs[..i];
    var q := rs[..i + 1];
    assert RecordNames(q) == RecordNames(p) + [rs[i].name];
    forall n | n in RecordNames(q) ensures Snapshots(q)[n] == Snapshots(p)[rs[i].name := rs[i].payload][n] {
      LastIndexStep(RecordNames(q), i, n);
      assert RecordNames(q)[..i] == RecordNames(p) && RecordNames(q)[..i + 1] == RecordNames(q);
      if n != rs[i].name {
        assert q[LastIndex(RecordNames(p), n).value] == p[LastIndex(RecordNames(p), n).value];
      }
    }
  }

  /** The table-filling loop of each array. */
  method BuildTable(rs: seq<Record>) returns (d: map<string, Payload>)
    ensures d == Snapshots(rs)
  {
    d := map[];
    var i := 0;
    while i < |rs|
      invariant 0 <= i <= |rs|
      invariant d == Snapshots(rs[..i])
    {
      SnapshotsStep(rs, i);
      d := d[rs[i].name := rs[i].payload];
      i := i + 1;
    }
    assert rs[..i] == rs;
  }

  /** Every name of the array has a key, and its snapshot is the last
      record's of that name. */
  lemma SnapshotsSpec(rs: seq<Record>, n: string)
    ensures n in Snapshots(rs) <==> exists k :: 0 <= k < |rs| && rs[k].name == n
    ensures n in Snapshots(rs) ==> exists k :: (0 <= k < |rs| && rs[k].name == n
      && Snapshots(rs)[n] == rs[k].payload && forall m :: k < m < |rs| ==> rs[m].name != n)
  {
    if exists k :: 0 <= k < |rs| && rs[k].name == n {
      var k :| 0 <= k < |rs| && rs[k].name == n;
      assert RecordNames(rs)[k] == n;
    }
  }

  datatype Resolved = Resolved(kind: Namespace, uri: string, payload: Payload)

  /** The if/elif chain: alias first, then zone, then cfg; None when no
      table has the name. */
  function Resolve(aliasDict: map<string, Payload>, zoneDict: map<string, Payload>, cfgDict: map<string, Payload>, target: string): (r: Option<Resolved>)
    ensures r.Some? ==> r.value.uri == Uri(r.value.kind, target)
  {
    if target in aliasDict then Some(Resolved(AliasSpace, Uri(AliasSpace, target), aliasDict[target]))
    else if target in zoneDict then Some(Resolved(ZoneSpace, Uri(ZoneSpace, target), zoneDict[target]))
    else if target in cfgDict then Some(Resolved(CfgSpace, Uri(CfgSpace, target), cfgDict[target]))
    else None
  }

  /** The three tables of a defined configuration. */
  datatype Tables = Tables(aliasDict: map<string, Payload>, zoneDict: map<string, Payload>, cfgDict: map<string, Payload>)

  ghost function TablesOf(defined: DefinedConfiguration): Tables {
    Tables(Snapshots(AliasRecords(defined.aliases)), Snapshots(ZoneRecords(defined.zones)), Snapshots(CfgRecords(defined.cfgs)))
  }

  function ResolveWith(t: Tables, target: string): Option<Resolved> {
    Resolve(t.aliasDict, t.zoneDict, t.cfgDict, target)
  }

  /** The three table-filling loops of main. */
  method BuildTables(defined: DefinedConfiguration) returns (t: Tables)
    ensures t == TablesOf(defined)
  {
    var aliasDict := BuildTable(AliasRecords(defined.aliases));
    var zoneDict := BuildTable(ZoneRecords(defined.zones));
    var cfgDict := BuildTable(CfgRecords(defined.cfgs));
    t := Tables(aliasDict, zoneDict, cfgDict);
  }

  /** Resolution against the records themselves: the name resolves to an
      alias whenever an alias record has it, to a zone only when no alias
      does, to a cfg only when neither does, and to nothing when no record
      of any kind has it. The resource reads back as the kind and the
      name. */
  lemma ResolveSpec(defined: DefinedConfiguration, target: string)
    ensures var r := ResolveWith(TablesOf(defined), target);
      && (r.None? <==> target !in AliasNames(defined.aliases) && target !in ZoneNames(defined.zones) && target !in CfgNames(defined.cfgs))
      && (r.Some? ==> ParseUri(r.value.uri) == Some(Located(r.value.kind, target)))
      && (r.Some? && r.value.kind == AliasSpace <==> target in AliasNames(defined.aliases))
      && (r.Some? && r.value.kind == ZoneSpace <==> target !in AliasNames(defined.aliases) && target in ZoneNames(defined.zones))
      && (r.Some? && r.value.kind == CfgSpace <==>
            target !in AliasNames(defined.aliases) && target !in ZoneNames(defined.zones) && target in CfgNames(defined.cfgs))
  {
    TableNames(defined);
    var r := ResolveWith(TablesOf(defined), target);
    if r.Some? {
      UriRoundTrip(r.value.kind, target);
    }
  }

  /** The record names of each array are the names of its objects. */
  lemma TableNames(defined: DefinedConfiguration)
    ensures RecordNames(AliasRecords(defined.aliases)) == AliasNames(defined.aliases)
    ensures RecordNames(ZoneRecords(defined.zones)) == ZoneNames(defined.zones)
    ensures RecordNames(CfgRecords(defined.cfgs)) == CfgNames(defined.cfgs)
  {
  }

  /** The snapshot a name resolves to is that of the last record of its
      kind with that name. */
  lemma ResolvedPayload(defined: DefinedConfiguration, target: string)
    ensures var r := ResolveWith(TablesOf(defined), target);
      var l := LastIndex(AliasNames(defined.aliases), target);
      r.Some? && r.value.kind == AliasSpace ==>
        l.Some? && l.value < |defined.aliases| && r.value.payload == AliasPayload(defined.aliases[l.value].members)
    ensures var r := ResolveWith(TablesOf(defined), target);
      var l := LastIndex(ZoneNames(defined.zones), target);
      r.Some? && r.value.kind == ZoneSpace ==>
        l.Some? && l.value < |defined.zones|
        && r.value.payload == ZonePayload(defined.zones[l.value].members, defined.zones[l.value].zoneType)
    ensures var r := ResolveWith(TablesOf(defined), target);
      var l := LastIndex(CfgNames(defined.cfgs), target);
      r.Some? && r.value.kind == CfgSpace ==>
        l.Some? && l.value < |defined.cfgs| && r.value.payload == CfgPayload(defined.cfgs[l.value].memberZones)
  {
    TableNames(defined);
  }
}
