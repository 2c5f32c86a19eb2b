/** dryrun.py: deletes, without checks and without saving, the alias of
    every WWN in one file and every zone in another. */
module DryRun {
  import opened Wrappers
  import opened Sorted
  import opened Zoning
  import opened Fabric
  import opened AliasIndex
  import opened WwnsToAliases

  /** getSetFromFile: the set of the stripped lines, blank ones skipped. */
  method GetSetFromFile(lines: seq<string>) returns (fileSet: set<string>)
    ensures fileSet == NonBlankLines(lines)
  {
    fileSet := {};
    var i := 0;
    while i < |lines|
      invariant 0 <= i <= |lines|
      invariant fileSet == NonBlankLines(lines[..i])
    {
      assert lines[..i + 1] == lines[..i] + [lines[i]];
      var entry := Text.Strip(lines[i]);
      if |entry| > 0 {
        fileSet := fileSet + {entry};
      }
      i := i + 1;
    }
    assert lines[..i] == lines;
  }

  /** The delete issued for WWN x: the resource of the first alias, in
      alias-table order, that lists x. */
  ghost function AliasDeleteFor(t: Dict<seq<string>>, x: string): (c: FabricCall)
    requires t.Valid() && x in WwnTable(t)
    ensures exists a :: FirstAliasOf(t, x, a) && c == Delete(Uri(AliasSpace, a))
  {
    WwnTableFirstAlias(t, x);
    Delete(Uri(AliasSpace, WwnTable(t)[x][0]))
  }

  /** The first alias listing x is unique, so the delete for x is the
      delete of that alias. */
  lemma AliasDeleteIsFirstAlias(t: Dict<seq<string>>, x: string, a: string)
    requires t.Valid() && x in WwnTable(t) && FirstAliasOf(t, x, a)
    ensures AliasDeleteFor(t, x) == Delete(Uri(AliasSpace, a))
  {
    var b :| FirstAliasOf(t, x, b) && AliasDeleteFor(t, x) == Delete(Uri(AliasSpace, b));
    FirstAliasUnique(t, x, a, b);
  }

  /** Two WWNs whose first alias is the same alias both delete it: the
      second delete is of an alias already gone. */
  lemma SharedFirstAliasDeletedTwice(t: Dict<seq<string>>, x: string, y: string, a: string)
    requires t.Valid() && x in WwnTable(t) && y in WwnTable(t)
    requires FirstAliasOf(t, x, a) && FirstAliasOf(t, y, a)
    ensures AliasDeleteFor(t, x) == AliasDeleteFor(t, y) == Delete(Uri(AliasSpace, a))
  {
    AliasDeleteIsFirstAlias(t, x, a);
    AliasDeleteIsFirstAlias(t, y, a);
  }

  /** How a dry run ends: the calls made, and whether a WWN that no alias
      lists stopped it (the lookup raises). */
  datatype DryRunResult = DryRunResult(calls: seq<FabricCall>, failed: bool)

  /** main once the two files are read and the switch's configurations
      fetched. Sets are visited in an order the program does not fix; the
      ghost results name the order this run used. */
  method PlanDeletions(defined: DefinedConfiguration, zoneLines: seq<string>, wwnLines: seq<string>)
    returns (run: DryRunResult, ghost wwnOrder: seq<string>, ghost zoneOrder: seq<string>)
    ensures var t := AliasTable(defined.aliases);
      run.failed <==> exists x :: x in NonBlankLines(wwnLines) && x !in WwnTable(t)
    ensures Distinct(wwnOrder) && forall x :: x in wwnOrder ==> x in NonBlankLines(wwnLines) && x in WwnTable(AliasTable(defined.aliases))
    ensures |run.calls| == 2 + |wwnOrder| + |zoneOrder| && run.calls[..2] == [GetDefined, GetEffective]
    ensures forall k :: 0 <= k < |wwnOrder| ==> run.calls[2 + k] == AliasDeleteFor(AliasTable(defined.aliases), wwnOrder[k])
    ensures forall k :: 0 <= k < |zoneOrder| ==> run.calls[2 + |wwnOrder| + k] == Delete(Uri(ZoneSpace, zoneOrder[k]))
    ensures run.failed ==> zoneOrder == []
    ensures !run.failed ==> forall x :: x in wwnOrder <==> x in NonBlankLines(wwnLines)
    ensures !run.failed ==> Distinct(zoneOrder) && forall z :: z in zoneOrder <==> z in NonBlankLines(zoneLines)
    ensures forall k :: 0 <= k < |run.calls| ==> !run.calls[k].Save? && !run.calls[k].Create?
  {
    var zonesToDelete := GetSetFromFile(zoneLines);
    var wwnsToDelete := GetSetFromFile(wwnLines);
    var aliasTable := BuildAliasToWwn(defined.aliases);
    var wwnLookupTable := FlipAliasToWwn(aliasTable);
    var aliasDeletes, failed;
    aliasDeletes, failed, wwnOrder := DeleteAliases(wwnLookupTable, wwnsToDelete);
    FirstAliasDeletes(aliasTable, wwnOrder, aliasDeletes);
    var zoneDeletes: seq<FabricCall> := [];
    zoneOrder := [];
    if !failed {
      zoneDeletes, zoneOrder := DeleteZones(zonesToDelete);
    }
    run := DryRunResult([GetDefined, GetEffective] + aliasDeletes + zoneDeletes, failed);
    TraceLayout(aliasDeletes, zoneDeletes);
    OnlyDeletes(aliasDeletes, zoneDeletes);
    forall k | 0 <= k < |zoneOrder| ensures run.calls[2 + |wwnOrder| + k] == Delete(Uri(ZoneSpace, zoneOrder[k])) {
      assert run.calls[2 + |aliasDeletes| + k] == zoneDeletes[k];
    }
    NoEmptyEntry(aliasTable, wwnsToDelete);
  }

  /** Where each part of the run sits in the call sequence. */
  lemma TraceLayout(aliasDeletes: seq<FabricCall>, zoneDeletes: seq<FabricCall>)
    ensures var calls := [GetDefined, GetEffective] + aliasDeletes + zoneDeletes;
      && |calls| == 2 + |aliasDeletes| + |zoneDeletes|
      && calls[..2] == [GetDefined, GetEffective]
      && (forall k :: 0 <= k < |aliasDeletes| ==> calls[2 + k] == aliasDeletes[k])
      && (forall k :: 0 <= k < |zoneDeletes| ==> calls[2 + |aliasDeletes| + k] == zoneDeletes[k])
  {
  }

  /** Past the two reads, a dry run sends deletes and nothing else. */
  lemma OnlyDeletes(aliasDeletes: seq<FabricCall>, zoneDeletes: seq<FabricCall>)
    requires forall k :: 0 <= k < |aliasDeletes| ==> aliasDeletes[k].Delete?
    requires forall k :: 0 <= k < |zoneDeletes| ==> zoneDeletes[k].Delete?
    ensures var calls := [GetDefined, GetEffective] + aliasDeletes + zoneDeletes;
      forall k :: 0 <= k < |calls| ==> !calls[k].Save? && !calls[k].Create?
  {
    var calls := [GetDefined, GetEffective] + aliasDeletes + zoneDeletes;
    forall k | 0 <= k < |calls| ensures !calls[k].Save? && !calls[k].Create? {
      if k >= 2 + |aliasDeletes| {
        assert calls[k] == zoneDeletes[k - 2 - |aliasDeletes|];
      } else if k >= 2 {
        assert calls[k] == aliasDeletes[k - 2];
      }
    }
  }

  lemma FirstAliasDeletes(t: Dict<seq<string>>, order: seq<string>, deletes: seq<FabricCall>)
    requires t.Valid() && |deletes| == |order|
    requires forall x :: x in order ==> x in WwnTable(t) && WwnTable(t)[x] != []
    requires forall k :: 0 <= k < |order| ==> deletes[k] == Delete(Uri(AliasSpace, WwnTable(t)[order[k]][0]))
    ensures forall k :: 0 <= k < |order| ==> deletes[k] == AliasDeleteFor(t, order[k])
  {
  }

  lemma NoEmptyEntry(t: Dict<seq<string>>, wwns: set<string>)
    requires t.Valid()
    ensures (exists x :: x in wwns && (x !in WwnTable(t) || WwnTable(t)[x] == [])) <==> exists x :: x in wwns && x !in WwnTable(t)
  {
    WwnTableInverts(t);
  }

  /** The first loop: for each WWN, delete `wwnLookupTable[wwn][0]`; a WWN
      with no entry (or an empty one) raises and ends the run. */
  method DeleteAliases(w: map<string, seq<string>>, wwns: set<string>)
    returns (deletes: seq<FabricCall>, failed: bool, ghost order: seq<string>)
    ensures failed <==> exists x :: x in wwns && (x !in w || w[x] == [])
    ensures Distinct(order) && forall x :: x in order ==> x in wwns && x in w && w[x] != []
    ensures !failed ==> forall x :: x in order <==> x in wwns
    ensures |deletes| == |order|
    ensures forall k :: 0 <= k < |order| ==> deletes[k] == Delete(Uri(AliasSpace, w[order[k]][0]))
  {
    deletes, order := [], [];
    var rest := wwns;
    while rest != {}
      invariant rest <= wwns
      invariant Distinct(order) && forall x :: x in order <==> x in wwns - rest
      invariant forall x :: x in order ==> x in w && w[x] != []
      invariant |deletes| == |order|
      invariant forall k :: 0 <= k < |order| ==> deletes[k] == Delete(Uri(AliasSpace, w[order[k]][0]))
      decreases |rest|
    {
      var wwn :| wwn in rest;
      if wwn !in w || w[wwn] == [] {
        return deletes, true, order;
      }
      deletes := deletes + [Delete(Uri(AliasSpace, w[wwn][0]))];
      assert wwn !in order;
      order := order + [wwn];
      rest := rest - {wwn};
    }
    failed := false;
    assert forall x :: x in wwns ==> x in order;
  }

  /** The second loop: one delete per zone. */
  method DeleteZones(zones: set<string>) returns (deletes: seq<FabricCall>, ghost order: seq<string>)
    ensures Distinct(order) && forall z :: z in order <==> z in zones
    ensures |deletes| == |order| && forall k :: 0 <= k < |order| ==> deletes[k] == Delete(Uri(ZoneSpace, order[k]))
  {
    deletes, order := [], [];
    var rest := zones;
    while rest != {}
      invariant rest <= zones
      invariant Distinct(order) && forall z :: z in order <==> z in zones - rest
      invariant |deletes| == |order| && forall k :: 0 <= k < |order| ==> deletes[k] == Delete(Uri(ZoneSpace, order[k]))
      decreases |rest|
    {
      var zone :| zone in rest;
      deletes := deletes + [Delete(Uri(ZoneSpace, zone))];
      assert zone !in order;
      order := order + [zone];
      rest := rest - {zone};
    }
  }
}
