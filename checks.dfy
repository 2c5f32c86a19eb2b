/** The pre-deletion safety checks of checks.py: given the defined and
    effective configurations and the two delete lists (zone names and
    WWNs, one per line), decide whether the deletion may go ahead. */
module Checks {
  import opened Wrappers
  import opened Sorted
  import opened Text
  import opened Zoning
  import opened WwnFormat
  import opened AliasIndex

  /** getSetFromFile: every line stripped; a blank line becomes "" and is kept. */
  ghost function LineSet(lines: seq<string>): set<string> {
    set l | l in lines :: Strip(l)
  }

  method GetSetFromFile(lines: seq<string>) returns (fileSet: set<string>)
    ensures fileSet == LineSet(lines)
  {
    fileSet := {};
    var i := 0;
    while i < |lines|
      invariant 0 <= i <= |lines|
      invariant fileSet == LineSet(lines[..i])
    {
      assert lines[..i + 1] == lines[..i] + [lines[i]];
      fileSet := fileSet + {Strip(lines[i])};
      i := i + 1;
    }
    assert lines[..i] == lines;
  }

  /** Every entry of the set is a stripped line, and a line of whitespace
      alone becomes the empty name rather than disappearing. */
  lemma LineSetEntries(lines: seq<string>)
    ensures forall e :: e in LineSet(lines) ==> e == [] || (!IsSpace(e[0]) && !IsSpace(e[|e| - 1]))
    ensures "" in LineSet(lines) <==> exists l :: l in lines && AllSpace(l)
  {
    if exists l :: l in lines && AllSpace(l) {
      var l :| l in lines && AllSpace(l);
      assert Strip(l) == "";
    }
  }

  /** The names of the given zones. */
  ghost function ZoneNameSet(zones: seq<Zone>): set<string> {
    set z | z in zones :: z.name
  }

  /** Every `entry-name` and `principal-entry-name` entry of the given
      zones; a zone missing either list contributes nothing for it. */
  ghost function MemberSet(zones: seq<Zone>): set<string> {
    set z, x | z in zones && x in ZoneMembers(z) :: x
  }

  /** A WWN is collected exactly when some zone lists it under either key. */
  lemma MemberSetSpec(zones: seq<Zone>, x: string)
    ensures x in MemberSet(zones) <==> exists z :: z in zones && (x in Listed(z.members.entryNames) || x in Listed(z.members.principalEntryNames))
  {
    if exists z :: z in zones && (x in Listed(z.members.entryNames) || x in Listed(z.members.principalEntryNames)) {
      var z :| z in zones && (x in Listed(z.members.entryNames) || x in Listed(z.members.principalEntryNames));
      assert x in ZoneMembers(z);
    }
  }

  lemma MemberSetAppend(zones: seq<Zone>, z: Zone)
    ensures MemberSet(zones + [z]) == MemberSet(zones) + Elems(ZoneMembers(z))
  {
    var zs := zones + [z];
    forall x | x in MemberSet(zs) ensures x in MemberSet(zones) + Elems(ZoneMembers(z)) {
      var y :| y in zs && x in ZoneMembers(y);
      if y != z {
        assert y in zones;
      }
    }
    forall x | x in MemberSet(zones) + Elems(ZoneMembers(z)) ensures x in MemberSet(zs) {
      if x in MemberSet(zones) {
        var y :| y in zones && x in ZoneMembers(y);
        assert y in zs;
      } else {
        assert z in zs;
      }
    }
  }

  /** One more zone adds its name and the entries of its two lists. */
  lemma CollectStep(zones: seq<Zone>, i: nat)
    requires i < |zones|
    ensures ZoneNameSet(zones[..i + 1]) == ZoneNameSet(zones[..i]) + {zones[i].name}
    ensures MemberSet(zones[..i + 1]) == MemberSet(zones[..i])
      + Elems(Listed(zones[i].members.entryNames)) + Elems(Listed(zones[i].members.principalEntryNames))
  {
    var z := zones[i];
    assert zones[..i + 1] == zones[..i] + [z];
    MemberSetAppend(zones[..i], z);
    assert Elems(ZoneMembers(z)) == Elems(Listed(z.members.entryNames)) + Elems(Listed(z.members.principalEntryNames));
  }

  /** `for j in list: s.add(j)` */
  method AddAll(s0: set<string>, xs: seq<string>) returns (s: set<string>)
    ensures s == s0 + Elems(xs)
  {
    s := s0;
    var j := 0;
    while j < |xs|
      invariant 0 <= j <= |xs|
      invariant s == s0 + Elems(xs[..j])
    {
      assert xs[..j + 1] == xs[..j] + [xs[j]];
      s := s + {xs[j]};
      j := j + 1;
    }
    assert xs[..j] == xs;
  }

  /** The loop shared by getZonesAndWWPNsFromEffectiveConfig and
      getZonesAndMembersFromDefinedConfig. */
  method CollectZonesAndMembers(zones: seq<Zone>) returns (zoneNames: set<string>, members: set<string>)
    ensures zoneNames == ZoneNameSet(zones)
    ensures members == MemberSet(zones)
  {
    zoneNames := {};
    members := {};
    var i := 0;
    while i < |zones|
      invariant 0 <= i <= |zones|
      invariant zoneNames == ZoneNameSet(zones[..i])
      invariant members == MemberSet(zones[..i])
    {
      var z := zones[i];
      CollectStep(zones, i);
      zoneNames := zoneNames + {z.name};
      if z.members.entryNames.Some? {
        members := AddAll(members, z.members.entryNames.value);
      }
      if z.members.principalEntryNames.Some? {
        members := AddAll(members, z.members.principalEntryNames.value);
      }
      i := i + 1;
    }
    assert zones[..i] == zones;
  }

  method GetZonesAndWwpnsFromEffectiveConfig(effective: EffectiveConfiguration) returns (zoneNames: set<string>, wwns: set<string>)
    ensures zoneNames == ZoneNameSet(effective.enabledZones)
    ensures wwns == MemberSet(effective.enabledZones)
  {
    zoneNames, wwns := CollectZonesAndMembers(effective.enabledZones);
  }

  method GetZonesAndMembersFromDefinedConfig(defined: DefinedConfiguration) returns (zoneNames: set<string>, members: set<string>)
    ensures zoneNames == ZoneNameSet(defined.zones)
    ensures members == MemberSet(defined.zones)
  {
    zoneNames, members := CollectZonesAndMembers(defined.zones);
  }

  /** How a run of checks.py ends. */
  datatype ChecksReport =
      /** Check 1 failed: these WWN entries do not contain a WWN (exit 2). */
    | NonWwnEntries(bad: set<string>)
      /** Check 2 or check 3 failed: WWNs that no alias lists, zones that
          are not defined (exit 2, before checks 4 and 5). */
    | Unresolved(unaliasedWwns: set<string>, undefinedZones: set<string>)
      /** Check 4 or check 5 failed: zones to delete that are enabled, WWNs
          to delete that are members of enabled zones (exit 2). */
    | Unsafe(zoneOverlap: set<string>, wwnOverlap: set<string>)
      /** All checks passed: each WWN's aliases, and the aliases to delete. */
    | Safe(translation: map<string, seq<string>>, aliasesToDelete: seq<string>)

  /** Every stop is `exit(2)`; only a run that reaches the report ends
      normally. */
  function ExitStatus(r: ChecksReport): int {
    if r.Safe? then 0 else 2
  }

  /** The decision the checks take, given the two delete sets, the WWN
      lookup table, the defined zone names and the enabled zones' names and
      members. */
  ghost function Decide(zonesToDelete: set<string>, wwnsToDelete: set<string>, w: map<string, seq<string>>,
                        defZones: set<string>, effZones: set<string>, effWwpns: set<string>): (r: ChecksReport)
    ensures r.NonWwnEntries? <==> exists e :: e in wwnsToDelete && !ContainsWwn(e)
    ensures r.Safe? <==>
      (forall e :: e in wwnsToDelete ==> ContainsWwn(e)) && wwnsToDelete <= w.Keys && zonesToDelete <= defZones
      && effZones !! zonesToDelete && effWwpns !! wwnsToDelete
  {
    var bad := set e | e in wwnsToDelete && !ContainsWwn(e);
    if bad != {} then NonWwnEntries(bad)
    else
      assert forall e :: e in wwnsToDelete ==> e !in bad;
      var unaliased := wwnsToDelete - w.Keys;
      var undefinedZones := zonesToDelete - defZones;
      if unaliased != {} || undefinedZones != {} then Unresolved(unaliased, undefinedZones)
      else
        var zoneOverlap := effZones * zonesToDelete;
        var wwnOverlap := effWwpns * wwnsToDelete;
        if zoneOverlap != {} || wwnOverlap != {} then Unsafe(zoneOverlap, wwnOverlap)
        else
          assert forall z :: z in zonesToDelete ==> z !in undefinedZones;
          assert effZones !! zonesToDelete && effWwpns !! wwnsToDelete;
          Safe(map x | x in wwnsToDelete && x in w :: w[x], SortedSetOf(AliasesFor(w, wwnsToDelete)))
  }

  /** The outcome the checks lead to, stated over the specification of each
      index and set rather than over the loops that compute them. */
  ghost function Verdict(defined: DefinedConfiguration, effective: EffectiveConfiguration,
                         zoneLines: seq<string>, wwnLines: seq<string>): ChecksReport
  {
    Decide(LineSet(zoneLines), LineSet(wwnLines), WwnTable(AliasTable(defined.aliases)),
           ZoneNameSet(defined.zones), ZoneNameSet(effective.enabledZones), MemberSet(effective.enabledZones))
  }

  /** main, from reading the inputs to the final report. */
  method RunChecks(defined: DefinedConfiguration, effective: EffectiveConfiguration,
                   zoneLines: seq<string>, wwnLines: seq<string>) returns (r: ChecksReport)
    ensures r == Verdict(defined, effective, zoneLines, wwnLines)
  {
    var zonesToDelete := GetSetFromFile(zoneLines);
    var wwnsToDelete := GetSetFromFile(wwnLines);
    var aliasTable := BuildAliasToWwn(defined.aliases);
    var wwnLookupTable := FlipAliasToWwn(aliasTable);
    var effZones, effWwpns := GetZonesAndWwpnsFromEffectiveConfig(effective);
    var defZones, defAliases := GetZonesAndMembersFromDefinedConfig(defined);

    // Check 1
    var bad := FindMalformed(wwnsToDelete);
    if bad != {} {
      return NonWwnEntries(bad);
    }
    var problem := false;

    // Check 2
    var unaliased := wwnsToDelete - wwnLookupTable.Keys;
    if unaliased != {} {
      problem := true;
    }
    var aliasesToDelete := GetAliasesFromWwns(wwnLookupTable, wwnsToDelete);

    // Check 3
    var undefinedZones := zonesToDelete - defZones;
    if undefinedZones != {} {
      problem := true;
    }
    if problem {
      return Unresolved(unaliased, undefinedZones);
    }

    // Checks 4 and 5
    var zoneOverlap := effZones * zonesToDelete;
    if zoneOverlap != {} {
      problem := true;
    }
    var wwnOverlap := effWwpns * wwnsToDelete;
    if wwnOverlap != {} {
      problem := true;
    }
    if problem {
      return Unsafe(zoneOverlap, wwnOverlap);
    }

    StrictlySortedUnique(aliasesToDelete, SortedSetOf(AliasesFor(wwnLookupTable, wwnsToDelete)));
    r := Safe(map x | x in wwnsToDelete && x in wwnLookupTable :: wwnLookupTable[x], aliasesToDelete);
  }

  /** Check 1 ends the run on its own: the run stops with the malformed
      entries exactly when some stripped WWN line holds no WWN, and then no
      later check is reached. */
  lemma MalformedWwnStopsFirst(defined: DefinedConfiguration, effective: EffectiveConfiguration,
                               zoneLines: seq<string>, wwnLines: seq<string>)
    ensures Verdict(defined, effective, zoneLines, wwnLines).NonWwnEntries?
      <==> exists l :: l in wwnLines && !ContainsWwn(Strip(l))
    ensures Verdict(defined, effective, zoneLines, wwnLines).NonWwnEntries? ==>
      forall e :: e in Verdict(defined, effective, zoneLines, wwnLines).bad <==> e in LineSet(wwnLines) && !ContainsWwn(e)
  {
    var bad := set e | e in LineSet(wwnLines) && !ContainsWwn(e);
    if exists l :: l in wwnLines && !ContainsWwn(Strip(l)) {
      var l :| l in wwnLines && !ContainsWwn(Strip(l));
      assert Strip(l) in bad;
    }
  }

  /** After check 3 the run stops, without reaching checks 4 and 5, exactly
      when every entry is well formed and either some WWN is listed by no
      alias record or some zone to delete is not defined. */
  lemma UnresolvedStopsAfterCheck3(defined: DefinedConfiguration, effective: EffectiveConfiguration,
                                   zoneLines: seq<string>, wwnLines: seq<string>)
    ensures var t := AliasTable(defined.aliases);
      Verdict(defined, effective, zoneLines, wwnLines).Unresolved?
      <==>
      (forall e :: e in LineSet(wwnLines) ==> ContainsWwn(e))
      && ((exists x :: x in LineSet(wwnLines) && forall a :: a in t.values ==> x !in t.values[a])
          || (exists n :: n in LineSet(zoneLines) && forall z :: z in defined.zones ==> z.name != n))
  {
    var t := AliasTable(defined.aliases);
    var zl := LineSet(zoneLines);
    var wl := LineSet(wwnLines);
    var w := WwnTable(t);
    var bad := set e | e in wl && !ContainsWwn(e);
    var unaliased := wl - w.Keys;
    var undefinedZones := zl - ZoneNameSet(defined.zones);
    assert Verdict(defined, effective, zoneLines, wwnLines).Unresolved?
      <==> bad == {} && (unaliased != {} || undefinedZones != {});
    AllWellFormedIff(wl);
    UnaliasedIff(t, wl);
    UndefinedIff(defined.zones, zl);
  }

  lemma AllWellFormedIff(wl: set<string>)
    ensures (set e | e in wl && !ContainsWwn(e)) == {} <==> forall e :: e in wl ==> ContainsWwn(e)
  {
    var bad := set e | e in wl && !ContainsWwn(e);
    if bad != {} {
      var e :| e in bad;
      assert e in wl && !ContainsWwn(e);
    }
    if e :| e in wl && !ContainsWwn(e) {
      assert e in bad;
    }
  }

  lemma UnaliasedIff(t: Dict<seq<string>>, wl: set<string>)
    requires t.Valid()
    ensures wl - WwnTable(t).Keys != {} <==> exists x :: x in wl && forall a :: a in t.values ==> x !in t.values[a]
  {
    if x :| x in wl - WwnTable(t).Keys {
      assert x in wl && x !in Referenced(t);
    }
    if x :| x in wl && forall a :: a in t.values ==> x !in t.values[a] {
      assert x !in Referenced(t);
      assert x in wl - WwnTable(t).Keys;
    }
  }

  lemma UndefinedIff(zones: seq<Zone>, zl: set<string>)
    ensures zl - ZoneNameSet(zones) != {} <==> exists n :: n in zl && forall z :: z in zones ==> z.name != n
  {
    if n :| n in zl - ZoneNameSet(zones) {
      forall z | z in zones ensures z.name != n {
        assert z.name in ZoneNameSet(zones);
      }
    }
    if n :| n in zl && forall z :: z in zones ==> z.name != n {
      assert n in zl - ZoneNameSet(zones);
    }
  }

  /** Check 4 fails exactly when some enabled zone is named in the zone
      file. */
  lemma ZoneOverlapIff(enabled: seq<Zone>, zl: set<string>)
    ensures ZoneNameSet(enabled) * zl != {} <==> exists z :: z in enabled && z.name in zl
  {
    if n :| n in ZoneNameSet(enabled) * zl {
      var z :| z in enabled && z.name == n;
    }
    if z :| z in enabled && z.name in zl {
      assert z.name in ZoneNameSet(enabled) * zl;
    }
  }

  /** Check 5 fails exactly when some member of an enabled zone is in the
      WWN file. */
  lemma WwnOverlapIff(enabled: seq<Zone>, wl: set<string>)
    ensures MemberSet(enabled) * wl != {} <==> exists z, x :: z in enabled && x in ZoneMembers(z) && x in wl
  {
    if x :| x in MemberSet(enabled) * wl {
      var z :| z in enabled && x in ZoneMembers(z);
    }
    if z, x :| z in enabled && x in ZoneMembers(z) && x in wl {
      assert x in MemberSet(enabled) * wl;
    }
  }

  /** Once checks 1 to 3 pass, checks 4 and 5 both run: the run is stopped
      exactly when an enabled zone is to be deleted or a member of an
      enabled zone is a WWN to delete, and the report then holds both
      overlaps, each possibly empty. Otherwise the run passes. */
  lemma OverlapDecides(defined: DefinedConfiguration, effective: EffectiveConfiguration,
                       zoneLines: seq<string>, wwnLines: seq<string>)
    requires !Verdict(defined, effective, zoneLines, wwnLines).NonWwnEntries?
    requires !Verdict(defined, effective, zoneLines, wwnLines).Unresolved?
    ensures var v := Verdict(defined, effective, zoneLines, wwnLines);
      v.Unsafe? <==>
        (exists z :: z in effective.enabledZones && z.name in LineSet(zoneLines))
        || (exists z, x :: z in effective.enabledZones && x in ZoneMembers(z) && x in LineSet(wwnLines))
    ensures var v := Verdict(defined, effective, zoneLines, wwnLines);
      v.Unsafe? ==> v == Unsafe(ZoneNameSet(effective.enabledZones) * LineSet(zoneLines),
                                MemberSet(effective.enabledZones) * LineSet(wwnLines))
    ensures var v := Verdict(defined, effective, zoneLines, wwnLines);
      v.Safe? <==> !v.Unsafe?
  {
    ZoneOverlapIff(effective.enabledZones, LineSet(zoneLines));
    WwnOverlapIff(effective.enabledZones, LineSet(wwnLines));
  }

  /** The run exits with 0 exactly when all five checks pass: every WWN
      entry holds a WWN and is listed by some alias, every zone to delete
      is defined, no enabled zone is to be deleted and no member of an
      enabled zone is a WWN to delete. Every other run exits with 2. */
  lemma ExitsZeroIffAllChecksPass(defined: DefinedConfiguration, effective: EffectiveConfiguration,
                                  zoneLines: seq<string>, wwnLines: seq<string>)
    ensures ExitStatus(Verdict(defined, effective, zoneLines, wwnLines)) in {0, 2}
    ensures var t := AliasTable(defined.aliases);
      ExitStatus(Verdict(defined, effective, zoneLines, wwnLines)) == 0
      <==>
      && (forall e :: e in LineSet(wwnLines) ==> ContainsWwn(e))
      && (forall x :: x in LineSet(wwnLines) ==> exists a :: a in t.values && x in t.values[a])
      && (forall n :: n in LineSet(zoneLines) ==> exists z :: z in defined.zones && z.name == n)
      && (forall z :: z in effective.enabledZones ==> z.name !in LineSet(zoneLines))
      && (forall z, x :: z in effective.enabledZones && x in ZoneMembers(z) ==> x !in LineSet(wwnLines))
  {
    var t := AliasTable(defined.aliases);
    var zl := LineSet(zoneLines);
    var wl := LineSet(wwnLines);
    var enabled := effective.enabledZones;
    var bad := set e | e in wl && !ContainsWwn(e);
    assert Verdict(defined, effective, zoneLines, wwnLines).Safe?
      <==> bad == {} && wl - WwnTable(t).Keys == {} && zl - ZoneNameSet(defined.zones) == {}
           && ZoneNameSet(enabled) * zl == {} && MemberSet(enabled) * wl == {};
    AllWellFormedIff(wl);
    UnaliasedIff(t, wl);
    UndefinedIff(defined.zones, zl);
    ZoneOverlapIff(enabled, zl);
    WwnOverlapIff(enabled, wl);
  }

  /** The same holds for the WWN file, where the empty entry fails check 1:
      a blank line there stops the run at once. */
  lemma BlankWwnLineFailsCheck1(defined: DefinedConfiguration, effective: EffectiveConfiguration,
                                zoneLines: seq<string>, wwnLines: seq<string>, k: nat)
    requires k < |wwnLines| && AllSpace(wwnLines[k])
    ensures Verdict(defined, effective, zoneLines, wwnLines).NonWwnEntries?
    ensures "" in Verdict(defined, effective, zoneLines, wwnLines).bad
  {
    LineSetEntries(wwnLines);
    assert wwnLines[k] in wwnLines;
    assert !ContainsWwn("");
    var bad := set e | e in LineSet(wwnLines) && !ContainsWwn(e);
    assert "" in bad;
  }

  /** Once the WWN entries pass check 1, a blank line in the zone file
      becomes the empty zone name, which no zone is called, so check 3
      stops the run even though the report of undefined zones leaves the
      empty name out of what it prints. */
  lemma BlankZoneLineStops(defined: DefinedConfiguration, effective: EffectiveConfiguration,
                           zoneLines: seq<string>, wwnLines: seq<string>, k: nat)
    requires k < |zoneLines| && AllSpace(zoneLines[k])
    requires forall z :: z in defined.zones ==> z.name != ""
    requires !Verdict(defined, effective, zoneLines, wwnLines).NonWwnEntries?
    ensures Verdict(defined, effective, zoneLines, wwnLines).Unresolved?
    ensures "" in Verdict(defined, effective, zoneLines, wwnLines).undefinedZones
  {
    LineSetEntries(zoneLines);
    assert zoneLines[k] in zoneLines;
    assert "" !in ZoneNameSet(defined.zones);
    assert "" in LineSet(zoneLines) - ZoneNameSet(defined.zones);
  }

  /** A run that passes every check deletes nothing that is still in use:
      no zone to delete is enabled, no WWN to delete is a member of an
      enabled zone, every WWN has at least one alias, and the aliases to
      delete are exactly the aliases listing those WWNs, sorted. */
  lemma SafeVerdictIsSafe(defined: DefinedConfiguration, effective: EffectiveConfiguration,
                          zoneLines: seq<string>, wwnLines: seq<string>)
    requires Verdict(defined, effective, zoneLines, wwnLines).Safe?
    ensures var r := Verdict(defined, effective, zoneLines, wwnLines);
      var t := AliasTable(defined.aliases);
      && (forall z :: z in effective.enabledZones ==> z.name !in LineSet(zoneLines))
      && (forall z, x :: z in effective.enabledZones && x in ZoneMembers(z) ==> x !in LineSet(wwnLines))
      && (forall x :: x in LineSet(wwnLines) ==>
            x in r.translation && r.translation[x] != []
            && forall a :: a in r.translation[x] <==> a in t.values && x in t.values[a])
      && StrictlySorted(r.aliasesToDelete)
      && (forall a :: a in r.aliasesToDelete <==> a in t.values && exists x :: x in LineSet(wwnLines) && x in t.values[a])
  {
    var t := AliasTable(defined.aliases);
    var w := WwnTable(t);
    var r := Verdict(defined, effective, zoneLines, wwnLines);
    SafeReport(t, LineSet(wwnLines), LineSet(zoneLines), effective.enabledZones, r.translation, r.aliasesToDelete);
  }

  lemma SafeReport(t: Dict<seq<string>>, wwns: set<string>, zl: set<string>, enabled: seq<Zone>,
                   translation: map<string, seq<string>>, aliasesToDelete: seq<string>)
    requires t.Valid()
    requires wwns - WwnTable(t).Keys == {}
    requires ZoneNameSet(enabled) * zl == {}
    requires MemberSet(enabled) * wwns == {}
    requires translation == map x | x in wwns && x in WwnTable(t) :: WwnTable(t)[x]
    requires aliasesToDelete == SortedSetOf(AliasesFor(WwnTable(t), wwns))
    ensures forall z :: z in enabled ==> z.name !in zl
    ensures forall z, x :: z in enabled && x in ZoneMembers(z) ==> x !in wwns
    ensures forall x :: x in wwns ==>
      x in translation && translation[x] != []
      && forall a :: a in translation[x] <==> a in t.values && x in t.values[a]
    ensures StrictlySorted(aliasesToDelete)
    ensures forall a :: a in aliasesToDelete <==> a in t.values && exists x :: x in wwns && x in t.values[a]
  {
    var w := WwnTable(t);
    forall z | z in enabled ensures z.name !in zl {
      assert z.name in ZoneNameSet(enabled);
      assert z.name !in ZoneNameSet(enabled) * zl;
    }
    forall z, x | z in enabled && x in ZoneMembers(z) ensures x !in wwns {
      assert x in MemberSet(enabled);
      assert x !in MemberSet(enabled) * wwns;
    }
    forall x | x in wwns
      ensures x in translation && translation[x] != []
      ensures forall a :: a in translation[x] <==> a in t.values && x in t.values[a]
    {
      assert x !in wwns - w.Keys;
      WwnTableIsInverse(t, x, "");
      forall a ensures a in w[x] <==> a in t.values && x in t.values[a] {
        WwnTableIsInverse(t, x, a);
      }
    }
    forall a ensures a in aliasesToDelete <==> a in t.values && exists x :: x in wwns && x in t.values[a] {
      if a in AliasesFor(w, wwns) {
        var x :| x in wwns && x in w && a in w[x];
        WwnTableIsInverse(t, x, a);
      }
      if a in t.values && exists x :: x in wwns && x in t.values[a] {
        var x :| x in wwns && x in t.values[a];
        WwnTableIsInverse(t, x, a);
        assert a in AliasesFor(w, wwns);
      }
    }
  }

  /** Deleting a WWN whose alias exists together with a defined zone that
      is still enabled (with another WWN as member): the format, alias and
      definition checks pass, and the run is stopped by check 4 alone,
      naming the zone, with no WWN overlap reported. The two files hold
      the zone name and the WWN, each possibly padded with whitespace. */
  lemma EnabledZoneScenario(alias: string, zone: string, w1: string, w2: string,
                            zoneLines: seq<string>, wwnLines: seq<string>)
    requires LineSet(zoneLines) == {zone} && LineSet(wwnLines) == {w1}
    requires ContainsWwn(w1) && w1 != w2
    ensures var zoneA := Zone(zone, 0, MemberEntry(Some([w2]), None));
      var defined := DefinedConfiguration([Alias(alias, [w1])], [zoneA], []);
      var effective := EffectiveConfiguration([zoneA], "C1");
      Verdict(defined, effective, zoneLines, wwnLines) == Unsafe({zone}, {})
  {
    var zoneA := Zone(zone, 0, MemberEntry(Some([w2]), None));
    ScenarioTables(alias, w1, zoneA);
    ScenarioDecision(zone, w1, w2, WwnTable(AliasTable([Alias(alias, [w1])])));
  }

  lemma ScenarioTables(alias: string, w1: string, zoneA: Zone)
    ensures w1 in WwnTable(AliasTable([Alias(alias, [w1])]))
    ensures ZoneNameSet([zoneA]) == {zoneA.name}
    ensures MemberSet([zoneA]) == Elems(ZoneMembers(zoneA))
  {
    SingleAliasTable(alias, w1);
    MemberSetAppend([], zoneA);
    assert [] + [zoneA] == [zoneA];
  }

  lemma SingleAliasTable(alias: string, w1: string)
    ensures w1 in WwnTable(AliasTable([Alias(alias, [w1])]))
  {
    var t := AliasTable([Alias(alias, [w1])]);
    assert AliasNames([Alias(alias, [w1])]) == [alias];
    assert alias in t.values && t.values[alias] == [w1];
    assert w1 in t.values[alias];
    assert w1 in Referenced(t);
  }

  lemma ScenarioDecision(zone: string, w1: string, w2: string, w: map<string, seq<string>>)
    requires ContainsWwn(w1) && w1 != w2 && w1 in w
    ensures Decide({zone}, {w1}, w, {zone}, {zone}, {w2}) == Unsafe({zone}, {})
  {
    assert (set e | e in {w1} && !ContainsWwn(e)) == {};
    assert {w1} - w.Keys == {};
    assert {w2} * {w1} == {};
  }
}
