/** testZoneMemberCount.py: one record per zone name with the number of
    members of each kind and the zone type. */
module ZoneMemberCount {
  import opened Wrappers
  import opened Sorted
  import opened Zoning
  import opened AliasIndex

  /** The inner dictionary: memberCount, principalCount, nonPrincipalCount
      and zone-type. */
  datatype ZoneCounts = ZoneCounts(memberCount: nat, principalCount: nat, nonPrincipalCount: nat, zoneType: int)

  predicate Counted(z: Zone) {
    z.zoneType == 0 || z.zoneType == 1
  }

  /** The record a standard or peer zone writes, lists read as present or
      empty. */
  function Written(z: Zone): (c: ZoneCounts)
    requires Counted(z)
    ensures z.zoneType == 0 ==> c.memberCount == |Listed(z.members.entryNames)| && c.principalCount == 0 && c.nonPrincipalCount == 0
    ensures z.zoneType == 1 ==> (c.memberCount == 0
      && c.principalCount == |Listed(z.members.principalEntryNames)|
      && c.nonPrincipalCount == |Listed(z.members.entryNames)|)
    ensures c.zoneType == z.zoneType
  {
    if z.zoneType == 0 then ZoneCounts(|Listed(z.members.entryNames)|, 0, 0, 0)
    else ZoneCounts(0, |Listed(z.members.principalEntryNames)|, |Listed(z.members.entryNames)|, 1)
  }

  /** Zone k makes the loop raise: a standard zone without `entry-name`, a
      peer zone without one of its two lists, or a zone of another type
      whose name has no record yet (the `zone-type` store then misses). */
  predicate FailsAt(zones: seq<Zone>, k: nat)
    requires k < |zones|
  {
    var z := zones[k];
    if z.zoneType == 0 then z.members.entryNames.None?
    else if z.zoneType == 1 then z.members.principalEntryNames.None? || z.members.entryNames.None?
    else z.name !in ZoneNames(zones[..k])
  }

  predicate CountFails(zones: seq<Zone>) {
    exists k :: 0 <= k < |zones| && FailsAt(zones, k)
  }

  /** The last standard or peer zone named n: the one whose counts stand. */
  function LastCounted(zones: seq<Zone>, n: string): (r: Option<nat>)
    ensures r.Some? ==> r.value < |zones| && zones[r.value].name == n && Counted(zones[r.value])
    ensures r.Some? ==> forall k :: r.value < k < |zones| && zones[k].name == n ==> !Counted(zones[k])
    ensures r.None? <==> forall k :: 0 <= k < |zones| && zones[k].name == n ==> !Counted(zones[k])
  {
    if zones == [] then None
    else if zones[|zones| - 1].name == n && Counted(zones[|zones| - 1]) then Some(|zones| - 1)
    else
      var r := LastCounted(zones[..|zones| - 1], n);
      assert forall k :: 0 <= k < |zones| - 1 ==> zones[..|zones| - 1][k] == zones[k];
      r
  }

  /** The record the source promises for name n: the counts of the last
      standard or peer zone of that name, and the type of the last zone of
      that name, whatever its type. */
  function Expected(zones: seq<Zone>, n: string): Option<ZoneCounts> {
    var c := LastCounted(zones, n);
    var l := LastIndex(ZoneNames(zones), n);
    if c.None? || l.None? then None
    else Some(Written(zones[c.value]).(zoneType := zones[l.value].zoneType))
  }

  ghost predicate Tallies(counts: Dict<ZoneCounts>, zones: seq<Zone>) {
    counts.Valid() && counts.keys == Dedup(ZoneNames(zones))
    && forall n :: n in counts.values ==> Expected(zones, n) == Some(counts.values[n])
  }

  /** buildZoneMemberCounts. */
  method BuildZoneMemberCounts(zones: seq<Zone>) returns (r: Option<Dict<ZoneCounts>>)
    ensures r.None? <==> CountFails(zones)
    ensures r.Some? ==> Tallies(r.value, zones)
  {
    var counts := EmptyDict();
    var i := 0;
    while i < |zones|
      invariant 0 <= i <= |zones|
      invariant !CountFails(zones[..i])
      invariant Tallies(counts, zones[..i])
    {
      var z := zones[i];
      if (z.zoneType == 0 && z.members.entryNames.None?)
        || (z.zoneType == 1 && (z.members.principalEntryNames.None? || z.members.entryNames.None?))
        || (!Counted(z) && z.name !in counts.values)
      {
        FailsHere(zones, i, counts);
        return None;
      }
      ghost var before := counts;
      if z.zoneType == 0 {
        counts := counts.Put(z.name, ZoneCounts(|z.members.entryNames.value|, 0, 0, 0));
      } else if z.zoneType == 1 {
        counts := counts.Put(z.name, ZoneCounts(0, |z.members.principalEntryNames.value|, |z.members.entryNames.value|, 1));
      } else {
        counts := counts.Put(z.name, counts.values[z.name].(zoneType := z.zoneType));
      }
      TalliesStep(zones, i, before, counts);
      i := i + 1;
    }
    assert zones[..i] == zones;
    r := Some(counts);
  }

  lemma FailsHere(zones: seq<Zone>, i: nat, counts: Dict<ZoneCounts>)
    requires i < |zones| && Tallies(counts, zones[..i])
    requires var z := zones[i];
      (z.zoneType == 0 && z.members.entryNames.None?)
      || (z.zoneType == 1 && (z.members.principalEntryNames.None? || z.members.entryNames.None?))
      || (!Counted(z) && z.name !in counts.values)
    ensures CountFails(zones)
  {
    assert FailsAt(zones, i);
  }

  lemma TalliesStep(zones: seq<Zone>, i: nat, before: Dict<ZoneCounts>, after: Dict<ZoneCounts>)
    requires i < |zones| && Tallies(before, zones[..i]) && !CountFails(zones[..i]) && !FailsAt(zones, i)
    requires after.Valid()
    requires after.keys == if zones[i].name in before.values then before.keys else before.keys + [zones[i].name]
    requires Counted(zones[i]) ==> after.values == before.values[zones[i].name := Written(zones[i])]
    requires !Counted(zones[i]) ==> (zones[i].name in before.values
      && after.values == before.values[zones[i].name := before.values[zones[i].name].(zoneType := zones[i].zoneType)])
    ensures Tallies(after, zones[..i + 1]) && !CountFails(zones[..i + 1])
  {
    var p := zones[..i];
    var q := zones[..i + 1];
    var z := zones[i];
    NamesStep(zones, i);
    DedupSnoc(ZoneNames(p), z.name);
    assert after.keys == Dedup(ZoneNames(q));
    forall n | n in after.values ensures Expected(q, n) == Some(after.values[n]) {
      RecordStep(zones, i, before, after, n);
    }
    FailsStep(zones, i, before);
  }

  /** The record of one name after one more zone. */
  lemma RecordStep(zones: seq<Zone>, i: nat, before: Dict<ZoneCounts>, after: Dict<ZoneCounts>, n: string)
    requires i < |zones| && n in after.values
    requires n in before.values ==> Expected(zones[..i], n) == Some(before.values[n])
    requires Counted(zones[i]) ==> after.values == before.values[zones[i].name := Written(zones[i])]
    requires !Counted(zones[i]) ==> (zones[i].name in before.values
      && after.values == before.values[zones[i].name := before.values[zones[i].name].(zoneType := zones[i].zoneType)])
    requires n !in before.values ==> n == zones[i].name
    ensures Expected(zones[..i + 1], n) == Some(after.values[n])
  {
    ExpectedStep(zones, i, n);
  }

  lemma NamesStep(zones: seq<Zone>, i: nat)
    requires i < |zones|
    ensures ZoneNames(zones[..i + 1]) == ZoneNames(zones[..i]) + [zones[i].name]
  {
  }

  /** How one more zone changes the record the source promises. */
  lemma ExpectedStep(zones: seq<Zone>, i: nat, n: string)
    requires i < |zones|
    ensures n != zones[i].name ==> Expected(zones[..i + 1], n) == Expected(zones[..i], n)
    ensures n == zones[i].name && Counted(zones[i]) ==> Expected(zones[..i + 1], n) == Some(Written(zones[i]))
    ensures n == zones[i].name && !Counted(zones[i]) && Expected(zones[..i], n).Some? ==>
      Expected(zones[..i + 1], n) == Some(Expected(zones[..i], n).value.(zoneType := zones[i].zoneType))
  {
    var p := zones[..i];
    var q := zones[..i + 1];
    NamesStep(zones, i);
    assert ZoneNames(q)[..i] == ZoneNames(p) && ZoneNames(q)[..i + 1] == ZoneNames(q);
    LastIndexStep(ZoneNames(q), i, n);
    assert q[..|q| - 1] == p;
    assert LastCounted(q, n) == if n == zones[i].name && Counted(zones[i]) then Some(i) else LastCounted(p, n);
    if LastCounted(p, n).Some? {
      assert q[LastCounted(p, n).value] == p[LastCounted(p, n).value];
    }
  }

  lemma FailsStep(zones: seq<Zone>, i: nat, before: Dict<ZoneCounts>)
    requires i < |zones| && Tallies(before, zones[..i]) && !CountFails(zones[..i]) && !FailsAt(zones, i)
    ensures !CountFails(zones[..i + 1])
  {
    var p := zones[..i];
    var q := zones[..i + 1];
    if CountFails(q) {
      var k :| 0 <= k < |q| && FailsAt(q, k);
      assert q[..k] == zones[..k];
      if k < i {
        assert p[..k] == zones[..k];
        assert FailsAt(p, k);
      }
    }
  }

  /** A name's record stands as the last zone of that name left it: when
      that zone is standard or peer, its own counts and type. */
  lemma LastZoneWins(zones: seq<Zone>, n: string, k: nat)
    requires k < |zones| && zones[k].name == n && Counted(zones[k])
    requires forall m :: k < m < |zones| ==> zones[m].name != n
    ensures Expected(zones, n) == Some(Written(zones[k]))
  {
    assert LastIndex(ZoneNames(zones), n) == Some(k);
  }

  /** A record exists for exactly the zone names, once each, when the loop
      completes. */
  lemma OneRecordPerName(counts: Dict<ZoneCounts>, zones: seq<Zone>)
    requires Tallies(counts, zones)
    ensures Distinct(counts.keys)
    ensures forall n :: n in counts.values <==> exists k :: 0 <= k < |zones| && zones[k].name == n
  {
    forall n | exists k :: 0 <= k < |zones| && zones[k].name == n ensures n in counts.values {
      var k :| 0 <= k < |zones| && zones[k].name == n;
      assert ZoneNames(zones)[k] == n;
    }
  }

  /** A zone of another type than 0 and 1 does not start a record: as the
      first zone of its name it makes the loop raise, and after a record
      exists it only changes that record's type. */
  lemma OtherTypeNeedsRecord(zones: seq<Zone>, z: Zone)
    requires !Counted(z) && z.name !in ZoneNames(zones)
    ensures CountFails(zones + [z])
  {
    var q := zones + [z];
    assert q[..|zones|] == zones;
    assert FailsAt(q, |zones|);
  }

  /** A peer zone needs both lists, with no presence test. */
  lemma PeerZoneNeedsBothLists(zones: seq<Zone>, k: nat)
    requires k < |zones| && zones[k].zoneType == 1
    requires zones[k].members.principalEntryNames.None? || zones[k].members.entryNames.None?
    ensures CountFails(zones)
  {
    assert FailsAt(zones, k);
  }

  /** How main starts: the usage exit (status 2), or the file it loads. */
  datatype MainStart = UsageExit | LoadFrom(file: string)

  /** main as written: fewer than two arguments print the usage and exit 2;
      otherwise the configuration comes from "foo.json" whatever file
      argv[1] names. */
  function MainConfigFile(argv: seq<string>): (r: MainStart)
    ensures r.UsageExit? <==> |argv| < 2
    ensures r.LoadFrom? ==> r.file == "foo.json"
  {
    if |argv| < 2 then UsageExit else LoadFrom("foo.json")
  }

  /** What the usage text promises: the same usage exit, then the file
      named by argv[1]. */
  function IntendedConfigFile(argv: seq<string>): (r: MainStart)
    ensures r.UsageExit? <==> |argv| < 2
    ensures r.LoadFrom? ==> r.file in argv && r.file == argv[1]
  {
    if |argv| < 2 then UsageExit else LoadFrom(argv[1])
  }

  /** Two runs that name different files read the same one; the intended
      reading tells them apart. Both readings agree on when usage is shown. */
  lemma ConfigArgumentIgnored(argv1: seq<string>, argv2: seq<string>)
    requires |argv1| >= 2 && |argv2| >= 2 && argv1[1] != argv2[1]
    ensures MainConfigFile(argv1) == MainConfigFile(argv2)
    ensures IntendedConfigFile(argv1) != IntendedConfigFile(argv2)
  {
  }
}
