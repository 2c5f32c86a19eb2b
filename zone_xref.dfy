/** buildAliasToZoneXref, as testXref.py and testSelectByPrefix.py both
    define it: for every name a zone lists, the sorted set of the zones
    that list it, each tagged with the role the name plays there. */
module ZoneXref {
  import opened Wrappers
  import opened Sorted
  import opened Zoning
  import opened AliasIndex

  /** The role of a member in a zone: a plain member of a standard zone
      (type 0), or a principal or non-principal member of a peer zone
      (type 1). */
  datatype Role = Member | Principal | NonPrincipal

  function RoleMark(role: Role): (m: string)
    ensures |m| == 3 && m[0] == '<' && m[2] == '>'
  {
    match role
    case Member => "<M>"
    case Principal => "<P>"
    case NonPrincipal => "<N>"
  }

  /** The entry recorded for a member: `"<M>" + zone`, `"<P>" + zone` or
      `"<N>" + zone`. */
  function Tag(role: Role, zone: string): (t: string)
    ensures |t| == |zone| + 3 && t[3..] == zone
  {
    RoleMark(role) + zone
  }

  datatype TaggedZone = TaggedZone(role: Role, zone: string)

  /** Reads an entry back into its role and zone name. */
  function ParseTag(t: string): (r: Option<TaggedZone>)
    ensures r.Some? ==> Tag(r.value.role, r.value.zone) == t
  {
    if |t| >= 3 && t[..3] == "<M>" then
      assert t == t[..3] + t[3..];
      Some(TaggedZone(Member, t[3..]))
    else if |t| >= 3 && t[..3] == "<P>" then
      assert t == t[..3] + t[3..];
      Some(TaggedZone(Principal, t[3..]))
    else if |t| >= 3 && t[..3] == "<N>" then
      assert t == t[..3] + t[3..];
      Some(TaggedZone(NonPrincipal, t[3..]))
    else None
  }

  /** Every entry reads back as the role and zone it was made from, so two
      entries are equal only when role and zone both are. */
  lemma ParseTagRoundTrip(role: Role, zone: string)
    ensures ParseTag(Tag(role, zone)) == Some(TaggedZone(role, zone))
  {
    var t := Tag(role, zone);
    assert t[..3] == RoleMark(role);
  }

  lemma TagInjective(r1: Role, z1: string, r2: Role, z2: string)
    ensures Tag(r1, z1) == Tag(r2, z2) <==> r1 == r2 && z1 == z2
  {
    ParseTagRoundTrip(r1, z1);
    ParseTagRoundTrip(r2, z2);
  }

  /** The entries one zone contributes for name j. Zones of any other
      type than 0 and 1 contribute nothing. */
  ghost function ZoneTags(z: Zone, j: string): set<string> {
    if z.zoneType == 0 then
      (if j in Listed(z.members.entryNames) then {Tag(Member, z.name)} else {})
    else if z.zoneType == 1 then
      (if j in Listed(z.members.principalEntryNames) then {Tag(Principal, z.name)} else {})
      + (if j in Listed(z.members.entryNames) then {Tag(NonPrincipal, z.name)} else {})
    else {}
  }

  /** aliasXref[j] as a set: the entries of every zone for j. */
  ghost function XrefTags(zones: seq<Zone>, j: string): set<string> {
    set z, t | z in zones && t in ZoneTags(z, j) :: t
  }

  /** The names one zone visits, in the order the loops visit them. */
  function ZoneVisits(z: Zone): seq<string> {
    if z.zoneType == 0 then Listed(z.members.entryNames)
    else if z.zoneType == 1 then Listed(z.members.principalEntryNames) + Listed(z.members.entryNames)
    else []
  }

  function Visits(zones: seq<Zone>): seq<string> {
    if zones == [] then [] else Visits(zones[..|zones| - 1]) + ZoneVisits(zones[|zones| - 1])
  }

  /** The lookup the loops would fail on: a standard zone without an
      `entry-name` list (there is no presence test for type 0). */
  predicate MissingEntryName(zones: seq<Zone>) {
    exists k :: 0 <= k < |zones| && zones[k].zoneType == 0 && zones[k].members.entryNames.None?
  }

  /** The entry list of key k, or the empty SortedSet a new key starts with. */
  function Entry(d: Dict<seq<string>>, k: string): seq<string> {
    if k in d.values then d.values[k] else []
  }

  ghost predicate SortedEntries(d: Dict<seq<string>>) {
    forall k :: k in d.values ==> StrictlySorted(d.values[k])
  }

  /** `aliasXref[k].add(tag)`, creating `aliasXref[k] = SortedSet()` first
      when k is new. */
  function AddTag(d: Dict<seq<string>>, k: string, tag: string): (r: Dict<seq<string>>)
    requires d.Valid() && SortedEntries(d)
    ensures r.Valid() && SortedEntries(r)
    ensures r.keys == if k in d.values then d.keys else d.keys + [k]
    ensures forall k', t :: t in Entry(r, k') <==> t in Entry(d, k') || (k' == k && t == tag)
  {
    var r := d.Put(k, Insert(Entry(d, k), tag));
    assert forall k' :: k' != k ==> Entry(r, k') == Entry(d, k');
    r
  }

  /** One inner loop: adds tag to the SortedSet of every name of ms. */
  method TagAll(x0: Dict<seq<string>>, ghost visited: seq<string>, ms: seq<string>, tag: string) returns (x: Dict<seq<string>>)
    requires x0.Valid() && x0.keys == Dedup(visited) && SortedEntries(x0)
    ensures x.Valid() && x.keys == Dedup(visited + ms) && SortedEntries(x)
    ensures forall k, t :: t in Entry(x, k) <==> t in Entry(x0, k) || (k in ms && t == tag)
  {
    x := x0;
    var j := 0;
    assert visited + ms[..0] == visited;
    while j < |ms|
      invariant 0 <= j <= |ms|
      invariant x.Valid() && x.keys == Dedup(visited + ms[..j]) && SortedEntries(x)
      invariant forall k, t :: t in Entry(x, k) <==> t in Entry(x0, k) || (k in ms[..j] && t == tag)
    {
      TagKeysStep(x, visited, ms, j, tag);
      TagEntriesStep(x0, x, ms, j, tag);
      x := AddTag(x, ms[j], tag);
      j := j + 1;
    }
    assert ms[..j] == ms;
  }

  lemma TagKeysStep(x: Dict<seq<string>>, visited: seq<string>, ms: seq<string>, j: nat, tag: string)
    requires j < |ms| && x.Valid() && x.keys == Dedup(visited + ms[..j]) && SortedEntries(x)
    ensures AddTag(x, ms[j], tag).keys == Dedup(visited + ms[..j + 1])
  {
    var s := visited + ms[..j + 1];
    assert s[..|s| - 1] == visited + ms[..j];
    assert s[|s| - 1] == ms[j];
  }

  lemma TagEntriesStep(x0: Dict<seq<string>>, x: Dict<seq<string>>, ms: seq<string>, j: nat, tag: string)
    requires j < |ms| && x.Valid() && SortedEntries(x)
    requires forall k, t :: t in Entry(x, k) <==> t in Entry(x0, k) || (k in ms[..j] && t == tag)
    ensures forall k, t :: t in Entry(AddTag(x, ms[j], tag), k) <==> t in Entry(x0, k) || (k in ms[..j + 1] && t == tag)
  {
    assert ms[..j + 1] == ms[..j] + [ms[j]];
  }

  /** The body of the outer loop for one zone whose lookups succeed. */
  method AddZone(x0: Dict<seq<string>>, ghost visited: seq<string>, z: Zone) returns (x: Dict<seq<string>>)
    requires x0.Valid() && x0.keys == Dedup(visited) && SortedEntries(x0)
    requires z.zoneType == 0 ==> z.members.entryNames.Some?
    ensures x.Valid() && x.keys == Dedup(visited + ZoneVisits(z)) && SortedEntries(x)
    ensures forall k, t :: t in Entry(x, k) <==> t in Entry(x0, k) || t in ZoneTags(z, k)
  {
    if z.zoneType == 0 {
      assert ZoneVisits(z) == z.members.entryNames.value;
      x := TagAll(x0, visited, z.members.entryNames.value, Tag(Member, z.name));
    } else if z.zoneType == 1 {
      var ps := Listed(z.members.principalEntryNames);
      var es := Listed(z.members.entryNames);
      assert ZoneVisits(z) == ps + es;
      assert visited + ZoneVisits(z) == (visited + ps) + es;
      x := TagAll(x0, visited, ps, Tag(Principal, z.name));
      x := TagAll(x, visited + ps, es, Tag(NonPrincipal, z.name));
    } else {
      x := x0;
      assert visited + ZoneVisits(z) == visited;
    }
  }

  /** The dictionary holds, for every name, exactly the entries of zones. */
  ghost predicate Mirrors(x: Dict<seq<string>>, zones: seq<Zone>) {
    x.Valid() && x.keys == Dedup(Visits(zones)) && SortedEntries(x)
    && forall j, t :: t in Entry(x, j) <==> t in XrefTags(zones, j)
  }

  method BuildAliasToZoneXref(zones: seq<Zone>) returns (r: Option<Dict<seq<string>>>)
    ensures r.None? <==> MissingEntryName(zones)
    ensures r.Some? ==> Mirrors(r.value, zones)
  {
    var xref := EmptyDict();
    var i := 0;
    while i < |zones|
      invariant 0 <= i <= |zones|
      invariant !MissingEntryName(zones[..i])
      invariant Mirrors(xref, zones[..i])
    {
      var z := zones[i];
      if z.zoneType == 0 && z.members.entryNames.None? {
        MissingAt(zones, i);
        return None;
      }
      ghost var before := xref;
      xref := AddZone(xref, Visits(zones[..i]), z);
      MirrorsStep(before, xref, zones, i);
      i := i + 1;
    }
    assert zones[..i] == zones;
    r := Some(xref);
  }

  lemma MissingAt(zones: seq<Zone>, i: nat)
    requires i < |zones| && zones[i].zoneType == 0 && zones[i].members.entryNames.None?
    ensures MissingEntryName(zones)
  {
  }

  lemma MirrorsStep(x0: Dict<seq<string>>, x: Dict<seq<string>>, zones: seq<Zone>, i: nat)
    requires i < |zones| && Mirrors(x0, zones[..i]) && !MissingEntryName(zones[..i])
    requires zones[i].zoneType == 0 ==> zones[i].members.entryNames.Some?
    requires x.Valid() && x.keys == Dedup(Visits(zones[..i]) + ZoneVisits(zones[i])) && SortedEntries(x)
    requires forall k, t :: t in Entry(x, k) <==> t in Entry(x0, k) || t in ZoneTags(zones[i], k)
    ensures Mirrors(x, zones[..i + 1]) && !MissingEntryName(zones[..i + 1])
  {
    XrefStep(zones, i);
  }

  /** Adding one zone adds its own entries and its names, in loop order. */
  lemma XrefStep(zones: seq<Zone>, i: nat)
    requires i < |zones|
    ensures forall j :: XrefTags(zones[..i + 1], j) == XrefTags(zones[..i], j) + ZoneTags(zones[i], j)
    ensures Visits(zones[..i + 1]) == Visits(zones[..i]) + ZoneVisits(zones[i])
    ensures MissingEntryName(zones[..i + 1]) <==> MissingEntryName(zones[..i]) || (zones[i].zoneType == 0 && zones[i].members.entryNames.None?)
  {
    var p := zones[..i];
    var q := zones[..i + 1];
    assert q == p + [zones[i]];
    assert q[..|q| - 1] == p;
    forall j ensures XrefTags(q, j) == XrefTags(p, j) + ZoneTags(zones[i], j) {
      forall t | t in XrefTags(q, j) ensures t in XrefTags(p, j) + ZoneTags(zones[i], j) {
        var z :| z in q && t in ZoneTags(z, j);
        if z != zones[i] { assert z in p; }
      }
      forall t | t in ZoneTags(zones[i], j) ensures t in XrefTags(q, j) {
        assert zones[i] in q;
      }
      forall t | t in XrefTags(p, j) ensures t in XrefTags(q, j) {
        var z :| z in p && t in ZoneTags(z, j);
        assert z in q;
      }
    }
    if MissingEntryName(q) {
      var k :| 0 <= k < |q| && q[k].zoneType == 0 && q[k].members.entryNames.None?;
      if k < i { assert p[k] == q[k]; }
    }
    if MissingEntryName(p) {
      var k :| 0 <= k < |p| && p[k].zoneType == 0 && p[k].members.entryNames.None?;
      assert q[k] == p[k];
    }
  }

  /** Whether zone z lists name j in the member list that role reads. */
  predicate Plays(z: Zone, j: string, role: Role) {
    match role
    case Member => z.zoneType == 0 && j in Listed(z.members.entryNames)
    case Principal => z.zoneType == 1 && j in Listed(z.members.principalEntryNames)
    case NonPrincipal => z.zoneType == 1 && j in Listed(z.members.entryNames)
  }

  /** Exact characterisation: an entry of name j reads back as a role and a
      zone name, and some zone of that name lists j in the role's list;
      conversely every such zone leaves its entry. */
  lemma XrefEntryIff(zones: seq<Zone>, j: string, t: string)
    ensures t in XrefTags(zones, j) <==>
      ParseTag(t).Some? && exists z :: z in zones && z.name == ParseTag(t).value.zone && Plays(z, j, ParseTag(t).value.role)
  {
    if t in XrefTags(zones, j) {
      var z :| z in zones && t in ZoneTags(z, j);
      var role :| role in {Member, Principal, NonPrincipal} && t == Tag(role, z.name) && Plays(z, j, role);
      ParseTagRoundTrip(role, z.name);
    }
    if ParseTag(t).Some? {
      var tz := ParseTag(t).value;
      if z :| z in zones && z.name == tz.zone && Plays(z, j, tz.role) {
        assert t == Tag(tz.role, z.name);
        assert t in ZoneTags(z, j);
      }
    }
  }

  /** A name gets an entry list exactly when some zone lists it in a role. */
  lemma {:induction false} VisitedIffTagged(zones: seq<Zone>, j: string)
    ensures j in Visits(zones) <==> XrefTags(zones, j) != {}
    decreases |zones|
  {
    if zones != [] {
      var i := |zones| - 1;
      assert zones[..i + 1] == zones;
      XrefStep(zones, i);
      VisitedIffTagged(zones[..i], j);
    } else {
      assert XrefTags(zones, j) == {};
    }
  }

  /** The keys are the names some zone lists, each once, in the order the
      loops first meet them; every key's entry set is non-empty, sorted and
      free of duplicates. */
  lemma XrefKeysAndValues(x: Dict<seq<string>>, zones: seq<Zone>)
    requires Mirrors(x, zones)
    ensures Distinct(x.keys)
    ensures forall j :: j in x.keys <==> exists role, z :: z in zones && Plays(z, j, role)
    ensures forall j :: j in x.values ==> x.values[j] != [] && StrictlySorted(x.values[j])
  {
    forall j ensures j in x.keys <==> exists role, z :: z in zones && Plays(z, j, role) {
      VisitedIffTagged(zones, j);
      if j in x.keys {
        var t :| t in XrefTags(zones, j);
        XrefEntryIff(zones, j, t);
      }
      if role, z :| z in zones && Plays(z, j, role) {
        XrefEntryIff(zones, j, Tag(role, z.name));
        ParseTagRoundTrip(role, z.name);
      }
    }
    forall j | j in x.values ensures x.values[j] != [] {
      VisitedIffTagged(zones, j);
      var t :| t in XrefTags(zones, j);
      assert t in Entry(x, j);
    }
  }

  /** Zones of a type other than 0 and 1 leave the cross-reference as it
      was, keys and entries alike. */
  lemma OtherTypesIgnored(zones: seq<Zone>, z: Zone, j: string)
    requires z.zoneType != 0 && z.zoneType != 1
    ensures XrefTags(zones + [z], j) == XrefTags(zones, j)
    ensures Visits(zones + [z]) == Visits(zones)
    ensures MissingEntryName(zones + [z]) <==> MissingEntryName(zones)
  {
    var q := zones + [z];
    assert q[..|zones|] == zones;
    XrefStep(q, |zones|);
    assert q[..|zones| + 1] == q;
  }
}
