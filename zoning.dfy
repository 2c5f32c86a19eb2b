module Wrappers {
  datatype Option<+T> = None | Some(value: T)
}

/** The parsed zoning documents every script works on: the defined
    configuration (aliases, zones, cfgs), the effective configuration
    (enabled zones and checksum), Python's insertion-ordered dict, and the
    "Response" envelope the loaders strip. */
module Zoning {
  import opened Wrappers
  import opened Sorted

  /** An alias record: `alias-name` and `member-entry.alias-entry-name`. */
  datatype Alias = Alias(name: string, members: seq<string>)

  /** A zone's `member-entry`: either list may be missing from the document. */
  datatype MemberEntry = MemberEntry(entryNames: Option<seq<string>>, principalEntryNames: Option<seq<string>>)

  /** A zone record: `zone-name`, `zone-type` (0 standard, 1 peer, others
      possible) and `member-entry`. Enabled zones of the effective
      configuration have the same shape. */
  datatype Zone = Zone(name: string, zoneType: int, members: MemberEntry)

  /** A cfg record: `cfg-name` and `member-zone`. */
  datatype Cfg = Cfg(name: string, memberZones: seq<string>)

  /** The entries of a member list that may be missing: a missing list
      contributes nothing. */
  function Listed(o: Option<seq<string>>): seq<string> {
    if o.Some? then o.value else []
  }

  /** Everything a zone lists: its `entry-name` entries, then its
      `principal-entry-name` entries, either possibly missing. */
  function ZoneMembers(z: Zone): (r: seq<string>)
    ensures forall x :: x in r <==> x in Listed(z.members.entryNames) || x in Listed(z.members.principalEntryNames)
  {
    Listed(z.members.entryNames) + Listed(z.members.principalEntryNames)
  }

  datatype DefinedConfiguration = DefinedConfiguration(aliases: seq<Alias>, zones: seq<Zone>, cfgs: seq<Cfg>)

  datatype EffectiveConfiguration = EffectiveConfiguration(enabledZones: seq<Zone>, checksum: string)

  function AliasNames(aliases: seq<Alias>): (r: seq<string>)
    ensures |r| == |aliases| && forall k :: 0 <= k < |aliases| ==> r[k] == aliases[k].name
  {
    seq(|aliases|, k requires 0 <= k < |aliases| => aliases[k].name)
  }

  function ZoneNames(zones: seq<Zone>): (r: seq<string>)
    ensures |r| == |zones| && forall k :: 0 <= k < |zones| ==> r[k] == zones[k].name
  {
    seq(|zones|, k requires 0 <= k < |zones| => zones[k].name)
  }

  function CfgNames(cfgs: seq<Cfg>): (r: seq<string>)
    ensures |r| == |cfgs| && forall k :: 0 <= k < |cfgs| ==> r[k] == cfgs[k].name
  {
    seq(|cfgs|, k requires 0 <= k < |cfgs| => cfgs[k].name)
  }

  /** The position of the last record named n: the one whose fields a
      Python dict keeps when `d[name] = ...` runs once per record. */
  function LastIndex(names: seq<string>, n: string): (r: Option<nat>)
    ensures r.Some? ==> r.value < |names| && names[r.value] == n
    ensures r.Some? ==> forall k :: r.value < k < |names| ==> names[k] != n
    ensures r.None? <==> n !in names
  {
    if names == [] then None
    else if names[|names| - 1] == n then Some(|names| - 1)
    else
      var r := LastIndex(names[..|names| - 1], n);
      assert names == names[..|names| - 1] + [names[|names| - 1]];
      r
  }

  lemma LastIndexStep(names: seq<string>, i: nat, n: string)
    requires i < |names|
    ensures LastIndex(names[..i + 1], n) == if names[i] == n then Some(i) else LastIndex(names[..i], n)
  {
    assert names[..i + 1][..i] == names[..i];
  }

  /** A Python dict with string keys: `keys` is the insertion order. */
  datatype Dict<V> = Dict(keys: seq<string>, values: map<string, V>) {

    ghost predicate Valid() {
      Distinct(keys) && forall k :: k in values <==> k in keys
    }

    /** `d[k] = v`: a new key goes to the end, an existing key keeps its place. */
    function Put(k: string, v: V): (d: Dict<V>)
      requires Valid()
      ensures d.Valid()
      ensures d.values == values[k := v]
      ensures d.keys == if k in values then keys else keys + [k]
    {
      if k in values then Dict(keys, values[k := v]) else Dict(keys + [k], values[k := v])
    }
  }

  function EmptyDict<V>(): (d: Dict<V>)
    ensures d.Valid() && d.keys == [] && d.values == map[]
  {
    Dict([], map[])
  }

  /** Just enough of a JSON value to state what the loaders do with it. */
  datatype Json =
    | JNull
    | JBool(b: bool)
    | JNumber(n: int)
    | JString(s: string)
    | JArray(items: seq<Json>)
    | JObject(fields: map<string, Json>)

  /** getConfigurationFromFile after json.load: the value under a top-level
      "Response" key if there is one, else the document itself. Asking a
      non-object for `.keys()` raises, which is the None case. */
  function UnwrapResponse(doc: Json): Option<Json> {
    match doc
    case JObject(fields) => if "Response" in fields then Some(fields["Response"]) else Some(doc)
    case _ => None
  }

  /** The switch wraps what it returns in a "Response" envelope; loading a
      saved reply gives back the configuration inside, and loading an
      unwrapped configuration gives it back unchanged. */
  lemma UnwrapResponseRoundTrip(body: map<string, Json>)
    requires "Response" !in body
    ensures UnwrapResponse(JObject(map["Response" := JObject(body)])) == Some(JObject(body))
    ensures UnwrapResponse(JObject(body)) == Some(JObject(body))
  {
  }
}
