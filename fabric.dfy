/** What the scripts send to the switch, as values: the REST resource a
    zoning object lives at, the snapshot restored into it, the calls issued
    and how each script reads the status code a call returns. */
module Fabric {
  import opened Wrappers
  import opened Zoning

  /** The three kinds of object of the defined configuration. */
  datatype Namespace = AliasSpace | ZoneSpace | CfgSpace

  function UriPrefix(kind: Namespace): (p: string)
    ensures |p| > 0
  {
    match kind
    case AliasSpace => "alias/alias-name/"
    case ZoneSpace => "zone/zone-name/"
    case CfgSpace => "cfg/cfg-name/"
  }

  /** The object's resource below `defined-configuration/`. */
  function Uri(kind: Namespace, name: string): (uri: string)
    ensures |uri| == |UriPrefix(kind)| + |name| && uri[|UriPrefix(kind)|..] == name
  {
    UriPrefix(kind) + name
  }

  datatype Located = Located(kind: Namespace, name: string)

  /** Reads a resource back into the object kind and name. */
  function ParseUri(uri: string): (r: Option<Located>)
    ensures r.Some? ==> Uri(r.value.kind, r.value.name) == uri
  {
    if UriPrefix(AliasSpace) <= uri then
      assert uri == UriPrefix(AliasSpace) + uri[|UriPrefix(AliasSpace)|..];
      Some(Located(AliasSpace, uri[|UriPrefix(AliasSpace)|..]))
    else if UriPrefix(ZoneSpace) <= uri then
      assert uri == UriPrefix(ZoneSpace) + uri[|UriPrefix(ZoneSpace)|..];
      Some(Located(ZoneSpace, uri[|UriPrefix(ZoneSpace)|..]))
    else if UriPrefix(CfgSpace) <= uri then
      assert uri == UriPrefix(CfgSpace) + uri[|UriPrefix(CfgSpace)|..];
      Some(Located(CfgSpace, uri[|UriPrefix(CfgSpace)|..]))
    else None
  }

  /** Distinct objects live at distinct resources: every resource reads
      back as the kind and name it was built from. */
  lemma UriRoundTrip(kind: Namespace, name: string)
    ensures ParseUri(Uri(kind, name)) == Some(Located(kind, name))
  {
    var uri := Uri(kind, name);
    assert uri[..|UriPrefix(kind)|] == UriPrefix(kind);
    assert uri[0] == UriPrefix(kind)[0];
  }

  lemma UriInjective(k1: Namespace, n1: string, k2: Namespace, n2: string)
    ensures Uri(k1, n1) == Uri(k2, n2) <==> k1 == k2 && n1 == n2
  {
    UriRoundTrip(k1, n1);
    UriRoundTrip(k2, n2);
  }

  /** The body a restore posts: the fields kept of the saved record. */
  datatype Payload =
    | AliasPayload(aliasMembers: seq<string>)
    | ZonePayload(members: MemberEntry, zoneType: int)
    | CfgPayload(memberZones: seq<string>)

  /** The calls of a run, in the order issued (login and logout aside). */
  datatype FabricCall =
    | GetEffective
    | GetDefined
    | Delete(uri: string)
    | Create(uri: string, payload: Payload)
    | Save(checksum: string)

  /** deleteZoneObject reports an error unless the switch answers 204 (No
      Content) or 400, the answer for an object that is not there. */
  predicate ObjectDeleteReported(status: int) {
    status != 204 && status != 400
  }

  /** createZoneObject reports an error unless the answer is 201 (Created). */
  predicate CreateReported(status: int) {
    status != 201
  }

  /** saveConfiguration reports an error for any answer of 300 or more. */
  predicate SaveReported(status: int) {
    status >= 300
  }

  /** dryrun's deleteAlias and deleteZone report anything but 204. */
  predicate NamedDeleteReported(status: int) {
    status != 204
  }

  /** The two delete readings differ only at 400, an object already gone:
      silent for the restore and batch scripts, reported by the dry run.
      Every status a create accepts a save accepts too, not conversely. */
  lemma StatusReadings()
    ensures !ObjectDeleteReported(400) && NamedDeleteReported(400)
    ensures forall s :: NamedDeleteReported(s) <==> ObjectDeleteReported(s) || s == 400
    ensures CreateReported(200) && !SaveReported(200)
    ensures forall s :: !CreateReported(s) ==> !SaveReported(s)
  {
  }
}
