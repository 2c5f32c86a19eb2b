/** testSelectByPrefix.py: the names of the zone cross-reference that start
    with a prefix, as a SortedList. */
module SelectByPrefix {
  import opened Wrappers
  import opened Sorted
  import opened Zoning
  import opened ZoneXref

  /** `[s for s in names if s.startswith(prefix)]`, keeping the order. */
  function StartingWith(names: seq<string>, prefix: string): (r: seq<string>)
    ensures |r| <= |names|
    ensures forall s :: s in r <==> s in names && prefix <= s
  {
    if names == [] then []
    else
      var rest := StartingWith(names[1..], prefix);
      assert names == [names[0]] + names[1..];
      if prefix <= names[0] then [names[0]] + rest else rest
  }

  lemma {:induction false} StartingWithDistinct(names: seq<string>, prefix: string)
    requires Distinct(names)
    ensures Distinct(StartingWith(names, prefix))
    decreases |names|
  {
    if names != [] {
      assert Distinct(names[1..]) by {
        forall i, j | 0 <= i < j < |names[1..]| ensures names[1..][i] != names[1..][j] {
          assert names[1..][i] == names[i + 1] && names[1..][j] == names[j + 1];
        }
      }
      StartingWithDistinct(names[1..], prefix);
      assert names[0] !in names[1..] by {
        forall k | 0 <= k < |names[1..]| ensures names[1..][k] != names[0] {
          assert names[1..][k] == names[k + 1];
        }
      }
    }
  }

  /** `SortedList(...)` of the names that start with prefix. */
  function Select(names: seq<string>, prefix: string): seq<string> {
    SortList(StartingWith(names, prefix))
  }

  /** Over distinct names (dictionary keys) the selection is ascending,
      free of duplicates, and holds exactly the names with the prefix. */
  lemma SelectSpec(names: seq<string>, prefix: string)
    requires Distinct(names)
    ensures StrictlySorted(Select(names, prefix))
    ensures forall s :: s in Select(names, prefix) <==> s in names && prefix <= s
  {
    StartingWithDistinct(names, prefix);
    SortListOfDistinct(StartingWith(names, prefix));
  }

  /** Every name starts with the empty prefix, so it selects all of them. */
  lemma EmptyPrefixSelectsAll(names: seq<string>)
    requires Distinct(names)
    ensures |Select(names, "")| == |names|
    ensures forall s :: s in Select(names, "") <==> s in names
  {
    SelectSpec(names, "");
    assert StartingWith(names, "") == names by {
      StartingWithAll(names);
    }
    assert |multiset(Select(names, ""))| == |multiset(names)|;
  }

  lemma {:induction false} StartingWithAll(names: seq<string>)
    ensures StartingWith(names, "") == names
    decreases |names|
  {
    if names != [] {
      StartingWithAll(names[1..]);
      assert names == [names[0]] + names[1..];
    }
  }

  /** How a run of the script ends. */
  datatype SelectRun =
      /** No configuration file argument: usage text and exit 2. */
    | Usage
      /** A standard zone without `entry-name`: the lookup raises. */
    | XrefFailed
      /** No prefix argument: the `argv[2]` lookup raises. */
    | MissingPrefix
      /** The names printed, one per line. */
    | Selected(names: seq<string>)

  /** The flow of main(argv) once the cross-reference is built (or failed
      to build): the usage test is `len(argv) < 2`, yet argv[2] is read. */
  function Outcome(argv: seq<string>, xref: Option<Dict<seq<string>>>): (r: SelectRun)
    ensures r.Usage? <==> |argv| < 2
    ensures r.XrefFailed? <==> |argv| >= 2 && xref.None?
    ensures r.MissingPrefix? <==> |argv| == 2 && xref.Some?
    ensures r.Selected? ==> |argv| >= 3 && xref.Some? && r.names == Select(xref.value.keys, argv[2])
  {
    if |argv| < 2 then Usage
    else if xref.None? then XrefFailed
    else if |argv| < 3 then MissingPrefix
    else Selected(Select(xref.value.keys, argv[2]))
  }

  /** The usage test main evidently means: both arguments present. */
  function CheckedOutcome(argv: seq<string>, xref: Option<Dict<seq<string>>>): (r: SelectRun)
    ensures r.Usage? <==> |argv| < 3
    ensures r.XrefFailed? <==> |argv| >= 3 && xref.None?
    ensures !r.MissingPrefix?
    ensures r.Selected? ==> xref.Some? && r.names == Select(xref.value.keys, argv[2])
  {
    if |argv| < 3 then Usage
    else if xref.None? then XrefFailed
    else Selected(Select(xref.value.keys, argv[2]))
  }

  /** Given only the configuration file, main raises on argv[2] where the
      usage text was meant to be printed. */
  lemma ConfigOnlyRaises(xref: Dict<seq<string>>)
    ensures Outcome(["testSelectByPrefix.py", "config.json"], Some(xref)) == MissingPrefix
    ensures CheckedOutcome(["testSelectByPrefix.py", "config.json"], Some(xref)) == Usage
  {
  }

  /** main(argv) once the configuration named by argv[1] is loaded as zones. */
  method RunSelect(argv: seq<string>, zones: seq<Zone>) returns (r: SelectRun)
    ensures r.Usage? <==> |argv| < 2
    ensures r.XrefFailed? <==> |argv| >= 2 && MissingEntryName(zones)
    ensures r.MissingPrefix? <==> |argv| == 2 && !MissingEntryName(zones)
    ensures r.Selected? ==> |argv| >= 3 && StrictlySorted(r.names)
    ensures r.Selected? ==> forall s :: s in r.names <==>
      argv[2] <= s && exists role, z :: z in zones && Plays(z, s, role)
  {
    var xref := None;
    if |argv| >= 2 {
      xref := BuildAliasToZoneXref(zones);
      if xref.Some? {
        XrefKeysAndValues(xref.value, zones);
        if |argv| >= 3 {
          SelectSpec(xref.value.keys, argv[2]);
        }
      }
    }
    r := Outcome(argv, xref);
  }
}
