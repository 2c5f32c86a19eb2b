/** wwnsToAliases.py: turns a file of WWNs into the sorted list of the
    aliases that name them, refusing malformed or unaliased WWNs. The
    alias and WWN indexes are the ones of module AliasIndex. */
module WwnsToAliases {
  import opened Sorted
  import opened Text
  import opened Zoning
  import opened WwnFormat
  import opened AliasIndex

  /** The stripped lines of the file that are not blank. */
  ghost function NonBlankLines(lines: seq<string>): set<string> {
    set l | l in lines && Strip(l) != "" :: Strip(l)
  }

  /** getSetFromFile: a SortedSet of the stripped lines, blank ones skipped. */
  method GetSetFromFile(lines: seq<string>) returns (fileSet: seq<string>)
    ensures StrictlySorted(fileSet)
    ensures forall e :: e in fileSet <==> e in NonBlankLines(lines)
  {
    fileSet := [];
    var i := 0;
    while i < |lines|
      invariant 0 <= i <= |lines|
      invariant StrictlySorted(fileSet)
      invariant forall e :: e in fileSet <==> e in NonBlankLines(lines[..i])
    {
      assert lines[..i + 1] == lines[..i] + [lines[i]];
      var entry := Strip(lines[i]);
      if |entry| > 0 {
        fileSet := Insert(fileSet, entry);
      }
      i := i + 1;
    }
    assert lines[..i] == lines;
  }

  /** A line lands in the set exactly when it is not all whitespace, and
      no entry is empty or padded with whitespace. */
  lemma NonBlankLinesEntries(lines: seq<string>, e: string)
    ensures e in NonBlankLines(lines) <==> exists l :: l in lines && !AllSpace(l) && Strip(l) == e
    ensures e in NonBlankLines(lines) ==> e != [] && !IsSpace(e[0]) && !IsSpace(e[|e| - 1])
  {
  }

  /** How a run of wwnsToAliases.py ends. */
  datatype WwnsReport =
      /** Check 1 failed: entries that contain no WWN (exit 2). */
    | NonWwnEntries(bad: set<string>)
      /** Check 2 failed: WWNs no alias lists (exit 2, nothing printed). */
    | UnaliasedWwns(missing: set<string>)
      /** The aliases to print, in order. */
    | AliasesFound(aliases: seq<string>)

  /** The decision of main, given the WWN entries and the lookup table. */
  ghost function Decide(entries: set<string>, w: map<string, seq<string>>): (r: WwnsReport)
    ensures r.NonWwnEntries? <==> exists e :: e in entries && !ContainsWwn(e)
    ensures r.UnaliasedWwns? <==> (forall e :: e in entries ==> ContainsWwn(e)) && !(entries <= w.Keys)
  {
    var bad := set e | e in entries && !ContainsWwn(e);
    if bad != {} then NonWwnEntries(bad)
    else
      assert forall e :: e in entries ==> e !in bad;
      if entries - w.Keys != {} then UnaliasedWwns(entries - w.Keys)
    else AliasesFound(SortedSetOf(AliasesFor(w, entries)))
  }

  ghost function Outcome(defined: DefinedConfiguration, wwnLines: seq<string>): WwnsReport {
    Decide(NonBlankLines(wwnLines), WwnTable(AliasTable(defined.aliases)))
  }

  /** main after the arguments are parsed and the files read. */
  method Run(defined: DefinedConfiguration, wwnLines: seq<string>) returns (r: WwnsReport)
    ensures r == Outcome(defined, wwnLines)
  {
    var wwnList := GetSetFromFile(wwnLines);
    var aliasTable := BuildAliasToWwn(defined.aliases);
    var wwnLookupTable := FlipAliasToWwn(aliasTable);
    var entries := set e | e in wwnList;
    assert entries == NonBlankLines(wwnLines);

    // Check 1
    var bad := FindMalformed(entries);
    if bad != {} {
      return NonWwnEntries(bad);
    }

    // Check 2
    var notFound := entries - wwnLookupTable.Keys;
    if notFound != {} {
      return UnaliasedWwns(notFound);
    }

    var aliasesFound := GetAliasesFromWwns(wwnLookupTable, entries);
    StrictlySortedUnique(aliasesFound, SortedSetOf(AliasesFor(wwnLookupTable, entries)));
    r := AliasesFound(aliasesFound);
  }

  /** The run prints aliases only when every WWN is well formed and listed
      by some alias; the list printed is sorted, holds each alias once, is
      exactly the aliases listing one of the WWNs, and every WWN of the
      file contributes at least one of them. */
  lemma AliasesCoverEveryWwn(defined: DefinedConfiguration, wwnLines: seq<string>)
    ensures var t := AliasTable(defined.aliases);
      var r := Outcome(defined, wwnLines);
      r.AliasesFound? <==>
        forall x :: x in NonBlankLines(wwnLines) ==> ContainsWwn(x) && exists a :: a in t.values && x in t.values[a]
    ensures var t := AliasTable(defined.aliases);
      var r := Outcome(defined, wwnLines);
      r.AliasesFound? ==>
        && StrictlySorted(r.aliases)
        && (forall a :: a in r.aliases <==> a in t.values && exists x :: x in NonBlankLines(wwnLines) && x in t.values[a])
        && (forall x :: x in NonBlankLines(wwnLines) ==> exists a :: a in r.aliases && x in t.values[a])
  {
    var t := AliasTable(defined.aliases);
    var entries, w := NonBlankLines(wwnLines), WwnTable(t);
    WwnTableInverts(t);
    DecideAccepts(entries, t, w);
    if Decide(entries, w).AliasesFound? {
      FoundAliases(entries, t, w, Decide(entries, w).aliases);
    }
  }

  /** Decide finds aliases exactly when every entry is a WWN some alias
      lists, and then every entry has an entry in w. */
  lemma DecideAccepts(entries: set<string>, t: Dict<seq<string>>, w: map<string, seq<string>>)
    requires IsInverse(t, w)
    ensures var r := Decide(entries, w);
      r.AliasesFound? <==>
        forall x :: x in entries ==> ContainsWwn(x) && exists a :: a in t.values && x in t.values[a]
    ensures Decide(entries, w).AliasesFound? ==>
      entries <= w.Keys && Decide(entries, w).aliases == SortedSetOf(AliasesFor(w, entries))
  {
    var bad := set e | e in entries && !ContainsWwn(e);
    if bad != {} {
      var e :| e in bad;
      assert e in entries && !ContainsWwn(e);
    } else if entries - w.Keys != {} {
      var x :| x in entries - w.Keys;
      assert x in entries && x !in w;
    } else {
      forall x | x in entries ensures ContainsWwn(x) && x in w {
        assert x !in bad;
        assert x !in entries - w.Keys;
      }
      ListedEntries(entries, t, w);
    }
  }

  lemma ListedEntries(entries: set<string>, t: Dict<seq<string>>, w: map<string, seq<string>>)
    requires IsInverse(t, w) && entries <= w.Keys
    ensures forall x :: x in entries ==> exists a :: a in t.values && x in t.values[a]
  {
    forall x | x in entries ensures exists a :: a in t.values && x in t.values[a] {
      assert w[x] != [];
      var a := w[x][0];
      assert a in w[x];
      assert a in t.values && x in t.values[a];
    }
  }

  lemma FoundAliases(entries: set<string>, t: Dict<seq<string>>, w: map<string, seq<string>>, aliases: seq<string>)
    requires IsInverse(t, w)
    requires entries <= w.Keys
    requires aliases == SortedSetOf(AliasesFor(w, entries))
    ensures StrictlySorted(aliases)
    ensures forall a :: a in aliases <==> a in t.values && exists x :: x in entries && x in t.values[a]
    ensures forall x :: x in entries ==> exists a :: a in aliases && x in t.values[a]
  {
    forall a ensures a in aliases <==> a in t.values && exists x :: x in entries && x in t.values[a] {
      FoundAlias(entries, t, w, a);
    }
    forall x | x in entries ensures exists a :: a in aliases && x in t.values[a] {
      assert w[x] != [] && w[x][0] in w[x];
      var a := w[x][0];
      assert a in t.values && x in t.values[a];
      assert a in AliasesFor(w, entries);
    }
  }

  lemma FoundAlias(entries: set<string>, t: Dict<seq<string>>, w: map<string, seq<string>>, a: string)
    requires IsInverse(t, w)
    ensures a in AliasesFor(w, entries) <==> a in t.values && exists x :: x in entries && x in t.values[a]
  {
    if a in AliasesFor(w, entries) {
      var x :| x in entries && x in w && a in w[x];
      assert a in t.values && x in t.values[a];
    }
    if x :| x in entries && a in t.values && x in t.values[a] {
      assert x in w && a in w[x];
      assert a in AliasesFor(w, entries);
    }
  }

  /** Check 1 ends the run before the alias check is reached. */
  lemma MalformedStopsBeforeAliasCheck(defined: DefinedConfiguration, wwnLines: seq<string>, k: nat)
    requires k < |wwnLines| && !AllSpace(wwnLines[k]) && !ContainsWwn(Strip(wwnLines[k]))
    ensures Outcome(defined, wwnLines).NonWwnEntries?
  {
    assert Strip(wwnLines[k]) in NonBlankLines(wwnLines);
    MalformedDecided(NonBlankLines(wwnLines), WwnTable(AliasTable(defined.aliases)), Strip(wwnLines[k]));
  }

  lemma MalformedDecided(entries: set<string>, w: map<string, seq<string>>, e: string)
    requires e in entries && !ContainsWwn(e)
    ensures Decide(entries, w).NonWwnEntries? && e in Decide(entries, w).bad
  {
    var bad := set y | y in entries && !ContainsWwn(y);
    assert e in bad;
    assert Decide(entries, w) == NonWwnEntries(bad);
  }

  /** Blank lines are skipped: appending whitespace-only lines to the file
      changes nothing in the outcome. */
  lemma BlankLinesIgnored(defined: DefinedConfiguration, wwnLines: seq<string>, blanks: seq<string>)
    requires forall l :: l in blanks ==> AllSpace(l)
    ensures Outcome(defined, wwnLines + blanks) == Outcome(defined, wwnLines)
  {
    assert NonBlankLines(wwnLines + blanks) == NonBlankLines(wwnLines);
  }
}
