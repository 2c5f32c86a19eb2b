/** The alias and WWN indexes: buildAliasToWwn and flipAliastoWWN, of
    which checks.py, wwnsToAliases.py and dryrun.py each carry the same
    copy, and getAliasesFromWwns, of which checks.py and wwnsToAliases.py
    carry the same copy. */
module AliasIndex {
  import opened Wrappers
  import opened Sorted
  import opened Zoning

  /** The names of s in order of first occurrence: the key order of a dict
      filled by `d[name] = ...` once per name of s. */
  function Dedup(s: seq<string>): (r: seq<string>)
    ensures Distinct(r)
    ensures forall x :: x in r <==> x in s
  {
    if s == [] then []
    else
      var p := Dedup(s[..|s| - 1]);
      assert s == s[..|s| - 1] + [s[|s| - 1]];
      if s[|s| - 1] in p then p else p + [s[|s| - 1]]
  }

  /** One more name: a new key goes to the end, a repeat changes nothing. */
  lemma DedupSnoc(s: seq<string>, x: string)
    ensures Dedup(s + [x]) == if x in s then Dedup(s) else Dedup(s) + [x]
  {
    assert (s + [x])[..|s + [x]| - 1] == s;
  }

  /** a occurs in s before the first occurrence of b. */
  ghost predicate OccursBefore(s: seq<string>, a: string, b: string) {
    exists k :: 0 <= k < |s| && s[k] == a && b !in s[..k + 1]
  }

  /** Dedup keeps first-occurrence order: a name comes before another in
      Dedup(s) exactly when it first occurs in s before the other does. */
  lemma {:induction false} DedupKeepsFirstOccurrenceOrder(s: seq<string>, i: nat, j: nat)
    requires i < |Dedup(s)| && j < |Dedup(s)| && i != j
    ensures i < j <==> OccursBefore(s, Dedup(s)[i], Dedup(s)[j])
    decreases |s|
  {
    var p := s[..|s| - 1];
    var x := s[|s| - 1];
    assert s == p + [x];
    DedupSnoc(p, x);
    var r := Dedup(s);
    var a, b := r[i], r[j];
    if i < |Dedup(p)| && j < |Dedup(p)| {
      DedupKeepsFirstOccurrenceOrder(p, i, j);
      OccursBeforeSnoc(p, x, a, b);
      OccursBeforeSnoc(p, x, b, a);
      if i > j {
        DedupKeepsFirstOccurrenceOrder(p, j, i);
      }
    } else {
      // One of the two is x, new at the end; the other occurs in p.
      assert x !in p;
      if j == |Dedup(p)| {
        NewNameOccursLast(p, x, a);
      } else {
        NewNameOccursLast(p, x, b);
      }
    }
  }

  /** A name appended to s for the first time occurs after every name of s. */
  lemma NewNameOccursLast(p: seq<string>, x: string, a: string)
    requires x !in p && a in p
    ensures OccursBefore(p + [x], a, x) && !OccursBefore(p + [x], x, a)
  {
    var s := p + [x];
    var k :| 0 <= k < |p| && p[k] == a;
    assert s[k] == a && s[..k + 1] == p[..k + 1];
  }

  /** Appending a name to s does not change which of two names of s first
      occurs first. */
  lemma OccursBeforeSnoc(p: seq<string>, x: string, a: string, b: string)
    requires a in p
    ensures OccursBefore(p + [x], a, b) <==> OccursBefore(p, a, b)
  {
    var s := p + [x];
    if OccursBefore(s, a, b) {
      var k :| 0 <= k < |s| && s[k] == a && b !in s[..k + 1];
      var m :| 0 <= m < |p| && p[m] == a;
      if k == |p| {
        assert p[m] in s[..k + 1];
        assert s[..m + 1] <= s[..k + 1] && p[..m + 1] == s[..m + 1];
        assert b !in p[..m + 1];
      } else {
        assert p[..k + 1] == s[..k + 1];
      }
    }
    if OccursBefore(p, a, b) {
      var k :| 0 <= k < |p| && p[k] == a && b !in p[..k + 1];
      assert s[k] == a && s[..k + 1] == p[..k + 1];
    }
  }

  /** aliasTable as buildAliasToWwn leaves it: one key per alias name, in
      the order names first appear, mapped to the member list of the LAST
      record with that name, order and repeats kept. */
  ghost function AliasTable(aliases: seq<Alias>): (t: Dict<seq<string>>)
    ensures t.Valid()
  {
    var names := AliasNames(aliases);
    Dict(Dedup(names), map a | a in names :: aliases[LastIndex(names, a).value].members)
  }

  /** Adding one more record to the alias list is one `aliasTable[name] =
      members` assignment on the table of the records before it. */
  lemma AliasTableStep(aliases: seq<Alias>, i: nat)
    requires i < |aliases|
    ensures AliasTable(aliases[..i + 1]) == AliasTable(aliases[..i]).Put(aliases[i].name, aliases[i].members)
  {
    var prev := AliasNames(aliases[..i]);
    var n := aliases[i].name;
    assert AliasNames(aliases[..i + 1]) == prev + [n];
    DedupSnoc(prev, n);
    var t := AliasTable(aliases[..i + 1]);
    var u := AliasTable(aliases[..i]).Put(n, aliases[i].members);
    assert t.keys == u.keys;
    forall a | a in t.values ensures a in u.values && t.values[a] == u.values[a] {
      AliasValueStep(aliases, i, a);
    }
    assert t.values == u.values;
  }

  lemma AliasValueStep(aliases: seq<Alias>, i: nat, a: string)
    requires i < |aliases| && a in AliasNames(aliases[..i + 1])
    ensures var u := AliasTable(aliases[..i]).Put(aliases[i].name, aliases[i].members);
      a in u.values && AliasTable(aliases[..i + 1]).values[a] == u.values[a]
  {
    var names := AliasNames(aliases[..i + 1]);
    assert names == AliasNames(aliases[..i]) + [aliases[i].name];
    assert names[..i] == AliasNames(aliases[..i]);
    LastIndexStep(names, i, a);
  }

  /** An alias name is a key exactly when some record has it, and its value
      is the member list of the last record with that name. */
  lemma AliasTableSpec(aliases: seq<Alias>, a: string)
    ensures a in AliasTable(aliases).values <==> exists k :: 0 <= k < |aliases| && aliases[k].name == a
    ensures a in AliasTable(aliases).values ==> exists k :: (0 <= k < |aliases| && aliases[k].name == a
      && AliasTable(aliases).values[a] == aliases[k].members && forall m :: k < m < |aliases| ==> aliases[m].name != a)
  {
    if exists k :: 0 <= k < |aliases| && aliases[k].name == a {
      var k :| 0 <= k < |aliases| && aliases[k].name == a;
      assert AliasNames(aliases)[k] == a;
    }
  }

  method BuildAliasToWwn(aliases: seq<Alias>) returns (table: Dict<seq<string>>)
    ensures table == AliasTable(aliases)
  {
    table := EmptyDict();
    var i := 0;
    assert AliasNames(aliases[..0]) == [];
    while i < |aliases|
      invariant 0 <= i <= |aliases|
      invariant table == AliasTable(aliases[..i])
    {
      AliasTableStep(aliases, i);
      table := table.Put(aliases[i].name, aliases[i].members);
      i := i + 1;
    }
    assert aliases[..i] == aliases;
  }

  /** One copy of alias a for every position of ms[..j] that holds x: what
      `wwnTable[x].append(a)` adds while walking a's member list. */
  function Occ(a: string, ms: seq<string>, j: nat, x: string): seq<string>
    requires j <= |ms|
  {
    if j == 0 then [] else Occ(a, ms, j - 1, x) + (if ms[j - 1] == x then [a] else [])
  }

  lemma {:induction false} OccPrefix(a: string, ms: seq<string>, j: nat, x: string)
    requires j <= |ms|
    ensures forall b :: b in Occ(a, ms, j, x) ==> b == a
    ensures Occ(a, ms, j, x) != [] <==> x in ms[..j]
  {
    if j > 0 {
      OccPrefix(a, ms, j - 1, x);
      assert ms[..j] == ms[..j - 1] + [ms[j - 1]];
    }
  }

  /** Walking the whole member list of a adds copies of a only, and at
      least one exactly when the list holds x. */
  lemma OccSpec(a: string, ms: seq<string>, x: string)
    ensures forall b :: b in Occ(a, ms, |ms|, x) ==> b == a
    ensures Occ(a, ms, |ms|, x) != [] <==> x in ms
  {
    OccPrefix(a, ms, |ms|, x);
    assert ms[..|ms|] == ms;
  }

  /** wwnTable[x] after flipAliastoWWN has walked the first n keys of t. */
  function Inverted(t: Dict<seq<string>>, n: nat, x: string): seq<string>
    requires t.Valid() && n <= |t.keys|
  {
    if n == 0 then []
    else
      var a := t.keys[n - 1];
      Inverted(t, n - 1, x) + Occ(a, t.values[a], |t.values[a]|, x)
  }

  /** The inversion over the first n keys lists exactly those of them
      whose member list holds x. */
  lemma {:induction false} InvertedMembers(t: Dict<seq<string>>, n: nat, x: string, a: string)
    requires t.Valid() && n <= |t.keys|
    ensures a in Inverted(t, n, x) <==> a in t.keys[..n] && x in t.values[a]
  {
    if n > 0 {
      InvertedMembers(t, n - 1, x, a);
      var k := t.keys[n - 1];
      var ms := t.values[k];
      var o := Occ(k, ms, |ms|, x);
      OccSpec(k, ms, x);
      assert o != [] ==> o[0] in o;
      assert t.keys[..n] == t.keys[..n - 1] + [k];
    }
  }

  /** Every WWN named by some alias of t. */
  ghost function Referenced(t: Dict<seq<string>>): set<string>
  {
    set a, x | a in t.values && x in t.values[a] :: x
  }

  /** wwnTable as flipAliastoWWN returns it. */
  ghost function WwnTable(t: Dict<seq<string>>): map<string, seq<string>>
    requires t.Valid()
  {
    map x | x in Referenced(t) :: Inverted(t, |t.keys|, x)
  }

  /** What a WWN maps to before the inner loop for one alias starts. */
  function Before(w0: map<string, seq<string>>, x: string): seq<string> {
    if x in w0 then w0[x] else []
  }

  /** The table after the inner loop of flipAliastoWWN has seen ms[..j]. */
  ghost function Appended(w0: map<string, seq<string>>, a: string, ms: seq<string>, j: nat): map<string, seq<string>>
    requires j <= |ms|
  {
    if j == 0 then w0
    else
      var p := Appended(w0, a, ms, j - 1);
      p[ms[j - 1] := Before(p, ms[j - 1]) + [a]]
  }

  /** Walking ms[..j] adds y as a key exactly when y is in w0 or ms[..j]. */
  lemma {:induction false} AppendedKeys(w0: map<string, seq<string>>, a: string, ms: seq<string>, j: nat, y: string)
    requires j <= |ms|
    ensures y in Appended(w0, a, ms, j) <==> y in w0 || y in ms[..j]
  {
    if j > 0 {
      AppendedKeys(w0, a, ms, j - 1, y);
      assert ms[..j] == ms[..j - 1] + [ms[j - 1]];
    }
  }

  /** ... and appends one copy of a under y per occurrence of y. */
  lemma {:induction false} AppendedAt(w0: map<string, seq<string>>, a: string, ms: seq<string>, j: nat, y: string)
    requires j <= |ms|
    ensures Before(Appended(w0, a, ms, j), y) == Before(w0, y) + Occ(a, ms, j, y)
  {
    if j > 0 {
      AppendedAt(w0, a, ms, j - 1, y);
      var p := Appended(w0, a, ms, j - 1);
      var x := ms[j - 1];
      assert Appended(w0, a, ms, j) == p[x := Before(p, x) + [a]];
      var b, o := Before(w0, y), Occ(a, ms, j - 1, y);
      if y == x {
        assert Occ(a, ms, j, y) == o + [a];
        assert (b + o) + [a] == b + (o + [a]);
      } else {
        assert Occ(a, ms, j, y) == o;
      }
    }
  }

  /** The inner loop of flipAliastoWWN: walks alias a's member list and
      appends a under each WWN it names, creating the list on first sight. */
  method AppendUnder(w0: map<string, seq<string>>, a: string, ms: seq<string>) returns (w: map<string, seq<string>>)
    ensures forall x :: x in w <==> x in w0 || x in ms
    ensures forall x :: Before(w, x) == Before(w0, x) + Occ(a, ms, |ms|, x)
  {
    w := w0;
    var j := 0;
    while j < |ms|
      invariant 0 <= j <= |ms|
      invariant w == Appended(w0, a, ms, j)
    {
      var x := ms[j];
      if x !in w {
        w := w[x := []];
      }
      w := w[x := w[x] + [a]];
      j := j + 1;
    }
    assert ms[..j] == ms;
    forall y ensures (y in w <==> y in w0 || y in ms) && Before(w, y) == Before(w0, y) + Occ(a, ms, |ms|, y) {
      AppendedKeys(w0, a, ms, j, y);
      AppendedAt(w0, a, ms, j, y);
    }
  }

  /** A WWN gets an entry exactly when some alias lists it. */
  lemma InvertedNonEmpty(t: Dict<seq<string>>, x: string)
    requires t.Valid()
    ensures Inverted(t, |t.keys|, x) != [] <==> x in Referenced(t)
  {
    var r := Inverted(t, |t.keys|, x);
    assert t.keys[..|t.keys|] == t.keys;
    if r != [] {
      assert r[0] in r;
      InvertedMembers(t, |t.keys|, x, r[0]);
    }
    if x in Referenced(t) {
      var a :| a in t.values && x in t.values[a];
      InvertedMembers(t, |t.keys|, x, a);
    }
  }

  /** One pass of the outer loop of flipAliastoWWN extends the inversion
      from the first i keys to the first i + 1: it appends one copy of key
      i per occurrence of x in its member list. */
  lemma FlipStep(t: Dict<seq<string>>, i: nat, x: string)
    requires t.Valid() && i < |t.keys|
    ensures var ms := t.values[t.keys[i]];
      && Inverted(t, i + 1, x) == Inverted(t, i, x) + Occ(t.keys[i], ms, |ms|, x)
      && (Occ(t.keys[i], ms, |ms|, x) != [] <==> x in ms)
  {
    OccSpec(t.keys[i], t.values[t.keys[i]], x);
  }

  method FlipAliasToWwn(t: Dict<seq<string>>) returns (w: map<string, seq<string>>)
    requires t.Valid()
    ensures w == WwnTable(t)
  {
    w := map[];
    var i := 0;
    while i < |t.keys|
      invariant 0 <= i <= |t.keys|
      invariant forall x :: x in w <==> Inverted(t, i, x) != []
      invariant forall x :: Before(w, x) == Inverted(t, i, x)
    {
      var a := t.keys[i];
      ghost var prev := w;
      w := AppendUnder(w, a, t.values[a]);
      forall x ensures (x in w <==> Inverted(t, i + 1, x) != []) && Before(w, x) == Inverted(t, i + 1, x) {
        FlipStep(t, i, x);
      }
      i := i + 1;
    }
    InversionComplete(t, w);
  }

  lemma WwnTableKeys(t: Dict<seq<string>>)
    requires t.Valid()
    ensures forall x :: x in WwnTable(t) <==> Inverted(t, |t.keys|, x) != []
  {
    forall x ensures x in WwnTable(t) <==> Inverted(t, |t.keys|, x) != [] {
      InvertedNonEmpty(t, x);
    }
  }

  /** Once every key has been walked, the table built is wwnTable. */
  lemma InversionComplete(t: Dict<seq<string>>, w: map<string, seq<string>>)
    requires t.Valid()
    requires forall x :: x in w <==> Inverted(t, |t.keys|, x) != []
    requires forall x :: Before(w, x) == Inverted(t, |t.keys|, x)
    ensures w == WwnTable(t)
  {
    var v := WwnTable(t);
    WwnTableKeys(t);
    assert w.Keys == v.Keys;
    forall x | x in w ensures w[x] == v[x] {
      assert Before(w, x) == w[x];
    }
  }

  /** wwnTable is the relational inverse of aliasTable: alias a is listed
      under WWN x exactly when x is a member of a. A WWN in no alias has no
      entry at all, never an empty list. */
  lemma WwnTableIsInverse(t: Dict<seq<string>>, x: string, a: string)
    requires t.Valid()
    ensures x in WwnTable(t) && a in WwnTable(t)[x] <==> a in t.values && x in t.values[a]
    ensures x in WwnTable(t) ==> WwnTable(t)[x] != []
  {
    InvertedNonEmpty(t, x);
    InvertedMembers(t, |t.keys|, x, a);
    assert t.keys[..|t.keys|] == t.keys;
  }

  /** w lists under each WWN exactly the aliases of t whose member list
      holds it, and has no empty list. */
  ghost predicate IsInverse(t: Dict<seq<string>>, w: map<string, seq<string>>) {
    InverseSound(t, w) && InverseComplete(t, w) && NoEmptyList(w)
  }

  /** Every alias listed under a WWN has that WWN as a member. */
  ghost predicate InverseSound(t: Dict<seq<string>>, w: map<string, seq<string>>) {
    forall x, a :: x in w && a in w[x] ==> a in t.values && x in t.values[a]
  }

  /** Every alias is listed under each of its members. */
  ghost predicate InverseComplete(t: Dict<seq<string>>, w: map<string, seq<string>>) {
    forall x, a :: a in t.values && x in t.values[a] ==> x in w && a in w[x]
  }

  ghost predicate NoEmptyList(w: map<string, seq<string>>) {
    forall x :: x in w ==> w[x] != []
  }

  lemma WwnTableInverts(t: Dict<seq<string>>)
    requires t.Valid()
    ensures IsInverse(t, WwnTable(t))
  {
    WwnTableSound(t);
    WwnTableComplete(t);
    WwnTableNoEmpty(t);
  }

  lemma WwnTableSound(t: Dict<seq<string>>)
    requires t.Valid()
    ensures InverseSound(t, WwnTable(t))
  {
    forall x, a | x in WwnTable(t) && a in WwnTable(t)[x] ensures a in t.values && x in t.values[a] {
      WwnTableIsInverse(t, x, a);
    }
  }

  lemma WwnTableComplete(t: Dict<seq<string>>)
    requires t.Valid()
    ensures InverseComplete(t, WwnTable(t))
  {
    forall x, a | a in t.values && x in t.values[a] ensures x in WwnTable(t) && a in WwnTable(t)[x] {
      WwnTableIsInverse(t, x, a);
    }
  }

  lemma WwnTableNoEmpty(t: Dict<seq<string>>)
    requires t.Valid()
    ensures NoEmptyList(WwnTable(t))
  {
    forall x | x in WwnTable(t) ensures WwnTable(t)[x] != [] {
      WwnTableIsInverse(t, x, "");
    }
  }

  /** A WWN has an entry in wwnTable exactly when some alias lists it. */
  lemma HasEntryIffListed(t: Dict<seq<string>>, x: string)
    requires t.Valid()
    ensures x in WwnTable(t) <==> exists a :: a in t.values && x in t.values[a]
  {
    if a :| a in t.values && x in t.values[a] {
      assert x in Referenced(t);
    }
  }

  /** getAliasesFromWwns collects exactly the aliases that list one of the
      requested WWNs. */
  lemma AliasesForIffListed(t: Dict<seq<string>>, wwns: set<string>, a: string)
    requires t.Valid()
    ensures a in AliasesFor(WwnTable(t), wwns) <==> a in t.values && exists x :: x in wwns && x in t.values[a]
  {
    var w := WwnTable(t);
    if a in AliasesFor(w, wwns) {
      var x :| x in wwns && x in w && a in w[x];
      WwnTableIsInverse(t, x, a);
    }
    if a in t.values && exists x :: x in wwns && x in t.values[a] {
      var x :| x in wwns && x in t.values[a];
      WwnTableIsInverse(t, x, a);
      assert a in AliasesFor(w, wwns);
    }
  }

  /** Key k of t is the first, in aliasTable's key order, whose member
      list holds x. */
  ghost predicate FirstAt(t: Dict<seq<string>>, x: string, k: int) {
    && 0 <= k < |t.keys| && t.keys[k] in t.values && x in t.values[t.keys[k]]
    && forall m :: 0 <= m < k ==> t.keys[m] in t.values && x !in t.values[t.keys[m]]
  }

  /** Alias a is the first alias, in aliasTable's key order, whose member
      list holds x. */
  ghost predicate FirstAliasOf(t: Dict<seq<string>>, x: string, a: string) {
    exists k :: FirstAt(t, x, k) && t.keys[k] == a
  }

  /** At most one alias is the first to list x. */
  lemma FirstAliasUnique(t: Dict<seq<string>>, x: string, a: string, b: string)
    requires FirstAliasOf(t, x, a) && FirstAliasOf(t, x, b)
    ensures a == b
  {
    var i :| FirstAt(t, x, i) && t.keys[i] == a;
    var j :| FirstAt(t, x, j) && t.keys[j] == b;
  }

  /** The head of the inversion over the first n keys comes from the
      n-th key when the first n - 1 keys do not list x. */
  lemma InvertedHeadLast(t: Dict<seq<string>>, n: nat, x: string)
    requires t.Valid() && 0 < n <= |t.keys|
    requires Inverted(t, n - 1, x) == [] && Inverted(t, n, x) != []
    ensures FirstAt(t, x, n - 1) && Inverted(t, n, x)[0] == t.keys[n - 1]
  {
    var a := t.keys[n - 1];
    var o := Occ(a, t.values[a], |t.values[a]|, x);
    assert Inverted(t, n, x) == o;
    OccSpec(a, t.values[a], x);
    assert o[0] in o;
    forall m | 0 <= m < n - 1 ensures t.keys[m] in t.values && x !in t.values[t.keys[m]] {
      assert t.keys[m] in t.keys[..n - 1];
      InvertedMembers(t, n - 1, x, t.keys[m]);
    }
  }

  lemma {:induction false} InvertedHead(t: Dict<seq<string>>, n: nat, x: string)
    requires t.Valid() && n <= |t.keys|
    requires Inverted(t, n, x) != []
    ensures exists k :: k < n && FirstAt(t, x, k) && t.keys[k] == Inverted(t, n, x)[0]
  {
    var p := Inverted(t, n - 1, x);
    if p != [] {
      InvertedHead(t, n - 1, x);
      var a := t.keys[n - 1];
      assert Inverted(t, n, x) == p + Occ(a, t.values[a], |t.values[a]|, x);
      assert Inverted(t, n, x)[0] == p[0];
    } else {
      InvertedHeadLast(t, n, x);
    }
  }

  /** The alias dryrun.py deletes for a WWN, wwnLookupTable[wwn][0], is the
      first alias in table order that lists the WWN. */
  lemma WwnTableFirstAlias(t: Dict<seq<string>>, x: string)
    requires t.Valid() && x in WwnTable(t)
    ensures WwnTable(t)[x] != [] && FirstAliasOf(t, x, WwnTable(t)[x][0])
  {
    WwnTableIsInverse(t, x, "");
    InvertedHead(t, |t.keys|, x);
    var k :| k < |t.keys| && FirstAt(t, x, k) && t.keys[k] == Inverted(t, |t.keys|, x)[0];
  }

  /** The aliases getAliasesFromWwns collects: every alias listed under a
      WWN of the request that is a key of the table; other WWNs add nothing. */
  ghost function AliasesFor(w: map<string, seq<string>>, wwns: set<string>): set<string>
  {
    set x, a | x in wwns && x in w && a in w[x] :: a
  }

  method GetAliasesFromWwns(w: map<string, seq<string>>, wwns: set<string>) returns (r: seq<string>)
    ensures StrictlySorted(r)
    ensures forall a :: a in r <==> a in AliasesFor(w, wwns)
  {
    r := [];
    var rest := wwns;
    while rest != {}
      invariant rest <= wwns
      invariant StrictlySorted(r)
      invariant forall a :: a in r <==> a in AliasesFor(w, wwns - rest)
      decreases rest
    {
      var x :| x in rest;
      if x in w {
        var ms := w[x];
        var j := 0;
        while j < |ms|
          invariant 0 <= j <= |ms|
          invariant StrictlySorted(r)
          invariant forall a :: a in r <==> a in AliasesFor(w, wwns - rest) || a in ms[..j]
        {
          r := Insert(r, ms[j]);
          assert ms[..j + 1] == ms[..j] + [ms[j]];
          j := j + 1;
        }
        assert ms[..j] == ms;
      }
      assert forall a :: a in AliasesFor(w, wwns - (rest - {x})) <==>
        a in AliasesFor(w, wwns - rest) || (x in w && a in w[x]);
      rest := rest - {x};
    }
  }
}
