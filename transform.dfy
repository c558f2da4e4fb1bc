/** core/transform.py: the static alias table, the column canonicaliser and the
    canonical-column selector. core/ingest.py repeats the same table and the same
    canonicaliser (_canonicalize_columns); both are modelled here once. */
module Transform {
  import opened Strings
  import opened Wrappers
  import opened Frame

  const CanonicalColumns: seq<string> := ["cpg_id", "beta", "chrom", "pos", "gene", "pval"]

  /** ALIASES, in dict insertion order: canonical name, aliases by priority. */
  const Aliases: seq<(string, seq<string>)> := [
    ("cpg_id", ["cpg_id", "cpg", "probe", "probe_id", "CpG", "cgid"]),
    ("beta", ["beta", "beta_value", "methylation_level", "methylation", "Beta"]),
    ("chrom", ["chrom", "chr", "chromosome"]),
    ("pos", ["pos", "position", "bp", "start"]),
    ("gene", ["gene", "symbol", "gene_symbol"]),
    ("pval", ["pval", "p_value", "p.value"])
  ]

  /** The key a source column is matched by: column.lower().strip(). */
  function Key(name: string): string {
    Strip(Lower(name))
  }

  /** The keys an alias list matches: alias.lower() for each alias. */
  function LowerAll(aliases: seq<string>): (r: seq<string>)
    ensures |r| == |aliases|
    ensures forall j :: 0 <= j < |aliases| ==> r[j] == Lower(aliases[j])
  {
    seq(|aliases|, j requires 0 <= j < |aliases| => Lower(aliases[j]))
  }

  /** No key is matched by the alias lists of two different entries. */
  predicate Disjoint(entries: seq<(string, seq<string>)>) {
    forall i, j, k :: 0 <= i < |entries| && 0 <= j < |entries| && i != j && k in LowerAll(entries[i].1) ==>
      k !in LowerAll(entries[j].1)
  }

  predicate DistinctCanonical(entries: seq<(string, seq<string>)>) {
    forall i, j :: 0 <= i < j < |entries| ==> entries[i].0 != entries[j].0
  }

  /** The alias lists after alias.lower(), written out. */
  const LoweredAliasLists: seq<seq<string>> := [
    ["cpg_id", "cpg", "probe", "probe_id", "cpg", "cgid"],
    ["beta", "beta_value", "methylation_level", "methylation", "beta"],
    ["chrom", "chr", "chromosome"],
    ["pos", "position", "bp", "start"],
    ["gene", "symbol", "gene_symbol"],
    ["pval", "p_value", "p.value"]
  ]

  lemma LowerAllIs(aliases: seq<string>, lowered: seq<string>)
    requires |aliases| == |lowered|
    requires forall j :: 0 <= j < |aliases| ==> aliases[j] == lowered[j] || Lower(aliases[j]) == lowered[j]
    requires forall k :: k in lowered ==> IsLower(k)
    ensures LowerAll(aliases) == lowered
  {
    forall j | 0 <= j < |aliases|
      ensures Lower(aliases[j]) == lowered[j]
    {
      assert lowered[j] in lowered;
      LowerOfLower(lowered[j]);
    }
  }

  lemma LoweredAliasList(i: nat)
    requires i < |Aliases|
    ensures LowerAll(Aliases[i].1) == LoweredAliasLists[i]
  {
    var a, l := Aliases[i].1, LoweredAliasLists[i];
    assert forall k :: k in l ==> IsLower(k);
    if i == 0 {
      assert Lower(a[4]) == l[4];
    } else if i == 1 {
      assert Lower(a[4]) == l[4];
    }
    LowerAllIs(a, l);
  }

  lemma LoweredAliasListsAreLowered()
    ensures |Aliases| == |LoweredAliasLists|
    ensures forall i :: 0 <= i < |Aliases| ==> LowerAll(Aliases[i].1) == LoweredAliasLists[i]
  {
    forall i | 0 <= i < |Aliases|
      ensures LowerAll(Aliases[i].1) == LoweredAliasLists[i]
    {
      LoweredAliasList(i);
    }
  }

  lemma LoweredListsShareNoKey(i: nat, j: nat)
    requires i < j < |LoweredAliasLists|
    ensures forall k :: k in LoweredAliasLists[i] ==> k !in LoweredAliasLists[j]
  {
  }

  /** The alias lists are pairwise disjoint after lowering, and the canonical
      names are distinct. */
  lemma AliasListsDisjoint()
    ensures Disjoint(Aliases) && DistinctCanonical(Aliases)
  {
    LoweredAliasListsAreLowered();
    forall i, j | 0 <= i < j < |Aliases|
      ensures forall k :: k in LowerAll(Aliases[i].1) ==> k !in LowerAll(Aliases[j].1)
    {
      LoweredListsShareNoKey(i, j);
    }
  }

  lemma CanonicalIsLower(c: string)
    requires c in CanonicalColumns
    ensures IsLower(c)
  {
  }

  lemma CanonicalIsTrimmed(c: string)
    requires c in CanonicalColumns
    ensures IsTrimmed(c)
  {
  }

  /** A lower-case label without surrounding whitespace is its own key. */
  lemma KeyOfLowerTrimmed(s: string)
    requires IsLower(s) && IsTrimmed(s)
    ensures Key(s) == s
  {
    LowerOfLower(s);
    StripTrimmed(s);
  }

  /** A canonical name is its own key. */
  lemma KeyOfCanonical(c: string)
    requires c in CanonicalColumns
    ensures Key(c) == c
  {
    CanonicalIsLower(c);
    CanonicalIsTrimmed(c);
    KeyOfLowerTrimmed(c);
  }

  /** The table lists the canonical columns in CANONICAL_COLUMNS order, and
      each canonical name is its own first alias and its own key. */
  lemma CanonicalIsFirstAlias()
    ensures |Aliases| == |CanonicalColumns|
    ensures forall i :: 0 <= i < |Aliases| ==>
      && Aliases[i].0 == CanonicalColumns[i]
      && |Aliases[i].1| > 0 && Lower(Aliases[i].1[0]) == Aliases[i].0
      && Key(Aliases[i].0) == Aliases[i].0
  {
    forall i | 0 <= i < |Aliases|
      ensures Aliases[i].0 == CanonicalColumns[i]
      ensures |Aliases[i].1| > 0 && Lower(Aliases[i].1[0]) == Aliases[i].0
      ensures Key(Aliases[i].0) == Aliases[i].0
    {
      CanonicalEntry(i);
      KeyOfCanonical(Aliases[i].0);
    }
  }

  lemma CanonicalEntry(i: nat)
    requires i < |Aliases|
    ensures Aliases[i].0 == CanonicalColumns[i]
    ensures |Aliases[i].1| > 0 && Lower(Aliases[i].1[0]) == Aliases[i].0
  {
    LoweredAliasList(i);
    assert LowerAll(Aliases[i].1)[0] == Lower(Aliases[i].1[0]);
  }

  /** lowered = {column.lower().strip(): column for column in df.columns};
      a later column overwrites an earlier one with the same key. */
  function Lowered(cols: seq<string>): map<string, string> {
    if cols == [] then map[]
    else Lowered(cols[..|cols| - 1])[Key(cols[|cols| - 1]) := cols[|cols| - 1]]
  }

  lemma {:induction false} LoweredHas(cols: seq<string>, i: nat)
    requires i < |cols|
    ensures Key(cols[i]) in Lowered(cols)
  {
    if i < |cols| - 1 {
      LoweredHas(cols[..|cols| - 1], i);
    }
  }

  /** The column a key maps to is the LAST column carrying that key. */
  lemma {:induction false} LoweredWinner(cols: seq<string>, k: string) returns (w: nat)
    requires k in Lowered(cols)
    ensures w < |cols| && cols[w] == Lowered(cols)[k] && Key(cols[w]) == k
    ensures forall j :: w < j < |cols| ==> Key(cols[j]) != k
  {
    var n := |cols| - 1;
    var init := cols[..n];
    assert Lowered(cols) == Lowered(init)[Key(cols[n]) := cols[n]];
    if Key(cols[n]) == k {
      w := n;
    } else {
      w := LoweredWinner(init, k);
      forall j | w < j < |cols|
        ensures Key(cols[j]) != k
      {
        if j < n {
          assert cols[j] == init[j];
        }
      }
    }
  }

  lemma LoweredLast(cols: seq<string>, i: nat)
    requires i < |cols|
    requires forall j :: i < j < |cols| ==> Key(cols[j]) != Key(cols[i])
    ensures Key(cols[i]) in Lowered(cols) && Lowered(cols)[Key(cols[i])] == cols[i]
  {
    LoweredHas(cols, i);
    var w := LoweredWinner(cols, Key(cols[i]));
  }

  /** Every value of `lowered` is the column its key came from. */
  predicate KeyConsistent(lowered: map<string, string>) {
    forall k :: k in lowered ==> Key(lowered[k]) == k
  }

  lemma LoweredKeyConsistent(cols: seq<string>)
    ensures KeyConsistent(Lowered(cols))
  {
    forall k | k in Lowered(cols)
      ensures Key(Lowered(cols)[k]) == k
    {
      var w := LoweredWinner(cols, k);
    }
  }

  /** The first alias, in priority order, whose lowered form is a key of
      `lowered` (the inner loop with its `break`), given as that key. */
  function FirstPresent(aliases: seq<string>, lowered: map<string, string>): (r: Option<string>)
    ensures r.Some? ==> r.value in lowered && r.value in LowerAll(aliases)
    ensures r.None? <==> forall j :: 0 <= j < |aliases| ==> Lower(aliases[j]) !in lowered
  {
    if aliases == [] then None
    else if Lower(aliases[0]) in lowered then Some(Lower(aliases[0]))
    else
      var r := FirstPresent(aliases[1..], lowered);
      assert forall j :: 1 <= j < |aliases| ==> aliases[1..][j - 1] == aliases[j];
      assert r.Some? ==> r.value in LowerAll(aliases[1..]);
      r
  }

  /** Only the first present alias counts: every alias before it is absent. */
  lemma {:induction false} FirstPresentIsFirst(aliases: seq<string>, lowered: map<string, string>) returns (j: nat)
    requires FirstPresent(aliases, lowered).Some?
    ensures j < |aliases| && Lower(aliases[j]) == FirstPresent(aliases, lowered).value
    ensures forall j' :: 0 <= j' < j ==> Lower(aliases[j']) !in lowered
  {
    if Lower(aliases[0]) in lowered {
      j := 0;
    } else {
      var j1 := FirstPresentIsFirst(aliases[1..], lowered);
      j := j1 + 1;
      forall j' | 0 <= j' < j
        ensures Lower(aliases[j']) !in lowered
      {
        if j' > 0 {
          assert aliases[j'] == aliases[1..][j' - 1];
        }
      }
    }
  }

  /** Conversely, the search returns the first alias that is present. */
  lemma {:induction false} FirstPresentAt(aliases: seq<string>, lowered: map<string, string>, j: nat)
    requires j < |aliases| && Lower(aliases[j]) in lowered
    requires forall j' :: 0 <= j' < j ==> Lower(aliases[j']) !in lowered
    ensures FirstPresent(aliases, lowered) == Some(Lower(aliases[j]))
  {
    if j > 0 {
      assert Lower(aliases[0]) !in lowered;
      forall j' | 0 <= j' < j - 1
        ensures Lower(aliases[1..][j']) !in lowered
      {
        assert aliases[1..][j'] == aliases[j' + 1];
      }
      FirstPresentAt(aliases[1..], lowered, j - 1);
    }
  }

  /** When the first alias is present, the search stops there. */
  lemma FirstAliasWins(e: nat, lowered: map<string, string>)
    requires e < |Aliases| && Aliases[e].0 in lowered
    ensures FirstPresent(Aliases[e].1, lowered) == Some(Aliases[e].0)
  {
    CanonicalEntry(e);
  }

  /** The search only asks which keys are present. */
  lemma {:induction false} FirstPresentSameKeys(aliases: seq<string>, l1: map<string, string>, l2: map<string, string>)
    requires l1.Keys == l2.Keys
    ensures FirstPresent(aliases, l1) == FirstPresent(aliases, l2)
  {
    if aliases != [] {
      FirstPresentSameKeys(aliases[1..], l1, l2);
    }
  }

  /** rename_map after the outer loop has visited `entries`:
      rename_map[lowered[alias_lower]] = canonical for each first present alias. */
  function RenameFold(entries: seq<(string, seq<string>)>, lowered: map<string, string>): map<string, string> {
    if entries == [] then map[]
    else
      var m := RenameFold(entries[..|entries| - 1], lowered);
      var last := entries[|entries| - 1];
      match FirstPresent(last.1, lowered)
      case Some(k) => m[lowered[k] := last.0]
      case None => m
  }

  /** One more step of the search for the first present alias. */
  lemma FirstPresentFrom(aliases: seq<string>, j: nat, lowered: map<string, string>)
    requires j < |aliases|
    ensures FirstPresent(aliases[j..], lowered) ==
      if Lower(aliases[j]) in lowered then Some(Lower(aliases[j])) else FirstPresent(aliases[j + 1..], lowered)
  {
    assert aliases[j..][0] == aliases[j];
    assert aliases[j..][1..] == aliases[j + 1..];
  }

  /** One more entry of the fold, as one more pass of the outer loop. */
  lemma RenameFoldSnoc(entries: seq<(string, seq<string>)>, e: nat, lowered: map<string, string>)
    requires e < |entries|
    ensures RenameFold(entries[..e + 1], lowered) ==
      match FirstPresent(entries[e].1, lowered)
      case Some(k) => RenameFold(entries[..e], lowered)[lowered[k] := entries[e].0]
      case None => RenameFold(entries[..e], lowered)
  {
    assert entries[..e + 1][..e] == entries[..e];
  }

  /** An entry with a present alias renames the column that alias selects, and
      no other entry overwrites it. */
  lemma {:induction false} RenameFoldHit(entries: seq<(string, seq<string>)>, lowered: map<string, string>, i: nat)
    requires Disjoint(entries) && KeyConsistent(lowered)
    requires i < |entries| && FirstPresent(entries[i].1, lowered).Some?
    ensures lowered[FirstPresent(entries[i].1, lowered).value] in RenameFold(entries, lowered)
    ensures RenameFold(entries, lowered)[lowered[FirstPresent(entries[i].1, lowered).value]] == entries[i].0
  {
    var n := |entries| - 1;
    if i < n {
      var prefix := entries[..n];
      assert Disjoint(prefix) by {
        forall a, b, k | 0 <= a < |prefix| && 0 <= b < |prefix| && a != b && k in LowerAll(prefix[a].1)
          ensures k !in LowerAll(prefix[b].1)
        {
          assert prefix[a] == entries[a] && prefix[b] == entries[b];
        }
      }
      assert prefix[i] == entries[i];
      RenameFoldHit(prefix, lowered, i);
      var k := FirstPresent(entries[i].1, lowered).value;
      match FirstPresent(entries[n].1, lowered)
      case Some(k') =>
        assert k != k' by {
          assert k in LowerAll(entries[i].1) && k' in LowerAll(entries[n].1);
        }
        assert lowered[k] != lowered[k'] by {
          assert Key(lowered[k]) == k && Key(lowered[k']) == k';
        }
      case None =>
    }
  }

  /** Every renamed column was selected by some entry's first present alias,
      and is renamed to that entry's canonical name. */
  lemma {:induction false} RenameFoldSource(entries: seq<(string, seq<string>)>, lowered: map<string, string>, x: string)
    returns (i: nat)
    requires x in RenameFold(entries, lowered)
    ensures i < |entries| && FirstPresent(entries[i].1, lowered).Some?
    ensures lowered[FirstPresent(entries[i].1, lowered).value] == x
    ensures RenameFold(entries, lowered)[x] == entries[i].0
  {
    var n := |entries| - 1;
    var prefix := entries[..n];
    match FirstPresent(entries[n].1, lowered)
    case Some(k) =>
      if lowered[k] == x {
        i := n;
      } else {
        i := RenameFoldSource(prefix, lowered, x);
        assert prefix[i] == entries[i];
      }
    case None =>
      i := RenameFoldSource(prefix, lowered, x);
      assert prefix[i] == entries[i];
  }

  /** rename_map for a list of source column labels. */
  function RenameMap(cols: seq<string>): map<string, string> {
    RenameFold(Aliases, Lowered(cols))
  }

  /** DataFrame.rename(columns=m) on one label. */
  function Rename(m: map<string, string>, name: string): string {
    if name in m then m[name] else name
  }

  /** The column labels after canonicalize_columns. */
  function CanonicalNames(cols: seq<string>): (r: seq<string>)
    ensures |r| == |cols|
  {
    var m := RenameMap(cols);
    seq(|cols|, i requires 0 <= i < |cols| => Rename(m, cols[i]))
  }

  /** canonicalize_columns: rename the columns, keep the rows. */
  function Canonicalize(t: Table): (r: Table)
    ensures r.columns == CanonicalNames(t.columns) && r.rows == t.rows
  {
    Grid(CanonicalNames(t.columns), t.rows)
  }

  /** The first loop of canonicalize_columns: each label under its key, a
      later label replacing an earlier one with the same key. */
  method LowerColumns(cols: seq<string>) returns (lowered: map<string, string>)
    ensures lowered == Lowered(cols)
    ensures forall i :: 0 <= i < |cols| ==> Key(cols[i]) in lowered
  {
    lowered := map[];
    for i := 0 to |cols|
      invariant lowered == Lowered(cols[..i])
    {
      assert cols[..i + 1][..i] == cols[..i];
      lowered := lowered[Key(cols[i]) := cols[i]];
    }
    assert cols[..|cols|] == cols;
    forall i | 0 <= i < |cols|
      ensures Key(cols[i]) in lowered
    {
      LoweredHas(cols, i);
    }
  }

  /** The second loop of canonicalize_columns: for each canonical name, the
      label of its first present alias is renamed to it. */
  method BuildRenameMap(lowered: map<string, string>) returns (renameMap: map<string, string>)
    ensures renameMap == RenameFold(Aliases, lowered)
  {
    renameMap := map[];
    for e := 0 to |Aliases|
      invariant renameMap == RenameFold(Aliases[..e], lowered)
    {
      var (canonical, aliases) := Aliases[e];
      RenameFoldSnoc(Aliases, e, lowered);
      var found := FindFirstPresent(aliases, lowered);
      if found.Some? {
        renameMap := renameMap[lowered[found.value] := canonical];
      }
    }
    assert Aliases[..|Aliases|] == Aliases;
  }

  /** The inner loop of canonicalize_columns, up to its `break`: the lowered
      form of the first alias that is a key of `lowered`. */
  method FindFirstPresent(aliases: seq<string>, lowered: map<string, string>) returns (found: Option<string>)
    ensures found == FirstPresent(aliases, lowered)
  {
    var j := 0;
    while j < |aliases|
      invariant j <= |aliases|
      invariant FirstPresent(aliases, lowered) == FirstPresent(aliases[j..], lowered)
    {
      FirstPresentFrom(aliases, j, lowered);
      var aliasLower := Lower(aliases[j]);
      if aliasLower in lowered {
        return Some(aliasLower);
      }
      j := j + 1;
    }
    assert aliases[j..] == [];
    return None;
  }

  /** canonicalize_columns (and _canonicalize_columns), as the loops run. */
  method CanonicalizeColumns(t: Table) returns (r: Table)
    ensures r.columns == CanonicalNames(t.columns) && r.rows == t.rows
  {
    var lowered := LowerColumns(t.columns);
    var renameMap := BuildRenameMap(lowered);
    var names := seq(|t.columns|, i requires 0 <= i < |t.columns| => Rename(renameMap, t.columns[i]));
    r := Grid(names, t.rows);
  }

  /** Canonicalisation keeps every label it does not rename and renames only to
      canonical names, so it keeps the column count, the column order and the
      rows. */
  lemma RenamesOnlyToCanonical(cols: seq<string>, i: nat)
    requires i < |cols|
    ensures CanonicalNames(cols)[i] == cols[i] || CanonicalNames(cols)[i] in CanonicalColumns
  {
    var m := RenameMap(cols);
    if cols[i] in m {
      var e := RenameFoldSource(Aliases, Lowered(cols), cols[i]);
      CanonicalIsFirstAlias();
    }
  }

  /** The first alias in priority order that is present wins: a column is
      renamed to a canonical name exactly when it is the (last) column whose key
      is that first present alias. */
  lemma RenamedToCanonical(cols: seq<string>, e: nat, x: string)
    requires e < |Aliases|
    ensures (x in RenameMap(cols) && RenameMap(cols)[x] == Aliases[e].0) <==>
      (FirstPresent(Aliases[e].1, Lowered(cols)).Some? &&
       x == Lowered(cols)[FirstPresent(Aliases[e].1, Lowered(cols)).value])
  {
    AliasListsDisjoint();
    LoweredKeyConsistent(cols);
    if FirstPresent(Aliases[e].1, Lowered(cols)).Some? {
      RenameFoldHit(Aliases, Lowered(cols), e);
    }
    if x in RenameMap(cols) && RenameMap(cols)[x] == Aliases[e].0 {
      var e' := RenameFoldSource(Aliases, Lowered(cols), x);
      assert e' == e;
    }
  }

  /** At most one source column is renamed to each canonical name. */
  lemma AtMostOneSourcePerCanonical(cols: seq<string>, i: nat, j: nat)
    requires Distinct(cols) && i < j < |cols|
    requires CanonicalNames(cols)[i] != cols[i] && CanonicalNames(cols)[j] != cols[j]
    ensures CanonicalNames(cols)[i] != CanonicalNames(cols)[j]
  {
    var m := RenameMap(cols);
    var ei := RenameFoldSource(Aliases, Lowered(cols), cols[i]);
    var ej := RenameFoldSource(Aliases, Lowered(cols), cols[j]);
    AliasListsDisjoint();
  }

  /** Of two columns that collide after lower/strip, only the later one can be
      renamed: the earlier one keeps its label. */
  lemma EarlierCollisionKeepsLabel(cols: seq<string>, i: nat, j: nat)
    requires Distinct(cols) && i < j < |cols| && Key(cols[i]) == Key(cols[j])
    ensures CanonicalNames(cols)[i] == cols[i]
  {
    if cols[i] in RenameMap(cols) {
      var e := RenameFoldSource(Aliases, Lowered(cols), cols[i]);
      var k := FirstPresent(Aliases[e].1, Lowered(cols)).value;
      var w := LoweredWinner(cols, k);
      assert false;
    }
  }

  /** A column whose key is no alias of any canonical name keeps its label. */
  lemma UnknownColumnPassesThrough(cols: seq<string>, i: nat)
    requires i < |cols|
    requires forall e :: 0 <= e < |Aliases| ==> Key(cols[i]) !in LowerAll(Aliases[e].1)
    ensures CanonicalNames(cols)[i] == cols[i]
  {
    if cols[i] in RenameMap(cols) {
      var e := RenameFoldSource(Aliases, Lowered(cols), cols[i]);
      var k := FirstPresent(Aliases[e].1, Lowered(cols)).value;
      LoweredKeyConsistent(cols);
      assert false;
    }
  }

  /** Two label lists with the same keys, position by position. */
  predicate SameKeys(cols: seq<string>, cols': seq<string>) {
    |cols| == |cols'| && forall j :: 0 <= j < |cols| ==> Key(cols[j]) == Key(cols'[j])
  }

  /** Lists with the same keys have the same `lowered` keys, and each key is
      won by the same position in both. */
  lemma SameKeysSameWinner(cols: seq<string>, cols': seq<string>, k: string) returns (w: nat)
    requires SameKeys(cols, cols') && k in Lowered(cols)
    ensures w < |cols| && Lowered(cols)[k] == cols[w]
    ensures k in Lowered(cols') && Lowered(cols')[k] == cols'[w]
  {
    w := LoweredWinner(cols, k);
    LoweredLast(cols', w);
  }

  lemma SameKeysLoweredKeys(cols: seq<string>, cols': seq<string>)
    requires SameKeys(cols, cols')
    ensures Lowered(cols).Keys == Lowered(cols').Keys
  {
    forall k | k in Lowered(cols) ensures k in Lowered(cols') {
      var w := SameKeysSameWinner(cols, cols', k);
    }
    forall k | k in Lowered(cols') ensures k in Lowered(cols) {
      var w := SameKeysSameWinner(cols', cols, k);
    }
  }

  /** One direction of MatchIgnoresCaseAndWhitespace. */
  lemma RenamedAlike(cols: seq<string>, cols': seq<string>, i: nat)
    requires SameKeys(cols, cols') && Distinct(cols)
    requires i < |cols| && cols[i] in RenameMap(cols)
    ensures cols'[i] in RenameMap(cols') && RenameMap(cols')[cols'[i]] == RenameMap(cols)[cols[i]]
  {
    var l, l' := Lowered(cols), Lowered(cols');
    var e := RenameFoldSource(Aliases, l, cols[i]);
    var k := FirstPresent(Aliases[e].1, l).value;
    SameKeysLoweredKeys(cols, cols');
    FirstPresentSameKeys(Aliases[e].1, l, l');
    var w := SameKeysSameWinner(cols, cols', k);
    assert w == i;
    RenamedToCanonical(cols', e, cols'[i]);
  }

  /** Matching ignores case and surrounding whitespace: two lists of distinct
      labels with the same keys, position by position, are renamed alike. */
  lemma MatchIgnoresCaseAndWhitespace(cols: seq<string>, cols': seq<string>, i: nat)
    requires SameKeys(cols, cols') && Distinct(cols) && Distinct(cols')
    requires i < |cols|
    ensures cols[i] in RenameMap(cols) <==> cols'[i] in RenameMap(cols')
    ensures cols[i] in RenameMap(cols) ==> RenameMap(cols)[cols[i]] == RenameMap(cols')[cols'[i]]
  {
    if cols[i] in RenameMap(cols) {
      RenamedAlike(cols, cols', i);
    }
    if cols'[i] in RenameMap(cols') {
      RenamedAlike(cols', cols, i);
    }
  }

  /** Distinct after lower/strip: the precondition under which pandas never
      holds two columns with one label after renaming. */
  predicate DistinctKeys(cols: seq<string>) {
    forall i, j :: 0 <= i < j < |cols| ==> Key(cols[i]) != Key(cols[j])
  }

  /** A renamed column becomes its canonical name, which renames to itself. */
  lemma RenamedStaysPut(cols: seq<string>, i: nat)
    requires i < |cols| && cols[i] in RenameMap(cols)
    ensures var r := CanonicalNames(cols); Rename(RenameMap(r), r[i]) == r[i]
  {
    var r := CanonicalNames(cols);
    var e := RenameFoldSource(Aliases, Lowered(cols), cols[i]);
    CanonicalIsFirstAlias();
    AliasListsDisjoint();
    var c := Aliases[e].0;
    assert r[i] == c;
    if c in RenameMap(r) {
      var e2 := RenameFoldSource(Aliases, Lowered(r), c);
      var k2 := FirstPresent(Aliases[e2].1, Lowered(r)).value;
      LoweredKeyConsistent(r);
      assert k2 == c;
      assert c in LowerAll(Aliases[e].1) by {
        assert LowerAll(Aliases[e].1)[0] == c;
      }
      assert e2 == e;
    }
  }

  /** An entry whose alias is present renames the column it selects to its
      canonical name, which is then a key of the renamed labels. */
  lemma SelectedBecomesCanonical(cols: seq<string>, e: nat) returns (w: nat)
    requires e < |Aliases| && FirstPresent(Aliases[e].1, Lowered(cols)).Some?
    ensures w < |cols| && cols[w] in RenameMap(cols)
    ensures Key(cols[w]) == FirstPresent(Aliases[e].1, Lowered(cols)).value
    ensures Aliases[e].0 in Lowered(CanonicalNames(cols))
  {
    var r := CanonicalNames(cols);
    w := LoweredWinner(cols, FirstPresent(Aliases[e].1, Lowered(cols)).value);
    RenamedToCanonical(cols, e, cols[w]);
    assert r[w] == Aliases[e].0;
    CanonicalEntry(e);
    KeyOfCanonical(Aliases[e].0);
    LoweredHas(r, w);
  }

  /** A column left alone stays alone on a second pass. */
  lemma UnrenamedStaysPut(cols: seq<string>, i: nat)
    requires DistinctKeys(cols)
    requires i < |cols| && cols[i] !in RenameMap(cols)
    ensures var r := CanonicalNames(cols); Rename(RenameMap(r), r[i]) == r[i]
  {
    var r := CanonicalNames(cols);
    assert r[i] == cols[i];
    if cols[i] in RenameMap(r) {
      var l, l2 := Lowered(cols), Lowered(r);
      // Entry e selects the column on the second pass, by one of its aliases,
      // which is present among the original keys too.
      var e := RenameFoldSource(Aliases, l2, cols[i]);
      LoweredKeyConsistent(r);
      LoweredHas(cols, i);
      assert Key(cols[i]) == FirstPresent(Aliases[e].1, l2).value;
      // On the first pass entry e renamed column w to its canonical name,
      // which, as the entry's first alias, is what it selects by on the second
      // pass, and then on the first too: so column w has column i's key.
      var w := SelectedBecomesCanonical(cols, e);
      FirstAliasWins(e, l2);
      FirstAliasWins(e, l);
      assert false;
    }
  }

  /** Canonicalising twice equals canonicalising once, for labels that are
      distinct after lower/strip. */
  lemma CanonicalizeIdempotent(cols: seq<string>)
    requires DistinctKeys(cols)
    ensures CanonicalNames(CanonicalNames(cols)) == CanonicalNames(cols)
  {
    var r := CanonicalNames(cols);
    forall i | 0 <= i < |cols|
      ensures CanonicalNames(r)[i] == r[i]
    {
      if cols[i] in RenameMap(cols) {
        RenamedStaysPut(cols, i);
      } else {
        UnrenamedStaysPut(cols, i);
      }
    }
  }

  /** Labels distinct after lower/strip are distinct. */
  lemma DistinctKeysDistinct(cols: seq<string>)
    requires DistinctKeys(cols)
    ensures Distinct(cols)
  {
  }

  /** Two renamed columns of distinct labels get distinct canonical names. */
  lemma RenamedApart(cols: seq<string>, a: nat, b: nat)
    requires Distinct(cols) && a < |cols| && b < |cols| && a != b
    requires cols[a] in RenameMap(cols) && cols[b] in RenameMap(cols)
    ensures CanonicalNames(cols)[a] != CanonicalNames(cols)[b]
  {
    var ea := RenameFoldSource(Aliases, Lowered(cols), cols[a]);
    var eb := RenameFoldSource(Aliases, Lowered(cols), cols[b]);
    CanonicalIsFirstAlias();
    AliasListsDisjoint();
  }

  /** A renamed column never takes the label of a column left alone: that
      label would be a canonical name, hence its own first alias, and its
      column the one selected for renaming. */
  lemma RenamedAvoidsKept(cols: seq<string>, a: nat, b: nat)
    requires DistinctKeys(cols) && a < |cols| && b < |cols|
    requires cols[a] in RenameMap(cols) && cols[b] !in RenameMap(cols)
    ensures CanonicalNames(cols)[a] != CanonicalNames(cols)[b]
  {
    var e := RenameFoldSource(Aliases, Lowered(cols), cols[a]);
    var c, x := Aliases[e].0, cols[b];
    RenamedToCanonical(cols, e, x);
    if x == c {
      CanonicalEntry(e);
      KeyOfCanonical(c);
      LoweredLast(cols, b);
      FirstAliasWins(e, Lowered(cols));
      assert false;
    }
  }

  /** For labels distinct after lower/strip, renaming never gives two columns
      one label, so every label selects a single column afterwards. */
  lemma RenamingKeepsLabelsDistinct(cols: seq<string>)
    requires DistinctKeys(cols)
    ensures Distinct(CanonicalNames(cols))
  {
    var r := CanonicalNames(cols);
    DistinctKeysDistinct(cols);
    forall i, j | 0 <= i < j < |cols|
      ensures r[i] != r[j]
    {
      var m := RenameMap(cols);
      if cols[i] in m && cols[j] in m {
        RenamedApart(cols, i, j);
      } else if cols[i] in m {
        RenamedAvoidsKept(cols, i, j);
      } else if cols[j] in m {
        RenamedAvoidsKept(cols, j, i);
      }
    }
  }

  /** [column for column in CANONICAL_COLUMNS if column in df.columns] */
  function PresentIn(names: seq<string>, columns: seq<string>): (keep: seq<string>)
    ensures forall n :: n in keep <==> n in names && n in columns
    ensures Subsequence(keep, names)
  {
    if names == [] then []
    else
      var rest := PresentIn(names[1..], columns);
      if names[0] in columns then [names[0]] + rest
      else
        SubsequenceDropHead(rest, names);
        rest
  }

  lemma {:induction false} PresentInDistinct(names: seq<string>, columns: seq<string>)
    requires Distinct(names)
    ensures Distinct(PresentIn(names, columns))
  {
    if names != [] {
      PresentInDistinct(names[1..], columns);
      assert names[0] !in names[1..];
    }
  }

  /** select_canonical_columns: the canonical columns present, in canonical order. */
  function SelectCanonicalColumns(t: Table): (r: Table)
    ensures forall n :: n in r.columns <==> n in CanonicalColumns && n in t.columns
    ensures Subsequence(r.columns, CanonicalColumns) && Distinct(r.columns)
    ensures |r.rows| == |t.rows|
    ensures forall i, j :: 0 <= i < |t.rows| && 0 <= j < |r.columns| ==>
      r.rows[i][j] == t.rows[i][IndexOf(t.columns, r.columns[j])]
  {
    var keep := PresentIn(CanonicalColumns, t.columns);
    PresentInDistinct(CanonicalColumns, t.columns);
    Select(t, keep)
  }

  /** The column keys, in column order. */
  function Keys(cols: seq<string>): (r: seq<string>)
    ensures |r| == |cols| && forall j :: 0 <= j < |cols| ==> r[j] == Key(cols[j])
  {
    seq(|cols|, j requires 0 <= j < |cols| => Key(cols[j]))
  }

  /** The keys of `lowered` are the keys of the columns. */
  lemma {:induction false} LoweredKeys(cols: seq<string>)
    ensures forall k :: k in Lowered(cols) <==> k in Keys(cols)
  {
    if cols != [] {
      var n := |cols| - 1;
      LoweredKeys(cols[..n]);
      forall k | k in Lowered(cols)
        ensures k in Keys(cols)
      {
        if k != Key(cols[n]) {
          assert k in Lowered(cols[..n]);
          var j :| 0 <= j < n && Keys(cols[..n])[j] == k;
          assert Keys(cols)[j] == k;
        } else {
          assert Keys(cols)[n] == k;
        }
      }
      forall k | k in Keys(cols)
        ensures k in Lowered(cols)
      {
        var j :| 0 <= j < |cols| && Keys(cols)[j] == k;
        LoweredHas(cols, j);
      }
    }
  }
}
