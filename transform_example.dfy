/** The aliasing example of tests/test_transform.py: columns CpG, Beta, chr and
    extra canonicalise to cpg_id, beta, chrom and extra, and the selection
    keeps cpg_id, beta and chrom with the identifier cg1 in place. */
module TransformExample {
  import opened Strings
  import opened Wrappers
  import opened Frame
  import opened Transform

  const Columns: seq<string> := ["CpG", "Beta", "chr", "extra"]

  const Example: Table := Grid(Columns, [[Text("cg1"), Num(0.42), Text("chr1"), Num(1.0)]])

  lemma KeyOfCpG()
    ensures Key("CpG") == "cpg"
  {
    var l := Lower("CpG");
    assert l[0] == 'c' && l[1] == 'p' && l[2] == 'g';
    assert l == "cpg";
    KeyOfLowerTrimmed("cpg");
  }

  lemma KeyOfBeta()
    ensures Key("Beta") == "beta"
  {
    var l := Lower("Beta");
    assert l[0] == 'b' && l[1] == 'e' && l[2] == 't' && l[3] == 'a';
    assert l == "beta";
    KeyOfLowerTrimmed("beta");
  }

  lemma KeyOfChr()
    ensures Key("chr") == "chr"
  {
    KeyOfLowerTrimmed("chr");
  }

  lemma KeyOfExtra()
    ensures Key("extra") == "extra"
  {
    KeyOfLowerTrimmed("extra");
  }

  lemma KeysOfColumns()
    ensures Key("CpG") == "cpg" && Key("Beta") == "beta" && Key("chr") == "chr" && Key("extra") == "extra"
  {
    KeyOfCpG();
    KeyOfBeta();
    KeyOfChr();
    KeyOfExtra();
  }

  /** The `lowered` map of four labels with the four distinct keys of the
      example. */
  lemma LoweredOfFour(a: string, b: string, c: string, d: string)
    requires Key(a) == "cpg" && Key(b) == "beta" && Key(c) == "chr" && Key(d) == "extra"
    ensures Lowered([a, b, c, d]) == map["cpg" := a, "beta" := b, "chr" := c, "extra" := d]
  {
    var c4 := [a, b, c, d];
    assert c4[..3] == [a, b, c] && [a, b, c][..2] == [a, b] && [a, b][..1] == [a] && [a][..0] == [];
    assert Lowered([a]) == map["cpg" := a];
    assert Lowered([a, b]) == map["cpg" := a, "beta" := b];
    assert Lowered([a, b, c]) == map["cpg" := a, "beta" := b, "chr" := c];
  }

  /** The label keyed by the first present alias of entry e is renamed to
      that entry's canonical name. */
  lemma RenamedVia(cols: seq<string>, lowered: map<string, string>, e: nat, k: string, x: string)
    requires e < |Aliases| && Lowered(cols) == lowered
    requires FirstPresent(Aliases[e].1, lowered) == Some(k) && k in lowered && lowered[k] == x
    ensures CanonicalNamesOf(cols, x) == Aliases[e].0
  {
    RenamedToCanonical(cols, e, x);
  }

  /** The new name of label x among cols. */
  function CanonicalNamesOf(cols: seq<string>, x: string): string {
    Rename(RenameMap(cols), x)
  }

  lemma RenamedFirst(a: string, b: string, c: string, d: string)
    requires Key(a) == "cpg" && Key(b) == "beta" && Key(c) == "chr" && Key(d) == "extra"
    ensures CanonicalNamesOf([a, b, c, d], a) == "cpg_id"
  {
    var lowered := map["cpg" := a, "beta" := b, "chr" := c, "extra" := d];
    LoweredOfFour(a, b, c, d);
    FirstCpG(lowered);
    RenamedVia([a, b, c, d], lowered, 0, "cpg", a);
  }

  lemma RenamedSecond(a: string, b: string, c: string, d: string)
    requires Key(a) == "cpg" && Key(b) == "beta" && Key(c) == "chr" && Key(d) == "extra"
    ensures CanonicalNamesOf([a, b, c, d], b) == "beta"
  {
    var lowered := map["cpg" := a, "beta" := b, "chr" := c, "extra" := d];
    LoweredOfFour(a, b, c, d);
    FirstAliasWins(1, lowered);
    RenamedVia([a, b, c, d], lowered, 1, "beta", b);
  }

  lemma RenamedThird(a: string, b: string, c: string, d: string)
    requires Key(a) == "cpg" && Key(b) == "beta" && Key(c) == "chr" && Key(d) == "extra"
    ensures CanonicalNamesOf([a, b, c, d], c) == "chrom"
  {
    var lowered := map["cpg" := a, "beta" := b, "chr" := c, "extra" := d];
    LoweredOfFour(a, b, c, d);
    FirstChr(lowered);
    RenamedVia([a, b, c, d], lowered, 2, "chr", c);
  }

  /** Labels keyed cpg, beta, chr and extra become cpg_id, beta, chrom and the
      fourth label unchanged. */
  lemma CanonicalOfFour(a: string, b: string, c: string, d: string)
    requires Key(a) == "cpg" && Key(b) == "beta" && Key(c) == "chr" && Key(d) == "extra"
    ensures CanonicalNames([a, b, c, d]) == ["cpg_id", "beta", "chrom", d]
  {
    var cols := [a, b, c, d];
    var names := CanonicalNames(cols);
    FourthKept(a, b, c, d);
    assert names[3] == d;
    RenamedFirst(a, b, c, d);
    assert names[0] == CanonicalNamesOf(cols, a) == "cpg_id";
    RenamedSecond(a, b, c, d);
    assert names[1] == CanonicalNamesOf(cols, b) == "beta";
    RenamedThird(a, b, c, d);
    assert names[2] == CanonicalNamesOf(cols, c) == "chrom";
    assert names == [names[0], names[1], names[2], names[3]];
  }

  lemma FourthKept(a: string, b: string, c: string, d: string)
    requires Key(d) == "extra"
    ensures CanonicalNames([a, b, c, d])[3] == d
  {
    ExtraIsNoAlias();
    UnknownColumnPassesThrough([a, b, c, d], 3);
  }

  /** cpg_id is absent, so its second alias cpg is the one found. */
  lemma FirstCpG(lowered: map<string, string>)
    requires "cpg" in lowered && "cpg_id" !in lowered
    ensures FirstPresent(Aliases[0].1, lowered) == Some("cpg")
  {
    var a := Aliases[0].1;
    assert a[0] == "cpg_id" && a[1] == "cpg";
    LowerOfLower("cpg_id");
    LowerOfLower("cpg");
    FirstPresentAt(a, lowered, 1);
  }

  /** chrom is absent, so its second alias chr is the one found. */
  lemma FirstChr(lowered: map<string, string>)
    requires "chr" in lowered && "chrom" !in lowered
    ensures FirstPresent(Aliases[2].1, lowered) == Some("chr")
  {
    var a := Aliases[2].1;
    assert a[0] == "chrom" && a[1] == "chr";
    LowerOfLower("chrom");
    LowerOfLower("chr");
    FirstPresentAt(a, lowered, 1);
  }

  /** extra is no alias of any canonical name. */
  lemma ExtraIsNoAlias()
    ensures forall e :: 0 <= e < |Aliases| ==> "extra" !in LowerAll(Aliases[e].1)
  {
    LoweredAliasListsAreLowered();
  }

  /** CpG, Beta, chr, extra become cpg_id, beta, chrom, extra. */
  lemma CanonicalExample()
    ensures CanonicalNames(Columns) == ["cpg_id", "beta", "chrom", "extra"]
  {
    KeysOfColumns();
    CanonicalOfFour("CpG", "Beta", "chr", "extra");
  }

  /** Names none of which is a column are all dropped. */
  lemma {:induction false} NonePresent(names: seq<string>, cols: seq<string>)
    requires forall n :: n in names ==> n !in cols
    ensures PresentIn(names, cols) == []
  {
    if names != [] {
      NonePresent(names[1..], cols);
    }
  }

  /** Of six names, the first three columns and the last three not, the first
      three are kept. */
  lemma PresentFirstThree(names: seq<string>, cols: seq<string>)
    requires |names| == 6 && names[0] in cols && names[1] in cols && names[2] in cols
    requires names[3] !in cols && names[4] !in cols && names[5] !in cols
    ensures PresentIn(names, cols) == names[..3]
  {
    assert names[3..][0] == names[3] && names[3..][1..][0] == names[4] && names[3..][1..][1..][0] == names[5];
    NonePresent(names[3..], cols);
    assert names[2..][1..] == names[3..];
    assert PresentIn(names[2..], cols) == [names[2]];
    assert names[1..][1..] == names[2..];
    assert PresentIn(names[1..], cols) == [names[1], names[2]];
    assert PresentIn(names, cols) == [names[0], names[1], names[2]];
  }

  /** Of the canonical names, columns holding cpg_id, beta and chrom but
      none of pos, gene and pval keep those three, in that order. */
  lemma PresentOfThree(cols: seq<string>)
    requires "cpg_id" in cols && "beta" in cols && "chrom" in cols
    requires "pos" !in cols && "gene" !in cols && "pval" !in cols
    ensures PresentIn(CanonicalColumns, cols) == ["cpg_id", "beta", "chrom"]
  {
    var n := CanonicalColumns;
    assert n[0] == "cpg_id" && n[1] == "beta" && n[2] == "chrom";
    assert n[3] == "pos" && n[4] == "gene" && n[5] == "pval";
    PresentFirstThree(n, cols);
    assert n[..3] == ["cpg_id", "beta", "chrom"];
  }

  /** The selection of cpg_id, beta, chrom, extra keeps cpg_id, beta and chrom
      and the first row's first cell. */
  lemma SelectedOf(t: Table)
    requires t.columns == ["cpg_id", "beta", "chrom", "extra"] && |t.rows| > 0
    ensures SelectCanonicalColumns(t).columns == ["cpg_id", "beta", "chrom"]
    ensures SelectCanonicalColumns(t).rows[0][0] == t.rows[0][0]
  {
    var cols := t.columns;
    assert cols[0] == "cpg_id" && cols[1] == "beta" && cols[2] == "chrom";
    PresentOfThree(cols);
    var s := SelectCanonicalColumns(t);
    assert IndexOf(cols, s.columns[0]) == 0;
  }

  /** The selection keeps cpg_id, beta and chrom, in that order, and the first
      row's cpg_id is cg1. */
  lemma SelectedExample()
    ensures SelectCanonicalColumns(Canonicalize(Example)).columns == ["cpg_id", "beta", "chrom"]
    ensures SelectCanonicalColumns(Canonicalize(Example)).rows[0][0] == Text("cg1")
  {
    CanonicalExample();
    SelectedOf(Canonicalize(Example));
  }
}
