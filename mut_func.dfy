/** The bar-plot decisions of `mutation_plots` in plot_scripts/mut_func.py
    (lines 85-214): the panel letter and branch of each CSV file, the plot
    file name, the order of the bars, and which bars are drawn gold with a
    driver-gene label. The three parsers at lines 16-82 of the same file are
    the ones modelled once in DriverJoin. */
module MutFunc {
  import opened Wrappers
  import opened Text
  import opened Dicts
  import opened DriverJoin

  // ---------------------------------------------------------------------
  // Titles and file names

  const Alphabet: string := "CDEFGHIJKLMNOPQRSTUVWXYZ"

  /** `alphabet[index % len(alphabet)]`: panels are lettered from 'C' on and
      the letters start again after 'Z'. */
  function TitlePrefix(k: nat): (c: char)
    ensures 'C' <= c <= 'Z'
    ensures c as int == 'C' as int + k % 24
  {
    assert forall i :: 0 <= i < 24 ==> Alphabet[i] as int == 'C' as int + i;
    Alphabet[k % 24]
  }

  /** Files 24 apart get the same letter, and files whose indices differ
      modulo 24 get different ones. */
  lemma TitlePrefixCycle(j: nat, k: nat)
    ensures TitlePrefix(j) == TitlePrefix(k) <==> j % 24 == k % 24
    ensures TitlePrefix(k + 24) == TitlePrefix(k)
  {
  }

  /** `file.split("_")[0]`: the longest prefix of the file name without '_'. */
  function Branch(file: string): (b: string)
    ensures '_' !in b && StartsWith(file, b)
    ensures |b| < |file| ==> file[|b|] == '_'
  {
    SplitFirstPiece(file, '_');
    Split(file, '_')[0]
  }

  /** `f"{title_branch}_{title_prefix}_bar_plot.png"` */
  function PlotFileName(branch: string, k: nat): string {
    branch + "_" + [TitlePrefix(k)] + "_bar_plot.png"
  }

  /** The branch can be read back from the plot file name. */
  lemma PlotFileNameBranch(branch: string, k: nat)
    requires '_' !in branch
    ensures Branch(PlotFileName(branch, k)) == branch
  {
    var rest := [TitlePrefix(k)] + "_bar_plot.png";
    assert PlotFileName(branch, k) == branch + ['_'] + rest;
    SplitAfterPiece(branch, rest, '_');
  }

  /** Two files get the same plot name exactly when they have the same branch
      and their indices agree modulo 24, so the later one's plot replaces the
      earlier one's. */
  lemma PlotFileNamesCollide(b1: string, k1: nat, b2: string, k2: nat)
    requires '_' !in b1 && '_' !in b2
    ensures PlotFileName(b1, k1) == PlotFileName(b2, k2) <==> b1 == b2 && k1 % 24 == k2 % 24
  {
    if PlotFileName(b1, k1) == PlotFileName(b2, k2) {
      PlotFileNameBranch(b1, k1);
      PlotFileNameBranch(b2, k2);
      assert PlotFileName(b1, k1)[|b1| + 1] == TitlePrefix(k1);
      TitlePrefixCycle(k1, k2);
    } else if b1 == b2 && k1 % 24 == k2 % 24 {
      TitlePrefixCycle(k1, k2);
    }
  }

  /** `[f for f in os.listdir(csv_files_dir) if f.endswith(".csv")]` */
  function CsvNames(names: seq<string>): (r: seq<string>)
    decreases |names|
  {
    if names == [] then []
    else
      var last := names[|names| - 1];
      CsvNames(names[..|names| - 1]) + (if EndsWith(last, ".csv") then [last] else [])
  }

  /** The listing keeps exactly the ".csv" names, and no name more often than
      the directory lists it. */
  lemma {:induction false} CsvNamesSpec(names: seq<string>)
    ensures forall x :: x in CsvNames(names) <==> x in names && EndsWith(x, ".csv")
    ensures forall x :: multiset(CsvNames(names))[x] == if EndsWith(x, ".csv") then multiset(names)[x] else 0
    decreases |names|
  {
    if names != [] {
      var init := names[..|names| - 1];
      CsvNamesSpec(init);
      assert names == init + [names[|names| - 1]];
    }
  }

  // ---------------------------------------------------------------------
  // Rows and substitution types

  /** A row of a bar-plot CSV file: the "Substitution" cell and the "Variant
      Count" after `to_numeric(errors="coerce").fillna(0).astype(int)`. */
  datatype Row = Row(sub: string, count: int)

  /** `.str.extract(r"\[(.*?)\]")`: the text between the first '[' and the
      first ']' after it; None (NaN) when there is no such pair. */
  function SubstitutionType(s: string): (r: Option<string>)
  {
    var i := IndexOf(s, '[');
    if i.None? then None
    else
      var after := s[i.value + 1..];
      var j := IndexOf(after, ']');
      if j.None? then None else Some(after[..j.value])
  }

  /** A substitution written `pre[t]post` has type `t`. */
  lemma SubstitutionTypeOf(pre: string, t: string, post: string)
    requires '[' !in pre && ']' !in t
    ensures SubstitutionType(pre + "[" + t + "]" + post) == Some(t)
  {
    var s := pre + "[" + t + "]" + post;
    assert s[..|pre|] == pre && s[|pre|] == '[';
    var after := s[|pre| + 1..];
    assert after == t + "]" + post;
    assert after[..|t|] == t && after[|t|] == ']';
  }

  /** Without a '[' followed later by a ']' there is no type. */
  lemma SubstitutionTypeNone(s: string)
    ensures SubstitutionType(s).None? <==>
              '[' !in s || ']' !in s[IndexOf(s, '[').value + 1..]
  {
  }

  /** `color_map` (lines 98-105) */
  const ColorMap: map<string, string> := map[
    "C>A" := "blue", "C>G" := "black", "C>T" := "red",
    "T>A" := "silver", "T>C" := "lightgreen", "T>G" := "pink"]

  const DriverColour: string := "gold"

  /** No substitution type shares the driver colour. */
  lemma DriverColourDistinct()
    ensures forall t :: t in ColorMap ==> ColorMap[t] != DriverColour
  {
  }

  /** `df["Substitution Type"].unique()` without NaN: each type once, in the
      order of its first row. (NaN selects no row, since NaN equals nothing.) */
  function UniqueTypes(rows: seq<Row>): (r: seq<string>)
    decreases |rows|
  {
    if rows == [] then []
    else
      var init := UniqueTypes(rows[..|rows| - 1]);
      var t := SubstitutionType(rows[|rows| - 1].sub);
      if t.Some? && t.value !in init then init + [t.value] else init
  }

  lemma {:induction false} UniqueTypesSpec(rows: seq<Row>)
    ensures Distinct(UniqueTypes(rows))
    ensures forall t :: t in UniqueTypes(rows) <==> exists x :: x in rows && SubstitutionType(x.sub) == Some(t)
    decreases |rows|
  {
    if rows != [] {
      var init := rows[..|rows| - 1];
      var last := rows[|rows| - 1];
      UniqueTypesSpec(init);
      assert rows == init + [last];
      var t := SubstitutionType(last.sub);
      if t.Some? && t.value !in UniqueTypes(init) {
        DistinctAppend(UniqueTypes(init), t.value);
      }
      forall u ensures u in UniqueTypes(rows) <==> exists x :: x in rows && SubstitutionType(x.sub) == Some(u)
      {
        if u in UniqueTypes(rows) {
          if u in UniqueTypes(init) {
            var x :| x in init && SubstitutionType(x.sub) == Some(u);
            assert x in rows;
          } else {
            assert last in rows;
          }
        }
      }
    }
  }

  /** `df[df["Substitution Type"] == mutation_type]`: the rows of one type,
      in file order. */
  function OfType(rows: seq<Row>, t: string): seq<Row>
    decreases |rows|
  {
    if rows == [] then []
    else
      var last := rows[|rows| - 1];
      OfType(rows[..|rows| - 1], t) + (if SubstitutionType(last.sub) == Some(t) then [last] else [])
  }

  /** Every selected row has the type. */
  lemma {:induction false} OfTypeRows(rows: seq<Row>, t: string)
    ensures forall x :: x in OfType(rows, t) ==> SubstitutionType(x.sub) == Some(t)
    decreases |rows|
  {
    if rows != [] {
      OfTypeRows(rows[..|rows| - 1], t);
    }
  }

  lemma {:induction false} OfTypeCount(rows: seq<Row>, t: string, x: Row)
    ensures multiset(OfType(rows, t))[x] == if SubstitutionType(x.sub) == Some(t) then multiset(rows)[x] else 0
    decreases |rows|
  {
    if rows != [] {
      var init := rows[..|rows| - 1];
      OfTypeCount(init, t, x);
      assert rows == init + [rows[|rows| - 1]];
    }
  }

  /** The rows in the order their bars are drawn: type by type. */
  function Plotted(rows: seq<Row>, types: seq<string>): seq<Row>
    decreases |types|
  {
    if types == [] then []
    else Plotted(rows, types[..|types| - 1]) + OfType(rows, types[|types| - 1])
  }

  lemma {:induction false} PlottedCount(rows: seq<Row>, types: seq<string>, x: Row)
    requires Distinct(types)
    ensures multiset(Plotted(rows, types))[x] ==
              if SubstitutionType(x.sub).Some? && SubstitutionType(x.sub).value in types then multiset(rows)[x] else 0
    decreases |types|
  {
    if types != [] {
      var init := types[..|types| - 1];
      var last := types[|types| - 1];
      assert types == init + [last];
      assert Distinct(init);
      PlottedCount(rows, init, x);
      OfTypeCount(rows, last, x);
    }
  }

  /** Every row with a substitution type gets exactly one bar, and a row
      without one (NaN) gets none. */
  lemma EveryTypedRowOnce(rows: seq<Row>, x: Row)
    ensures multiset(Plotted(rows, UniqueTypes(rows)))[x] ==
              if SubstitutionType(x.sub).Some? then multiset(rows)[x] else 0
  {
    UniqueTypesSpec(rows);
    PlottedCount(rows, UniqueTypes(rows), x);
    if SubstitutionType(x.sub).Some? && x in rows {
      assert SubstitutionType(x.sub).value in UniqueTypes(rows);
    }
  }

  lemma PlottedAppend(rows: seq<Row>, types: seq<string>, i: nat)
    requires i < |types|
    ensures Plotted(rows, types[..i + 1]) == Plotted(rows, types[..i]) + OfType(rows, types[i])
  {
    assert types[..i + 1][..i] == types[..i];
  }

  /** Plotting more types only adds bars after the ones already drawn. */
  lemma {:induction false} PlottedPrefix(rows: seq<Row>, types: seq<string>, i: nat)
    requires i <= |types|
    ensures Plotted(rows, types[..i]) <= Plotted(rows, types)
    decreases |types| - i
  {
    if i == |types| {
      assert types[..i] == types;
    } else {
      PlottedPrefix(rows, types, i + 1);
      PlottedAppend(rows, types, i);
      var a := Plotted(rows, types[..i]);
      var b := OfType(rows, types[i]);
      assert a <= a + b;
    }
  }

  // ---------------------------------------------------------------------
  // The gene of a bar (lines 144-160)

  /** `match[0].split("_")[0] == title_branch and match[1] == row["Substitution"]` */
  predicate Matches(e: Entry, branch: string, sub: string) {
    Split(e.file, '_')[0] == branch && e.col0 == sub
  }

  /** The first entry of a position's list that matches the row. */
  function FirstMatch(es: seq<Entry>, branch: string, sub: string): (r: Option<nat>)
    ensures r.None? <==> forall j :: 0 <= j < |es| ==> !Matches(es[j], branch, sub)
    ensures r.Some? ==> r.value < |es| && Matches(es[r.value], branch, sub)
    ensures r.Some? ==> forall j :: 0 <= j < r.value ==> !Matches(es[j], branch, sub)
    decreases |es|
  {
    if es == [] then None
    else if Matches(es[0], branch, sub) then Some(0)
    else
      var r := FirstMatch(es[1..], branch, sub);
      if r.None? then None
      else
        assert forall j :: 1 <= j < r.value + 1 ==> es[j] == es[1..][j - 1];
        Some(r.value + 1)
  }

  /** `f"{position.split(':')[0]}:{position.split(':')[1]}"`, which raises
      IndexError for a position without ':'. */
  function BasePosition(p: string): (r: Result<string>)
    ensures r.Err? <==> ':' !in p
    ensures r.Err? ==> r.error == IndexError
  {
    SplitCount(p, ':');
    var ps := Split(p, ':');
    if |ps| < 2 then Err(IndexError) else Ok(ps[0] + ":" + ps[1])
  }

  /** A "chr:pos" position is its own base position; anything after a second
      ':' is cut off. */
  lemma BasePositionOf(chrom: string, pos: string, rest: string)
    requires ':' !in chrom && ':' !in pos
    ensures BasePosition(chrom + ":" + pos) == Ok(chrom + ":" + pos)
    ensures BasePosition(chrom + ":" + pos + ":" + rest) == Ok(chrom + ":" + pos)
  {
    assert chrom + ":" + pos == chrom + [':'] + pos;
    SplitAfterPiece(chrom, pos, ':');
    SplitNoSeparator(pos, ':');
    assert chrom + ":" + pos + ":" + rest == chrom + [':'] + (pos + [':'] + rest);
    SplitAfterPiece(chrom, pos + [':'] + rest, ':');
    SplitAfterPiece(pos, rest, ':');
  }

  /** `if gene_name:` */
  predicate Truthy(g: Option<string>) {
    g.Some? && g.value != ""
  }

  /** The entries `matched_positions` holds for a position. */
  function EntriesAt(items: map<string, seq<Entry>>, p: string): seq<Entry> {
    if p in items then items[p] else []
  }

  /** What one position contributes: Ok(None) when no entry matches or its
      gene is missing or empty, the gene when it is a non-empty name, and
      IndexError when a matching position has no ':'. */
  function PositionLabel(p: string, items: map<string, seq<Entry>>, names: map<string, string>, branch: string, sub: string)
    : (r: Result<Option<string>>)
    ensures r.Ok? && r.value.Some? ==> r.value.value != ""
  {
    if FirstMatch(EntriesAt(items, p), branch, sub).None? then Ok(None)
    else
      var base :- BasePosition(p);
      var g := if base in names then Some(names[base]) else None;
      if Truthy(g) then Ok(g) else Ok(None)
  }

  /** The label the loops settle on, going through the positions in order:
      the first position that gives a gene or raises decides. */
  function GeneFrom(keys: seq<string>, items: map<string, seq<Entry>>, names: map<string, string>,
                    branch: string, sub: string): Result<Option<string>>
    decreases |keys|
  {
    if keys == [] then Ok(None)
    else
      var l := PositionLabel(keys[0], items, names, branch, sub);
      if l == Ok(None) then GeneFrom(keys[1..], items, names, branch, sub) else l
  }

  /** No label exactly when no position gives one; otherwise the label or
      error is that of some position, and every earlier position gives
      nothing. */
  lemma GeneFromSpec(keys: seq<string>, items: map<string, seq<Entry>>,
                     names: map<string, string>, branch: string, sub: string)
    ensures GeneFrom(keys, items, names, branch, sub) == Ok(None) <==>
              forall i :: 0 <= i < |keys| ==> PositionLabel(keys[i], items, names, branch, sub) == Ok(None)
    ensures GeneFrom(keys, items, names, branch, sub) != Ok(None) ==>
              exists i :: 0 <= i < |keys| && GeneFrom(keys, items, names, branch, sub) == PositionLabel(keys[i], items, names, branch, sub) &&
                forall j :: 0 <= j < i ==> PositionLabel(keys[j], items, names, branch, sub) == Ok(None)
  {
    GeneFromNone(keys, items, names, branch, sub);
    if GeneFrom(keys, items, names, branch, sub) != Ok(None) {
      GeneFromFirst(keys, items, names, branch, sub);
    }
  }

  lemma {:induction false} GeneFromNone(keys: seq<string>, items: map<string, seq<Entry>>,
                                        names: map<string, string>, branch: string, sub: string)
    ensures GeneFrom(keys, items, names, branch, sub) == Ok(None) <==>
              forall i :: 0 <= i < |keys| ==> PositionLabel(keys[i], items, names, branch, sub) == Ok(None)
    decreases |keys|
  {
    if keys != [] {
      var tail := keys[1..];
      GeneFromNone(tail, items, names, branch, sub);
      assert forall i :: 1 <= i < |keys| ==> keys[i] == tail[i - 1];
    }
  }

  lemma {:induction false} GeneFromFirst(keys: seq<string>, items: map<string, seq<Entry>>,
                                         names: map<string, string>, branch: string, sub: string)
    requires GeneFrom(keys, items, names, branch, sub) != Ok(None)
    ensures exists i :: 0 <= i < |keys| && GeneFrom(keys, items, names, branch, sub) == PositionLabel(keys[i], items, names, branch, sub) &&
              forall j :: 0 <= j < i ==> PositionLabel(keys[j], items, names, branch, sub) == Ok(None)
    decreases |keys|
  {
    var r := GeneFrom(keys, items, names, branch, sub);
    if PositionLabel(keys[0], items, names, branch, sub) == Ok(None) {
      var tail := keys[1..];
      GeneFromFirst(tail, items, names, branch, sub);
      var i :| 0 <= i < |tail| && r == PositionLabel(tail[i], items, names, branch, sub) &&
               forall j :: 0 <= j < i ==> PositionLabel(tail[j], items, names, branch, sub) == Ok(None);
      assert keys[i + 1] == tail[i];
      forall j | 0 <= j < i + 1
        ensures PositionLabel(keys[j], items, names, branch, sub) == Ok(None)
      {
        if j > 0 {
          assert keys[j] == tail[j - 1];
        }
      }
    } else {
      assert r == PositionLabel(keys[0], items, names, branch, sub);
    }
  }

  /** The nested loops of lines 144-160 for one row: `gene_name` starts as
      None; the inner loop stops at the first matching entry of a position
      and looks up its base position; the outer loop stops once
      `gene_name` is a non-empty name. */
  method DecideGene(matched: Dict<string, seq<Entry>>, names: map<string, string>, branch: string, sub: string)
    returns (r: Result<Option<string>>)
    requires matched.Valid()
    ensures r == GeneFrom(matched.keys, matched.items, names, branch, sub)
  {
    var keys := matched.keys;
    var i := 0;
    while i < |keys|
      invariant 0 <= i <= |keys|
      invariant GeneFrom(keys, matched.items, names, branch, sub) == GeneFrom(keys[i..], matched.items, names, branch, sub)
    {
      var found := PositionGene(keys[i], matched.items, names, branch, sub);
      GeneFromStep(keys, i, matched.items, names, branch, sub);
      if found != Ok(None) {
        return found;
      }
      i := i + 1;
    }
    assert keys[i..] == [];
    return Ok(None);
  }

  /** The label from position i on: that of position i unless it gives
      nothing. */
  lemma GeneFromStep(keys: seq<string>, i: nat, items: map<string, seq<Entry>>,
                     names: map<string, string>, branch: string, sub: string)
    requires i < |keys|
    ensures GeneFrom(keys[i..], items, names, branch, sub) ==
              var l := PositionLabel(keys[i], items, names, branch, sub);
              if l == Ok(None) then GeneFrom(keys[i + 1..], items, names, branch, sub) else l
  {
    assert keys[i..][0] == keys[i] && keys[i..][1..] == keys[i + 1..];
  }

  /** The inner loop of lines 146-157 for one position, followed by the
      `if gene_name:` test: the first matching entry decides, through the
      gene of its base position. */
  method PositionGene(p: string, items: map<string, seq<Entry>>, names: map<string, string>, branch: string, sub: string)
    returns (r: Result<Option<string>>)
    ensures r == PositionLabel(p, items, names, branch, sub)
  {
    var es := EntriesAt(items, p);
    var gene: Option<string> := None;
    var j := 0;
    while j < |es|
      invariant 0 <= j <= |es| && gene == None
      invariant forall k :: 0 <= k < j ==> !Matches(es[k], branch, sub)
    {
      if Matches(es[j], branch, sub) {
        assert FirstMatch(es, branch, sub) == Some(j);
        var base := BasePosition(p);
        if base.Err? {
          return Err(base.error);
        }
        gene := if base.value in names then Some(names[base.value]) else None;
        break;
      }
      j := j + 1;
    }
    if Truthy(gene) {
      return Ok(gene);
    }
    return Ok(None);
  }

  // ---------------------------------------------------------------------
  // Bars (lines 137-184)

  /** One `ax.bar` call: x label, height, colour, and the gene written above
      a driver bar. */
  datatype Bar = Bar(x: string, height: int, colour: string, gene: Option<string>)

  /** The bar of one row: `color_map[mutation_type]` is looked up first,
      then the gene. */
  function RowBar(row: Row, matched: Dict<string, seq<Entry>>, names: map<string, string>, branch: string)
    : Result<Bar>
  {
    var t := SubstitutionType(row.sub);
    if t.None? || t.value !in ColorMap then Err(KeyError)
    else
      var g :- GeneFrom(matched.keys, matched.items, names, branch, row.sub);
      if g.Some? then Ok(Bar(row.sub, row.count, DriverColour, g))
      else Ok(Bar(row.sub, row.count, ColorMap[t.value], None))
  }

  /** A type outside `color_map` raises KeyError whatever the gene lookup
      would do; otherwise the bar has the row's label and height, and it is
      gold exactly when it carries a gene, which is the gene the loops settle
      on. */
  lemma RowBarSpec(row: Row, matched: Dict<string, seq<Entry>>, names: map<string, string>, branch: string)
    ensures SubstitutionType(row.sub).None? || SubstitutionType(row.sub).value !in ColorMap ==>
              RowBar(row, matched, names, branch) == Err(KeyError)
    ensures RowBar(row, matched, names, branch).Err? ==>
              RowBar(row, matched, names, branch).error == KeyError || RowBar(row, matched, names, branch).error == IndexError
    ensures RowBar(row, matched, names, branch).Ok? ==>
              var b := RowBar(row, matched, names, branch).value;
              b.x == row.sub && b.height == row.count && (b.colour == DriverColour <==> b.gene.Some?)
    ensures RowBar(row, matched, names, branch).Ok? ==>
              GeneFrom(matched.keys, matched.items, names, branch, row.sub) == Ok(RowBar(row, matched, names, branch).value.gene)
    ensures RowBar(row, matched, names, branch).Ok? && RowBar(row, matched, names, branch).value.gene.None? ==>
              RowBar(row, matched, names, branch).value.colour == ColorMap[SubstitutionType(row.sub).value]
  {
    var t := SubstitutionType(row.sub);
    var r := RowBar(row, matched, names, branch);
    if t.Some? && t.value in ColorMap {
      var g := GeneFrom(matched.keys, matched.items, names, branch, row.sub);
      GeneFromError(matched.keys, matched.items, names, branch, row.sub);
      if g.Ok? {
        if g.value.Some? {
          assert r == Ok(Bar(row.sub, row.count, DriverColour, g.value));
        } else {
          assert r == Ok(Bar(row.sub, row.count, ColorMap[t.value], None));
        }
      } else {
        assert r == Err(g.error);
      }
    }
  }

  /** The only error the gene loops raise is the IndexError of a position
      without ':'. */
  lemma {:induction false} GeneFromError(keys: seq<string>, items: map<string, seq<Entry>>,
                                         names: map<string, string>, branch: string, sub: string)
    ensures GeneFrom(keys, items, names, branch, sub).Err? ==> GeneFrom(keys, items, names, branch, sub).error == IndexError
    decreases |keys|
  {
    if keys != [] {
      GeneFromError(keys[1..], items, names, branch, sub);
    }
  }

  /** `row => RowBar(row, ...)` for one file. */
  function BarFn(matched: Dict<string, seq<Entry>>, names: map<string, string>, branch: string): Row -> Result<Bar> {
    row => RowBar(row, matched, names, branch)
  }

  /** The bars of the rows in turn, or the first row's error. */
  function BarsOf(rows: seq<Row>, bar: Row -> Result<Bar>): Result<seq<Bar>>
    decreases |rows|
  {
    if rows == [] then Ok([])
    else
      var bs :- BarsOf(rows[..|rows| - 1], bar);
      var b :- bar(rows[|rows| - 1]);
      Ok(bs + [b])
  }

  /** The plot succeeds exactly when every row's bar does, with one bar per
      row in order; otherwise the error is that of the first failing row. */
  lemma {:induction false} BarsOfSpec(rows: seq<Row>, bar: Row -> Result<Bar>)
    ensures BarsOf(rows, bar).Ok? <==> forall i :: 0 <= i < |rows| ==> bar(rows[i]).Ok?
    ensures BarsOf(rows, bar).Ok? ==>
              |BarsOf(rows, bar).value| == |rows| &&
              forall i :: 0 <= i < |rows| ==> bar(rows[i]) == Ok(BarsOf(rows, bar).value[i])
    ensures BarsOf(rows, bar).Err? ==>
              exists i :: 0 <= i < |rows| && bar(rows[i]) == Err(BarsOf(rows, bar).error) &&
                forall j :: 0 <= j < i ==> bar(rows[j]).Ok?
    decreases |rows|
  {
    if rows != [] {
      var init := rows[..|rows| - 1];
      BarsOfSpec(init, bar);
      assert forall i :: 0 <= i < |init| ==> rows[i] == init[i];
    }
  }

  /** Once a prefix of the rows fails, later rows change nothing. */
  lemma {:induction false} BarsOfSticky(a: seq<Row>, b: seq<Row>, bar: Row -> Result<Bar>)
    requires BarsOf(a, bar).Err?
    ensures BarsOf(a + b, bar) == BarsOf(a, bar)
    decreases |b|
  {
    if b != [] {
      var b' := b[..|b| - 1];
      BarsOfSticky(a, b', bar);
      assert (a + b)[..|a + b| - 1] == a + b';
    } else {
      assert a + b == a;
    }
  }

  lemma BarsOfSnoc(a: seq<Row>, x: Row, bar: Row -> Result<Bar>)
    ensures BarsOf(a + [x], bar) ==
              if BarsOf(a, bar).Err? then BarsOf(a, bar)
              else if bar(x).Err? then Err(bar(x).error)
              else Ok(BarsOf(a, bar).value + [bar(x).value])
  {
    assert (a + [x])[..|a|] == a;
  }

  /** Once the bars of the first `i` types fail, the whole plot fails with
      the same error. */
  lemma BarsPrefixFail(rows: seq<Row>, types: seq<string>, i: nat, bar: Row -> Result<Bar>)
    requires i <= |types|
    requires BarsOf(Plotted(rows, types[..i]), bar).Err?
    ensures BarsOf(Plotted(rows, types), bar) == BarsOf(Plotted(rows, types[..i]), bar)
  {
    PlottedPrefix(rows, types, i);
    var done := Plotted(rows, types[..i]);
    var more := Plotted(rows, types)[|done|..];
    assert Plotted(rows, types) == done + more;
    BarsOfSticky(done, more, bar);
  }

  /** The bars after one more type; an error there is the plot's error. */
  lemma TypeStep(rows: seq<Row>, types: seq<string>, i: nat, bar: Row -> Result<Bar>, res: Result<seq<Bar>>)
    requires i < |types| && res == BarsOf(Plotted(rows, types[..i]) + OfType(rows, types[i]), bar)
    ensures BarsOf(Plotted(rows, types[..i + 1]), bar) == res
    ensures res.Err? ==> BarsOf(Plotted(rows, types), bar) == res
  {
    PlottedAppend(rows, types, i);
    if res.Err? {
      BarsPrefixFail(rows, types, i + 1, bar);
      assert types[..|types|] == types;
    }
  }

  /** Lines 143-184 for one row of type `t`: `color_map[t]`, then the
      gene loops, then the bar. */
  method DrawBar(row: Row, t: string, matched: Dict<string, seq<Entry>>, names: map<string, string>, branch: string)
    returns (r: Result<Bar>)
    requires matched.Valid() && SubstitutionType(row.sub) == Some(t)
    ensures r == BarFn(matched, names, branch)(row)
  {
    if t !in ColorMap {
      return Err(KeyError);
    }
    var color := ColorMap[t];
    var g := DecideGene(matched, names, branch, row.sub);
    if g.Err? {
      return Err(g.error);
    }
    if g.value.Some? {
      r := Ok(Bar(row.sub, row.count, DriverColour, g.value));
    } else {
      r := Ok(Bar(row.sub, row.count, color, None));
    }
  }

  /** One more row of a type: its bar is appended, or its error ends the plot. */
  lemma BarsStep(done: seq<Row>, md: seq<Row>, j: nat, out: seq<Bar>, bar: Row -> Result<Bar>)
    requires j < |md| && BarsOf(done + md[..j], bar) == Ok(out)
    ensures bar(md[j]).Err? ==> BarsOf(done + md, bar) == Err(bar(md[j]).error)
    ensures bar(md[j]).Ok? ==> BarsOf(done + md[..j + 1], bar) == Ok(out + [bar(md[j]).value])
  {
    BarsOfSnoc(done + md[..j], md[j], bar);
    assert done + md[..j + 1] == done + md[..j] + [md[j]];
    if bar(md[j]).Err? {
      assert (done + md[..j + 1]) + md[j + 1..] == done + md;
      BarsOfSticky(done + md[..j + 1], md[j + 1..], bar);
    }
  }

  /** The inner loop of lines 139-184: the bars of the rows of one type,
      drawn after the bars `out0` of the rows `done` already plotted. */
  method TypeBars(md: seq<Row>, t: string, done: seq<Row>, out0: seq<Bar>,
                  matched: Dict<string, seq<Entry>>, names: map<string, string>, branch: string)
    returns (r: Result<seq<Bar>>)
    requires matched.Valid()
    requires forall i :: 0 <= i < |md| ==> SubstitutionType(md[i].sub) == Some(t)
    requires BarsOf(done, BarFn(matched, names, branch)) == Ok(out0)
    ensures r == BarsOf(done + md, BarFn(matched, names, branch))
  {
    ghost var bar := BarFn(matched, names, branch);
    var out := out0;
    assert done + md[..0] == done;
    for j := 0 to |md|
      invariant BarsOf(done + md[..j], bar) == Ok(out)
    {
      var row := md[j];
      var b := DrawBar(row, t, matched, names, branch);
      BarsStep(done, md, j, out, bar);
      if b.Err? {
        return Err(b.error);
      }
      out := out + [b.value];
    }
    assert md[..|md|] == md;
    r := Ok(out);
  }

  /** The bar loop of lines 137-184 for one file: for each substitution type
      in order of first appearance, the rows of that type in file order. */
  method MutationBars(rows: seq<Row>, matched: Dict<string, seq<Entry>>, names: map<string, string>, branch: string)
    returns (r: Result<seq<Bar>>)
    requires matched.Valid()
    ensures r == BarsOf(Plotted(rows, UniqueTypes(rows)), BarFn(matched, names, branch))
  {
    ghost var bar := BarFn(matched, names, branch);
    var types := UniqueTypes(rows);
    var out: seq<Bar> := [];
    for i := 0 to |types|
      invariant BarsOf(Plotted(rows, types[..i]), bar) == Ok(out)
    {
      var md := OfType(rows, types[i]);
      OfTypeRows(rows, types[i]);
      var res := TypeBars(md, types[i], Plotted(rows, types[..i]), out, matched, names, branch);
      TypeStep(rows, types, i, bar, res);
      if res.Err? {
        return res;
      }
      out := res.value;
    }
    assert types[..|types|] == types;
    r := Ok(out);
  }

  // ---------------------------------------------------------------------
  // One plot per CSV file (lines 115-214)

  /** One saved plot: its title, its path and its bars. */
  datatype Plot = Plot(title: string, path: string, bars: seq<Bar>)

  /** `f"({title_prefix}) Branch {title_branch}"` */
  function Title(file: string, k: nat): string {
    "(" + [TitlePrefix(k)] + ") Branch " + Branch(file)
  }

  /** The plot of the k-th CSV file whose rows are `rows`. */
  function PlotOf(targetDir: string, file: string, k: nat, rows: seq<Row>,
                  matched: Dict<string, seq<Entry>>, names: map<string, string>): Result<Plot>
  {
    var bars :- BarsOf(Plotted(rows, UniqueTypes(rows)), BarFn(matched, names, Branch(file)));
    Ok(Plot(Title(file, k), PathJoin(targetDir, PlotFileName(Branch(file), k)), bars))
  }

  /** `(file: string, k: nat) => PlotOf(...)`: the plot of the k-th CSV file; `table`
      stands for reading a file. */
  function PlotFn(targetDir: string, table: string -> seq<Row>,
                  matched: Dict<string, seq<Entry>>, names: map<string, string>): (string, nat) -> Result<Plot> {
    (file: string, k: nat) => PlotOf(targetDir, file, k, table(file), matched, names)
  }

  /** The plots of the listed CSV files in turn, or the first file's error. */
  function PlotsOf(files: seq<string>, plot: (string, nat) -> Result<Plot>): Result<seq<Plot>>
    decreases |files|
  {
    if files == [] then Ok([])
    else
      var k := |files| - 1;
      var ps :- PlotsOf(files[..k], plot);
      var p :- plot(files[k], k);
      Ok(ps + [p])
  }

  /** Every plot of a successful run is the plot of its file at its index,
      one per file; a failed run fails with the error of the first file
      whose plot fails. */
  lemma {:induction false} PlotsOfSpec(files: seq<string>, plot: (string, nat) -> Result<Plot>)
    ensures PlotsOf(files, plot).Ok? <==> forall k :: 0 <= k < |files| ==> plot(files[k], k).Ok?
    ensures PlotsOf(files, plot).Ok? ==>
              |PlotsOf(files, plot).value| == |files| &&
              forall k :: 0 <= k < |files| ==> plot(files[k], k) == Ok(PlotsOf(files, plot).value[k])
    ensures PlotsOf(files, plot).Err? ==>
              exists k :: 0 <= k < |files| && plot(files[k], k) == Err(PlotsOf(files, plot).error) &&
                forall j :: 0 <= j < k ==> plot(files[j], j).Ok?
    decreases |files|
  {
    if files != [] {
      var init := files[..|files| - 1];
      PlotsOfSpec(init, plot);
      assert forall k :: 0 <= k < |init| ==> files[k] == init[k];
    }
  }

  lemma {:induction false} PlotsSticky(files: seq<string>, k: nat, plot: (string, nat) -> Result<Plot>)
    requires k <= |files|
    requires PlotsOf(files[..k], plot).Err?
    ensures PlotsOf(files, plot) == PlotsOf(files[..k], plot)
    decreases |files| - k
  {
    if k < |files| {
      assert files[..k + 1][..k] == files[..k];
      PlotsSticky(files, k + 1, plot);
    } else {
      assert files[..k] == files;
    }
  }

  /** The file loop of `mutation_plots`: one plot per ".csv" name of the
      directory listing, appended to `plots` in listing order. */
  method MutationPlots(targetDir: string, listing: seq<string>, table: string -> seq<Row>,
                       matched: Dict<string, seq<Entry>>, names: map<string, string>)
    returns (r: Result<seq<Plot>>)
    requires matched.Valid()
    ensures r == PlotsOf(CsvNames(listing), PlotFn(targetDir, table, matched, names))
  {
    ghost var plot := PlotFn(targetDir, table, matched, names);
    var files := CsvNames(listing);
    var plots: seq<Plot> := [];
    for k := 0 to |files|
      invariant PlotsOf(files[..k], plot) == Ok(plots)
    {
      var file := files[k];
      assert files[..k + 1][..k] == files[..k] && files[..k + 1][k] == file;
      var branch := Branch(file);
      var bars := MutationBars(table(file), matched, names, branch);
      if bars.Err? {
        assert plot(file, k) == Err(bars.error);
        PlotsSticky(files, k + 1, plot);
        return Err(bars.error);
      }
      var p := Plot(Title(file, k), PathJoin(targetDir, PlotFileName(branch, k)), bars.value);
      assert plot(file, k) == Ok(p);
      plots := plots + [p];
    }
    assert files[..|files|] == files;
    r := Ok(plots);
  }
}
