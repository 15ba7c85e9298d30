/** The SNV part of the Meltos-input builder (CloneFinder2MeltosIn.py,
    lines 26-60): the sample list taken from the read-count columns and the
    per-site variant allele frequency of every sample. */
module MeltosSnv {
  import opened Wrappers
  import opened Text
  import opened Dicts

  /** The CloneFinder SNV table as pandas reads it: the header in file order,
      the text columns, the integer read-count columns, and the row count. */
  datatype SnvTable = SnvTable(
    columns: seq<string>,
    text: map<string, seq<string>>,
    counts: map<string, seq<int>>,
    rows: nat)

  /** Every column holds one cell per row. */
  ghost predicate WellFormed(t: SnvTable) {
    && (forall c :: c in t.text ==> |t.text[c]| == t.rows)
    && (forall c :: c in t.counts ==> |t.counts[c]| == t.rows)
  }

  /** A column of the table written to the Meltos SNV file. */
  datatype OutColumn = Cells(cells: seq<string>) | Vafs(vafs: seq<real>)

  // ---------------------------------------------------------------------
  // Samples

  /** `Col.find(":ref") != -1` */
  predicate IsRefColumn(col: string) {
    Contains(col, ":ref")
  }

  /** `Col.split(":")[0]` */
  function SampleOf(col: string): string {
    Split(col, ':')[0]
  }

  /** SampLs for the header `cols`. */
  function Samples(cols: seq<string>): seq<string>
    decreases |cols|
  {
    if cols == [] then []
    else
      var last := cols[|cols| - 1];
      Samples(cols[..|cols| - 1]) + (if IsRefColumn(last) then [SampleOf(last)] else [])
  }

  /** The loop that fills SampLs (lines 40-43). */
  method SampleNames(cols: seq<string>) returns (samps: seq<string>)
    ensures samps == Samples(cols)
  {
    samps := [];
    var i := 0;
    while i < |cols|
      invariant 0 <= i <= |cols|
      invariant samps == Samples(cols[..i])
    {
      assert cols[..i + 1][..i] == cols[..i];
      if IsRefColumn(cols[i]) {
        samps := samps + [SampleOf(cols[i])];
      }
      i := i + 1;
    }
    assert cols[..i] == cols;
  }

  /** The samples are exactly the prefixes before the first ':' of the
      columns containing ":ref", one per such column, in column order. */
  lemma {:induction false} SamplesAre(cols: seq<string>)
    ensures forall s :: s in Samples(cols) <==> exists c :: c in cols && IsRefColumn(c) && SampleOf(c) == s
    ensures |Samples(cols)| == |RefColumns(cols)|
    ensures forall i :: 0 <= i < |Samples(cols)| ==> Samples(cols)[i] == SampleOf(RefColumns(cols)[i])
    decreases |cols|
  {
    if cols != [] {
      var init := cols[..|cols| - 1];
      SamplesAre(init);
      assert cols == init + [cols[|cols| - 1]];
    }
  }

  /** The header columns that contain ":ref", in order. */
  function RefColumns(cols: seq<string>): (r: seq<string>)
    ensures forall c :: c in r <==> c in cols && IsRefColumn(c)
    decreases |cols|
  {
    if cols == [] then []
    else
      var init := cols[..|cols| - 1];
      var last := cols[|cols| - 1];
      assert cols == init + [last];
      RefColumns(init) + (if IsRefColumn(last) then [last] else [])
  }

  /** No sample name contains ':'. */
  lemma SampleNamesLackColon(cols: seq<string>)
    ensures forall s :: s in Samples(cols) ==> ':' !in s
  {
    SamplesAre(cols);
    forall s | s in Samples(cols)
      ensures ':' !in s
    {
      var c :| c in cols && IsRefColumn(c) && SampleOf(c) == s;
      SplitFirstPiece(c, ':');
    }
  }

  // ---------------------------------------------------------------------
  // Variant allele frequencies

  /** The VAF of one site: alt/(alt+ref), or 0 when both counts add to 0. */
  function Vaf(alt: int, ref: int): real {
    if alt + ref == 0 then 0.0 else (alt as real) / ((alt + ref) as real)
  }

  /** For read counts (never negative) the VAF is a fraction in [0, 1], zero
      exactly when there is no alternative read. */
  lemma VafIsFraction(alt: int, ref: int)
    requires alt >= 0 && ref >= 0
    ensures 0.0 <= Vaf(alt, ref) <= 1.0
    ensures Vaf(alt, ref) == 0.0 <==> alt == 0
    ensures ref == 0 && alt > 0 ==> Vaf(alt, ref) == 1.0
  {
    if alt + ref != 0 {
      var t := (alt + ref) as real;
      assert t > 0.0;
      assert (alt as real) <= t;
      assert (alt as real) / t <= t / t;
    }
  }

  /** The `while c < Len` loop for one sample (lines 45-58). */
  method SiteVafs(alt: seq<int>, ref: seq<int>) returns (vaf: seq<real>)
    requires |alt| == |ref|
    ensures |vaf| == |alt|
    ensures forall c :: 0 <= c < |vaf| ==> vaf[c] == Vaf(alt[c], ref[c])
  {
    vaf := [];
    var c := 0;
    while c < |alt|
      invariant 0 <= c <= |alt| && |vaf| == c
      invariant forall k :: 0 <= k < c ==> vaf[k] == Vaf(alt[k], ref[k])
    {
      var tot := alt[c] + ref[c];
      if tot == 0 {
        vaf := vaf + [0.0];
      } else {
        vaf := vaf + [1.0 * (alt[c] as real) / (tot as real)];
      }
      c := c + 1;
    }
  }

  // ---------------------------------------------------------------------
  // The table written to OutSNV

  /** Both read-count columns of sample `s` exist. */
  predicate HasCounts(t: SnvTable, s: string) {
    s + ":alt" in t.counts && s + ":ref" in t.counts
  }

  /** The frequencies written for sample `s`. */
  function SampleVafs(t: SnvTable, s: string): seq<real>
    requires WellFormed(t) && (t.rows > 0 ==> HasCounts(t, s))
  {
    if t.rows == 0 then []
    else seq(t.rows, c requires 0 <= c < t.rows => Vaf(t.counts[s + ":alt"][c], t.counts[s + ":ref"][c]))
  }

  /** `i.replace("chr", "")` for every CHR cell. */
  function ChromNames(chr: seq<string>): (r: seq<string>)
    ensures |r| == |chr|
  {
    seq(|chr|, i requires 0 <= i < |chr| => ReplaceAll(chr[i], "chr", ""))
  }

  /** The column order of the written table: the four fixed columns, then
      every sample that is not already a column, in sample order. */
  function OutHeader(samps: seq<string>): (r: seq<string>)
    decreases |samps|
  {
    if samps == [] then FixedHeader()
    else
      var init := OutHeader(samps[..|samps| - 1]);
      var s := samps[|samps| - 1];
      if s in init then init else init + [s]
  }

  function FixedHeader(): seq<string> {
    ["#chrom", "pos", "desc", "normal"]
  }

  /** The written table starts with `#chrom, pos, desc, normal`, and its other
      columns are the distinct sample names. */
  lemma {:induction false} OutHeaderShape(samps: seq<string>)
    ensures |OutHeader(samps)| >= 4 && OutHeader(samps)[..4] == FixedHeader()
    ensures Distinct(OutHeader(samps))
    ensures forall s :: s in samps ==> s in OutHeader(samps)
    ensures forall i :: 4 <= i < |OutHeader(samps)| ==> OutHeader(samps)[i] in samps
    decreases |samps|
  {
    if samps != [] {
      var init := samps[..|samps| - 1];
      OutHeaderShape(init);
      assert samps == init + [samps[|samps| - 1]];
    }
  }

  /** The CHR loop (lines 28-30). */
  method ChromColumn(chr: seq<string>) returns (chrom: seq<string>)
    ensures chrom == ChromNames(chr)
  {
    chrom := [];
    var i := 0;
    while i < |chr|
      invariant 0 <= i <= |chr|
      invariant chrom == ChromNames(chr[..i])
    {
      chrom := chrom + [ReplaceAll(chr[i], "chr", "")];
      i := i + 1;
    }
    assert chr[..i] == chr;
  }

  /** The loop `for Samp in SampLs` (lines 44-58), adding one VAF column per
      sample to the table `out`. */
  method AddSampleColumns(t: SnvTable, samps: seq<string>, out0: Dict<string, OutColumn>)
    returns (r: Result<Dict<string, OutColumn>>)
    requires WellFormed(t) && out0.Valid()
    ensures r.Err? <==> t.rows > 0 && exists s :: s in samps && !HasCounts(t, s)
    ensures r.Ok? ==> r.value.Valid() && r.value.keys == Appended(out0.keys, samps)
    ensures r.Ok? ==> forall s :: s in samps ==> s in r.value.items && r.value.items[s] == Vafs(SampleVafs(t, s))
    ensures r.Ok? ==> forall c :: c in out0.items && c !in samps ==> c in r.value.items && r.value.items[c] == out0.items[c]
  {
    var out := out0;
    var k := 0;
    while k < |samps|
      invariant 0 <= k <= |samps|
      invariant out.Valid() && out.keys == Appended(out0.keys, samps[..k])
      invariant t.rows > 0 ==> forall s :: s in samps[..k] ==> HasCounts(t, s)
      invariant forall s :: s in samps[..k] ==> s in out.items && out.items[s] == Vafs(SampleVafs(t, s))
      invariant forall c :: c in out0.items && c !in samps[..k] ==> c in out.items && out.items[c] == out0.items[c]
    {
      var s := samps[k];
      assert samps[..k + 1] == samps[..k] + [s];
      var vaf := [];
      if t.rows > 0 {
        if !HasCounts(t, s) {
          return Err(KeyError);
        }
        vaf := SiteVafs(t.counts[s + ":alt"], t.counts[s + ":ref"]);
      }
      assert vaf == SampleVafs(t, s);
      PutValid(out, s, Vafs(vaf));
      out := out.Put(s, Vafs(vaf));
      k := k + 1;
    }
    assert samps[..k] == samps;
    return Ok(out);
  }

  /** The key order after writing `samps` in turn into a dictionary with key
      order `keys`. */
  function Appended(keys: seq<string>, samps: seq<string>): seq<string>
    decreases |samps|
  {
    if samps == [] then keys
    else
      var init := Appended(keys, samps[..|samps| - 1]);
      var s := samps[|samps| - 1];
      if s in init then init else init + [s]
  }

  lemma {:induction false} OutHeaderAppended(samps: seq<string>)
    ensures OutHeader(samps) == Appended(FixedHeader(), samps)
    decreases |samps|
  {
    if samps != [] {
      OutHeaderAppended(samps[..|samps| - 1]);
    }
  }

  /** Lines 28-60: build the columns of the OutSNV table in dictionary order. */
  method SnvOut(t: SnvTable) returns (r: Result<Dict<string, OutColumn>>)
    requires WellFormed(t)
    ensures r.Err? <==> "CHR" !in t.text || "Position" !in t.text ||
                        (t.rows > 0 && exists s :: s in Samples(t.columns) && !HasCounts(t, s))
    ensures r.Ok? ==> r.value.Valid() && r.value.keys == OutHeader(Samples(t.columns))
    ensures r.Ok? ==> forall s :: s in Samples(t.columns) ==> s in r.value.items && r.value.items[s] == Vafs(SampleVafs(t, s))
    ensures r.Ok? && "#chrom" !in Samples(t.columns) ==>
              "#chrom" in r.value.items && r.value.items["#chrom"] == Cells(ChromNames(t.text["CHR"]))
    ensures r.Ok? && "pos" !in Samples(t.columns) ==>
              "pos" in r.value.items && r.value.items["pos"] == Cells(t.text["Position"])
    ensures r.Ok? && "desc" !in Samples(t.columns) ==>
              "desc" in r.value.items && r.value.items["desc"] == Cells(Filled(t.rows, "NA"))
    ensures r.Ok? && "normal" !in Samples(t.columns) ==>
              "normal" in r.value.items && r.value.items["normal"] == Cells(Filled(t.rows, "0"))
  {
    if "CHR" !in t.text {
      return Err(KeyError);
    }
    var chrom := ChromColumn(t.text["CHR"]);
    if "Position" !in t.text {
      return Err(KeyError);
    }
    var out := FixedColumns(chrom, t.text["Position"], t.rows);
    FixedColumnsShape(chrom, t.text["Position"], t.rows);
    var samps := SampleNames(t.columns);
    OutHeaderAppended(samps);
    r := AddSampleColumns(t, samps, out);
  }

  /** A column of `rows` copies of `v`. */
  function Filled(rows: nat, v: string): seq<string> {
    seq(rows, _ => v)
  }

  /** The four columns assigned first (lines 33-38). */
  function FixedColumns(chrom: seq<string>, pos: seq<string>, rows: nat): Dict<string, OutColumn> {
    Empty<string, OutColumn>()
      .Put("#chrom", Cells(chrom))
      .Put("pos", Cells(pos))
      .Put("desc", Cells(Filled(rows, "NA")))
      .Put("normal", Cells(Filled(rows, "0")))
  }

  /** They come in header order, with the chromosome names under "#chrom",
      the positions under "pos", "NA" in every "desc" cell and 0 in every
      "normal" cell. */
  lemma FixedColumnsShape(chrom: seq<string>, pos: seq<string>, rows: nat)
    ensures FixedColumns(chrom, pos, rows).Valid()
    ensures FixedColumns(chrom, pos, rows).keys == FixedHeader()
    ensures "#chrom" in FixedColumns(chrom, pos, rows).items
    ensures FixedColumns(chrom, pos, rows).items["#chrom"] == Cells(chrom)
    ensures FixedColumns(chrom, pos, rows).items["pos"] == Cells(pos)
    ensures FixedColumns(chrom, pos, rows).items["desc"] == Cells(Filled(rows, "NA"))
    ensures FixedColumns(chrom, pos, rows).items["normal"] == Cells(Filled(rows, "0"))
  {
    var d0 := Empty<string, OutColumn>();
    var d1 := d0.Put("#chrom", Cells(chrom));
    var d2 := d1.Put("pos", Cells(pos));
    var d3 := d2.Put("desc", Cells(Filled(rows, "NA")));
    PutValid(d0, "#chrom", Cells(chrom));
    assert d1.keys == ["#chrom"];
    assert "pos"[0] != "#chrom"[0];
    PutValid(d1, "pos", Cells(pos));
    assert d2.keys == ["#chrom", "pos"];
    assert "desc"[0] !in {"#chrom"[0], "pos"[0]};
    PutValid(d2, "desc", Cells(Filled(rows, "NA")));
    assert d3.keys == ["#chrom", "pos", "desc"];
    assert "normal"[0] !in {"#chrom"[0], "pos"[0], "desc"[0]};
    PutValid(d3, "normal", Cells(Filled(rows, "0")));
  }
}
