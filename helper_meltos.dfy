/** analysis/helper_meltos.py: the sample count handed to Meltos and the
    column-order check between the SV file and the Meltos SNV file.  Tables
    are their column headers (and, for the SNV table, its cells); the files
    are written back by pandas, which is not part of this model. */
module HelperMeltos {
  import opened Wrappers
  import opened Text
  import opened MeltosSnv

  // ---------------------------------------------------------------------
  // load_SampC (lines 17-38)

  /** `load_SampC`: the CHR column is read (KeyError when it is missing) and
      the result is the number of ":ref" columns plus one. */
  method LoadSampC(t: SnvTable) returns (r: Result<nat>)
    ensures "CHR" !in t.text ==> r == Err(KeyError)
    ensures "CHR" in t.text ==> r == Ok(|RefColumns(t.columns)| + 1)
  {
    if "CHR" !in t.text {
      return Err(KeyError);
    }
    var chrom := ChromColumn(t.text["CHR"]);
    var samps := SampleNames(t.columns);
    SamplesAre(t.columns);
    r := Ok(|samps| + 1);
  }

  // ---------------------------------------------------------------------
  // order_verification (lines 41-74)

  const GenomeCounts: string := "_GenomeCounts"

  /** `sv_sample_cols`: the SV columns naming a sample's genome counts, with
      that suffix removed, in column order. */
  function SvSamples(svColumns: seq<string>): seq<string>
    decreases |svColumns|
  {
    if svColumns == [] then []
    else
      var col := svColumns[|svColumns| - 1];
      SvSamples(svColumns[..|svColumns| - 1]) +
        (if Contains(col, GenomeCounts) then [ReplaceAll(col, GenomeCounts, "")] else [])
  }

  /** Every SV sample comes from a column containing "_GenomeCounts", in
      order, one per such column. */
  lemma {:induction false} SvSamplesSpec(svColumns: seq<string>)
    ensures forall s :: s in SvSamples(svColumns) <==>
              exists i :: 0 <= i < |svColumns| && Contains(svColumns[i], GenomeCounts) &&
                s == ReplaceAll(svColumns[i], GenomeCounts, "")
    decreases |svColumns|
  {
    if svColumns != [] {
      var init := svColumns[..|svColumns| - 1];
      SvSamplesSpec(init);
      assert forall i :: 0 <= i < |init| ==> init[i] == svColumns[i];
    }
  }

  /** The SV samples that have a genome-count column in the SNV table. */
  function Matched(samples: seq<string>, outColumns: seq<string>): (r: seq<string>)
    ensures forall s :: s in r <==> s in samples && s + GenomeCounts in outColumns
    decreases |samples|
  {
    if samples == [] then []
    else
      var s := samples[|samples| - 1];
      Matched(samples[..|samples| - 1], outColumns) + (if s + GenomeCounts in outColumns then [s] else [])
  }

  lemma {:induction false} MatchedNone(samples: seq<string>, outColumns: seq<string>)
    requires forall s :: s in samples ==> s + GenomeCounts !in outColumns
    ensures Matched(samples, outColumns) == []
    decreases |samples|
  {
    if samples != [] {
      MatchedNone(samples[..|samples| - 1], outColumns);
    }
  }

  /** The column list `order_verification` writes the SNV table with:
      `#chrom, pos, desc`, the columns after "desc", then the matched SV
      samples; `index("desc")` raises ValueError when there is no "desc". */
  function TargetColumns(svColumns: seq<string>, outColumns: seq<string>): Result<seq<string>> {
    match IndexOf(outColumns, "desc")
    case None => Err(ValueError)
    case Some(d) => Ok(["#chrom", "pos", "desc"] + outColumns[d + 1..] + Matched(SvSamples(svColumns), outColumns))
  }

  /** The outcome: the columns written and whether they were reordered. */
  datatype Order = Order(columns: seq<string>, reordered: bool)

  /** `order_verification`: the SNV table is written with the target columns
      (reindexing keeps it unchanged when they are its own), and the message
      says whether they differ from the columns it had. */
  function OrderVerification(svColumns: seq<string>, outColumns: seq<string>): (r: Result<Order>)
    ensures r.Err? <==> "desc" !in outColumns
    ensures r.Ok? ==> TargetColumns(svColumns, outColumns) == Ok(r.value.columns)
    ensures r.Ok? ==> (r.value.reordered <==> r.value.columns != outColumns)
  {
    var target :- TargetColumns(svColumns, outColumns);
    if outColumns != target then Ok(Order(target, true)) else Ok(Order(outColumns, false))
  }

  /** A table that starts with `#chrom, pos, desc` and has no genome-count
      column for any SV sample is already in order. */
  lemma AlreadyOrdered(svColumns: seq<string>, outColumns: seq<string>)
    requires |outColumns| >= 3 && outColumns[..3] == ["#chrom", "pos", "desc"]
    requires forall s :: s in SvSamples(svColumns) ==> s + GenomeCounts !in outColumns
    ensures OrderVerification(svColumns, outColumns) == Ok(Order(outColumns, false))
  {
    assert outColumns[2] == "desc" && "desc" !in outColumns[..2];
    MatchedNone(SvSamples(svColumns), outColumns);
    assert ["#chrom", "pos", "desc"] + outColumns[3..] == outColumns;
  }

  /** The SNV table the Meltos-input builder writes (CloneFinder2MeltosIn.py
      lines 33-38) is reported as already in order whenever no sample name
      contains "_GenomeCounts". */
  lemma BuilderOutputOrdered(svColumns: seq<string>, samps: seq<string>)
    requires forall s :: s in samps ==> !Contains(s, GenomeCounts)
    ensures OrderVerification(svColumns, OutHeader(samps)) == Ok(Order(OutHeader(samps), false))
  {
    var header := OutHeader(samps);
    OutHeaderShape(samps);
    assert header[..3] == ["#chrom", "pos", "desc"] by {
      assert header[..3] == header[..4][..3];
    }
    forall s | s in SvSamples(svColumns) ensures s + GenomeCounts !in header {
      assert (s + GenomeCounts)[|s|..|s| + |GenomeCounts|] == GenomeCounts;
      ContainsAt(s + GenomeCounts, GenomeCounts, |s|);
      if s + GenomeCounts in header {
        HeaderLacksCounts(samps, s + GenomeCounts);
      }
    }
    AlreadyOrdered(svColumns, header);
  }

  /** No column of the builder's header contains "_GenomeCounts" when no
      sample name does: the four fixed columns are shorter than it. */
  lemma HeaderLacksCounts(samps: seq<string>, col: string)
    requires forall s :: s in samps ==> !Contains(s, GenomeCounts)
    requires col in OutHeader(samps)
    ensures !Contains(col, GenomeCounts)
  {
    var h := OutHeader(samps);
    OutHeaderShape(samps);
    var i :| 0 <= i < |h| && h[i] == col;
    if i < 4 {
      assert col == FixedHeader()[i] by { assert h[..4][i] == h[i]; }
      assert |col| < |GenomeCounts|;
      ContainsIff(col, GenomeCounts);
    }
  }
}
