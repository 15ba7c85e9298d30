/** The two files written for Meltos (CloneFinder2MeltosIn.py, lines
    220-279): the clone-ID table (one line per clade bit-string with its
    integer ID and leaf names) and the tree file (per-clade presence strings
    and VAF lists, the edge list from the MRCA and the ancestor map, and a
    fixed trailer). */
module MeltosEmit {
  import opened Wrappers
  import opened Text
  import opened Dicts
  import opened Phylo
  import opened MeltosEncode
  import opened MeltosAggregate

  // ---------------------------------------------------------------------
  // IDs

  /** Bit2ID after the `while c <= Len` loop: `BitLs[c - 1]` gets ID `c`. */
  function Ids(bitLs: seq<string>): map<string, nat>
    decreases |bitLs|
  {
    if bitLs == [] then map[]
    else Ids(bitLs[..|bitLs| - 1])[bitLs[|bitLs| - 1] := |bitLs|]
  }

  /** Every listed bit-string gets an ID in 1..Len that points back to it, so
      no two bit-strings share an ID; over distinct bit-strings the IDs are
      exactly 1..Len in list order. */
  lemma {:induction false} IdsContiguous(bitLs: seq<string>)
    ensures forall b :: b in Ids(bitLs) <==> b in bitLs
    ensures forall b :: b in Ids(bitLs) ==> 1 <= Ids(bitLs)[b] <= |bitLs| && bitLs[Ids(bitLs)[b] - 1] == b
    ensures Distinct(bitLs) ==> forall k :: 0 <= k < |bitLs| ==> Ids(bitLs)[bitLs[k]] == k + 1
    decreases |bitLs|
  {
    if bitLs != [] {
      var n := |bitLs| - 1;
      var init := bitLs[..n];
      IdsContiguous(init);
      assert bitLs == init + [bitLs[n]];
      forall b | b in Ids(bitLs)
        ensures 1 <= Ids(bitLs)[b] <= |bitLs| && bitLs[Ids(bitLs)[b] - 1] == b
      {
        if b != bitLs[n] {
          assert bitLs[Ids(init)[b] - 1] == init[Ids(init)[b] - 1];
        }
      }
      if Distinct(bitLs) {
        forall k | 0 <= k < n
          ensures Ids(bitLs)[bitLs[k]] == k + 1
        {
          assert init[k] == bitLs[k] && bitLs[k] != bitLs[n];
        }
      }
    }
  }

  /** Two bit-strings with the same ID are the same bit-string. */
  lemma IdsInjective(bitLs: seq<string>, a: string, b: string)
    requires a in Ids(bitLs) && b in Ids(bitLs) && Ids(bitLs)[a] == Ids(bitLs)[b]
    ensures a == b
  {
    IdsContiguous(bitLs);
  }

  // ---------------------------------------------------------------------
  // Presence strings and VAF lists

  /** `Sbit`: "0" for the normal sample, then per sample '1' exactly when the
      clade's frequency there is positive. */
  function Presence(samps: seq<string>, vafs: map<string, map<string, real>>, bit: string): (r: string)
    requires forall s :: s in samps ==> s in vafs
    ensures |r| == |samps| + 1
    decreases |samps|
  {
    if samps == [] then "0"
    else
      var n := |samps| - 1;
      assert samps[n] in samps;
      Presence(samps[..n], vafs, bit) + (if ValueOf(vafs[samps[n]], bit) > 0.0 then "1" else "0")
  }

  /** `VAFls`: the positive frequencies of the clade, in sample order. */
  function PositiveVafs(samps: seq<string>, vafs: map<string, map<string, real>>, bit: string): seq<real>
    requires forall s :: s in samps ==> s in vafs
    decreases |samps|
  {
    if samps == [] then []
    else
      var n := |samps| - 1;
      assert samps[n] in samps;
      var v := ValueOf(vafs[samps[n]], bit);
      PositiveVafs(samps[..n], vafs, bit) + (if v > 0.0 then [v] else [])
  }

  /** The presence string has one leading '0' and then one character per
      sample, '1' exactly for the samples where the clade's frequency is
      positive. */
  lemma {:induction false} PresenceShape(samps: seq<string>, vafs: map<string, map<string, real>>, bit: string)
    requires forall s :: s in samps ==> s in vafs
    ensures Presence(samps, vafs, bit)[0] == '0'
    ensures forall i :: 0 <= i < |samps| ==>
              Presence(samps, vafs, bit)[i + 1] == (if ValueOf(vafs[samps[i]], bit) > 0.0 then '1' else '0')
    decreases |samps|
  {
    if samps != [] {
      var n := |samps| - 1;
      assert forall s :: s in samps[..n] ==> s in samps;
      PresenceShape(samps[..n], vafs, bit);
    }
  }

  /** The bracketed list holds only positive values, one for each '1' of the
      presence string. */
  lemma {:induction false} PresenceCountsVafs(samps: seq<string>, vafs: map<string, map<string, real>>, bit: string)
    requires forall s :: s in samps ==> s in vafs
    ensures Count(Presence(samps, vafs, bit), '1') == |PositiveVafs(samps, vafs, bit)|
    ensures forall v :: v in PositiveVafs(samps, vafs, bit) ==> v > 0.0
    decreases |samps|
  {
    if samps != [] {
      var n := |samps| - 1;
      assert forall s :: s in samps[..n] ==> s in samps;
      PresenceCountsVafs(samps[..n], vafs, bit);
      var p := Presence(samps[..n], vafs, bit);
      var c := if ValueOf(vafs[samps[n]], bit) > 0.0 then "1" else "0";
      assert Presence(samps, vafs, bit) == p + c;
      CountAppend(p, c, '1');
    }
  }

  lemma {:induction false} CountAppend<T>(a: seq<T>, b: seq<T>, x: T)
    ensures Count(a + b, x) == Count(a, x) + Count(b, x)
    decreases |b|
  {
    if b != [] {
      var n := |b| - 1;
      CountAppend(a, b[..n], x);
      assert (a + b)[..|a + b| - 1] == a + b[..n];
    } else {
      assert a + b == a;
    }
  }

  /** The loop `for S in SampLs` for one clade (lines 246-252). */
  method PresenceOf(samps: seq<string>, vafs: map<string, map<string, real>>, bit: string)
    returns (sbit: string, vafLs: seq<real>)
    requires forall s :: s in samps ==> s in vafs
    ensures sbit == Presence(samps, vafs, bit) && vafLs == PositiveVafs(samps, vafs, bit)
  {
    sbit, vafLs := "0", [];
    for k := 0 to |samps|
      invariant sbit == Presence(samps[..k], vafs, bit) && vafLs == PositiveVafs(samps[..k], vafs, bit)
    {
      assert samps[..k + 1][..k] == samps[..k];
      var vaf := ValueOf(vafs[samps[k]], bit);
      if vaf > 0.0 {
        vafLs := vafLs + [vaf];
        sbit := sbit + "1";
      } else {
        sbit := sbit + "0";
      }
    }
    assert samps[..|samps|] == samps;
  }

  // ---------------------------------------------------------------------
  // Lines of the two files

  const NodeHeader := "NodeID\tBit\tClade\n"

  /** A clone-ID line: the ID, the bit-string and the `;`-joined leaf names. */
  function NodeLine(c: nat, bit: string, tips: seq<string>): string {
    NatToString(c) + "\t" + bit + "\t" + Join(tips, ";") + "\n"
  }

  /** Python's `str` of a frequency; floating-point rendering is not modelled. */
  type RealFormat = real -> string

  /** A node line of the tree file: ID, presence string and the bracketed
      space-separated frequencies. */
  function VafLine(c: nat, sbit: string, vals: seq<real>, showReal: RealFormat): string {
    NatToString(c) + "\t" + sbit + "\t" + "[ " + Join(seq(|vals|, i requires 0 <= i < |vals| => showReal(vals[i])), " ") + "]\n"
  }

  /** An edge line `anc -> dec`. */
  function EdgeLine(anc: nat, dec: nat): string {
    NatToString(anc) + " -> " + NatToString(dec) + "\n"
  }

  /** The clone-ID lines for `bitLs`, in order. */
  function NodeLines(bitLs: seq<string>, bitToTips: map<string, seq<string>>): (r: seq<string>)
    requires forall b :: b in bitLs ==> b in bitToTips
    ensures |r| == |bitLs|
    decreases |bitLs|
  {
    if bitLs == [] then []
    else
      var n := |bitLs| - 1;
      assert bitLs[n] in bitLs;
      NodeLines(bitLs[..n], bitToTips) + [NodeLine(n + 1, bitLs[n], bitToTips[bitLs[n]])]
  }

  /** The node lines of the tree file for `bitLs`, in order. */
  function VafLines(bitLs: seq<string>, samps: seq<string>, vafs: map<string, map<string, real>>, showReal: RealFormat): (r: seq<string>)
    requires forall s :: s in samps ==> s in vafs
    ensures |r| == |bitLs|
    decreases |bitLs|
  {
    if bitLs == [] then []
    else
      var n := |bitLs| - 1;
      VafLines(bitLs[..n], samps, vafs, showReal)
        + [VafLine(n + 1, Presence(samps, vafs, bitLs[n]), PositiveVafs(samps, vafs, bitLs[n]), showReal)]
  }

  /** Clone-ID line k describes the k-th bit-string under ID k + 1. */
  lemma {:induction false} NodeLinesAt(bitLs: seq<string>, bitToTips: map<string, seq<string>>)
    requires forall b :: b in bitLs ==> b in bitToTips
    ensures forall k :: 0 <= k < |bitLs| ==> NodeLines(bitLs, bitToTips)[k] == NodeLine(k + 1, bitLs[k], bitToTips[bitLs[k]])
    decreases |bitLs|
  {
    if bitLs != [] {
      var n := |bitLs| - 1;
      var init := bitLs[..n];
      assert forall b :: b in init ==> b in bitLs;
      NodeLinesAt(init, bitToTips);
      forall k | 0 <= k < n
        ensures NodeLines(bitLs, bitToTips)[k] == NodeLine(k + 1, bitLs[k], bitToTips[bitLs[k]])
      {
        assert init[k] == bitLs[k];
      }
    }
  }

  /** Node line k of the tree file describes the k-th bit-string under ID
      k + 1. */
  lemma {:induction false} VafLinesAt(bitLs: seq<string>, samps: seq<string>, vafs: map<string, map<string, real>>, showReal: RealFormat)
    requires forall s :: s in samps ==> s in vafs
    ensures forall k :: 0 <= k < |bitLs| ==>
              VafLines(bitLs, samps, vafs, showReal)[k] ==
              VafLine(k + 1, Presence(samps, vafs, bitLs[k]), PositiveVafs(samps, vafs, bitLs[k]), showReal)
    decreases |bitLs|
  {
    if bitLs != [] {
      var n := |bitLs| - 1;
      var init := bitLs[..n];
      VafLinesAt(init, samps, vafs, showReal);
      var prev := VafLines(init, samps, vafs, showReal);
      var all := VafLines(bitLs, samps, vafs, showReal);
      assert all[..n] == prev;
      forall k | 0 <= k < n
        ensures all[k] == VafLine(k + 1, Presence(samps, vafs, bitLs[k]), PositiveVafs(samps, vafs, bitLs[k]), showReal)
      {
        assert all[k] == prev[k];
        assert init[k] == bitLs[k];
      }
    }
  }

  /** The body of the `while c <= Len` loop for one clade (lines 238-255). */
  method NodeEntry(c: nat, bit: string, tips: seq<string>,
                   samps: seq<string>, vafs: map<string, map<string, real>>, showReal: RealFormat)
    returns (nline: string, vline: string)
    requires forall s :: s in samps ==> s in vafs
    ensures nline == NodeLine(c, bit, tips)
    ensures vline == VafLine(c, Presence(samps, vafs, bit), PositiveVafs(samps, vafs, bit), showReal)
  {
    var tipLs: seq<string> := [];
    for i := 0 to |tips|
      invariant tipLs == tips[..i]
    {
      tipLs := tipLs + [tips[i]];
    }
    assert tipLs == tips;
    nline := NatToString(c) + "\t" + bit + "\t" + Join(tipLs, ";") + "\n";
    var sbit, vafLs := PresenceOf(samps, vafs, bit);
    vline := VafLine(c, sbit, vafLs, showReal);
  }

  /** The `while c <= Len` loop (lines 236-256): IDs, the clone-ID lines and
      the node lines of the tree file. */
  method NodeTables(bitLs: seq<string>, bitToTips: map<string, seq<string>>,
                    samps: seq<string>, vafs: map<string, map<string, real>>, showReal: RealFormat)
    returns (bit2ID: map<string, nat>, nout: seq<string>, vout: seq<string>)
    requires forall b :: b in bitLs ==> b in bitToTips
    requires forall s :: s in samps ==> s in vafs
    ensures bit2ID == Ids(bitLs)
    ensures nout == NodeLines(bitLs, bitToTips)
    ensures vout == VafLines(bitLs, samps, vafs, showReal)
  {
    bit2ID, nout, vout := map[], [], [];
    var c := 1;
    while c <= |bitLs|
      invariant 1 <= c <= |bitLs| + 1
      invariant bit2ID == Ids(bitLs[..c - 1])
      invariant nout == NodeLines(bitLs[..c - 1], bitToTips)
      invariant vout == VafLines(bitLs[..c - 1], samps, vafs, showReal)
    {
      var bit := bitLs[c - 1];
      TablesStep(bitLs, c, bitToTips, samps, vafs, showReal);
      bit2ID := bit2ID[bit := c];
      var nline, vline := NodeEntry(c, bit, bitToTips[bit], samps, vafs, showReal);
      nout := nout + [nline];
      vout := vout + [vline];
      c := c + 1;
    }
    assert bitLs[..c - 1] == bitLs;
  }

  /** The tables after the c-th bit-string extend those before it. */
  lemma TablesStep(bitLs: seq<string>, c: nat, bitToTips: map<string, seq<string>>,
                   samps: seq<string>, vafs: map<string, map<string, real>>, showReal: RealFormat)
    requires 1 <= c <= |bitLs|
    requires forall b :: b in bitLs ==> b in bitToTips
    requires forall s :: s in samps ==> s in vafs
    ensures bitLs[c - 1] in bitToTips
    ensures Ids(bitLs[..c]) == Ids(bitLs[..c - 1])[bitLs[c - 1] := c]
    ensures NodeLines(bitLs[..c], bitToTips) ==
              NodeLines(bitLs[..c - 1], bitToTips) + [NodeLine(c, bitLs[c - 1], bitToTips[bitLs[c - 1]])]
    ensures VafLines(bitLs[..c], samps, vafs, showReal) ==
              VafLines(bitLs[..c - 1], samps, vafs, showReal) +
                [VafLine(c, Presence(samps, vafs, bitLs[c - 1]), PositiveVafs(samps, vafs, bitLs[c - 1]), showReal)]
  {
    assert bitLs[c - 1] in bitLs;
    assert bitLs[..c][..c - 1] == bitLs[..c - 1];
    assert bitLs[..c][c - 1] == bitLs[c - 1];
  }

  // ---------------------------------------------------------------------
  // Edges

  /** Whether every `Dec2AncBit` entry has IDs on both sides. */
  predicate EdgesKnown(ids: map<string, nat>, dec: Dict<string, string>)
  {
    forall k :: k in dec.items ==> k in ids && dec.items[k] in ids
  }

  /** The edge lines for `Dec2AncBit`, in its key order; KeyError when some
      bit-string has no ID. */
  function Edges(ids: map<string, nat>, dec: Dict<string, string>): (r: Result<seq<string>>)
    requires dec.Valid()
  {
    if !EdgesKnown(ids, dec) then Err(KeyError)
    else Ok(seq(|dec.keys|, i requires 0 <= i < |dec.keys| => EdgeLine(ids[dec.items[dec.keys[i]]], ids[dec.keys[i]])))
  }

  /** Each descendant of `Dec2AncBit` is on the right of exactly one edge line,
      with its ancestor on the left. */
  lemma EdgesOnce(bitLs: seq<string>, dec: Dict<string, string>, es: seq<string>)
    requires dec.Valid() && Edges(Ids(bitLs), dec) == Ok(es)
    ensures |es| == |dec.keys|
    ensures forall d :: d in dec.items ==>
              (d in Ids(bitLs) && dec.items[d] in Ids(bitLs) &&
               es[Position(dec.keys, d)] == EdgeLine(Ids(bitLs)[dec.items[d]], Ids(bitLs)[d]))
    ensures forall i, j :: 0 <= i < j < |es| ==> Ids(bitLs)[dec.keys[i]] != Ids(bitLs)[dec.keys[j]]
  {
    var ids := Ids(bitLs);
    forall i, j | 0 <= i < j < |es|
      ensures ids[dec.keys[i]] != ids[dec.keys[j]]
    {
      if ids[dec.keys[i]] == ids[dec.keys[j]] {
        IdsInjective(bitLs, dec.keys[i], dec.keys[j]);
      }
    }
  }

  /** The `for DecB in Dec2AncBit` loop (lines 265-268). */
  method EdgeLines(ids: map<string, nat>, dec: Dict<string, string>) returns (r: Result<seq<string>>)
    requires dec.Valid()
    ensures r == Edges(ids, dec)
  {
    var es: seq<string> := [];
    for i := 0 to |dec.keys|
      invariant |es| == i
      invariant forall k :: 0 <= k < i ==> dec.keys[k] in ids && dec.items[dec.keys[k]] in ids
      invariant forall k :: 0 <= k < i ==> es[k] == EdgeLine(ids[dec.items[dec.keys[k]]], ids[dec.keys[k]])
    {
      var decB := dec.keys[i];
      var anc := dec.items[decB];
      if anc !in ids || decB !in ids {
        return Err(KeyError);
      }
      es := es + [EdgeLine(ids[anc], ids[decB])];
    }
    forall k | k in dec.items
      ensures k in ids && dec.items[k] in ids
    {
      var j :| 0 <= j < |dec.keys| && dec.keys[j] == k;
    }
    assert EdgesKnown(ids, dec);
    assert es == seq(|dec.keys|, i requires 0 <= i < |dec.keys| => EdgeLine(ids[dec.items[dec.keys[i]]], ids[dec.keys[i]]));
    r := Ok(es);
  }

  // ---------------------------------------------------------------------
  // Trailer

  /** The error score and sample-decomposition lines that end the tree file. */
  function Trailer(samps: seq<string>): (r: seq<string>)
    ensures |r| == |samps| + 4
    ensures r[..4] == ["Error score: 0.05\n\n", "Sample decomposition:\n", "\tSample lineage decomposition: normal\n", "\n"]
    ensures forall i :: 0 <= i < |samps| ==> r[i + 4] == "\tSample lineage decomposition: " + samps[i] + "\n\n"
  {
    ["Error score: 0.05\n\n", "Sample decomposition:\n", "\tSample lineage decomposition: normal\n", "\n"]
      + seq(|samps|, i requires 0 <= i < |samps| => "\tSample lineage decomposition: " + samps[i] + "\n\n")
  }

  // ---------------------------------------------------------------------
  // MRCA

  /** `"1" * (CloC + 1)`: the bit-string of a clade holding every clone and
      Normal. */
  function Ones(cloC: nat): (r: string)
    ensures |r| == cloC + 1
  {
    Repeat('1', cloC + 1)
  }

  /** `MRCAbit = str(int("1" * (CloC + 1)) - int(NorBit))` */
  function Mrca(cloC: nat, norBit: string): string {
    IntToString(DecimalValue(Ones(cloC)) - DecimalValue(norBit))
  }

  /** A bit-string with its only '1' at position `p`. */
  function SingleOne(n: nat, p: nat): (r: string)
    requires p < n
    ensures |r| == n && forall i :: 0 <= i < n ==> r[i] == (if i == p then '1' else '0')
  {
    seq(n, i requires 0 <= i < n => if i == p then '1' else '0')
  }

  /** Its complement: '0' at `p` and '1' everywhere else. */
  function AllButOne(n: nat, p: nat): (r: string)
    requires p < n
    ensures |r| == n && forall i :: 0 <= i < n ==> r[i] == (if i == p then '0' else '1')
  {
    seq(n, i requires 0 <= i < n => if i == p then '0' else '1')
  }

  /** When Normal's '1' is not first, the decimal subtraction is the
      bit-wise complement of Normal's bit-string: the clade of every clone. */
  lemma MrcaComplement(cloC: nat, p: nat)
    requires 0 < p <= cloC
    ensures Mrca(cloC, SingleOne(cloC + 1, p)) == AllButOne(cloC + 1, p)
  {
    var n := cloC + 1;
    var ones, nor, comp := Ones(cloC), SingleOne(n, p), AllButOne(n, p);
    forall i | 0 <= i < n
      ensures DigitValue(ones[i]) == DigitValue(nor[i]) + DigitValue(comp[i])
    {
      assert ones[i] == '1';
    }
    DecimalValueAddDigits(ones, nor, comp);
    var v := DecimalValue(comp);
    assert DecimalValue(ones) - DecimalValue(nor) == v;
    assert Mrca(cloC, nor) == NatToString(v);
    assert forall i :: 0 <= i < n ==> IsDigit(comp[i]);
    assert comp[0] == '1';
    NatToStringDecimalValue(comp);
  }

  /** When Normal's '1' comes first, the leading zero of the complement is
      lost: MRCAbit is one character short of every clade bit-string. */
  lemma MrcaLeadingZero(cloC: nat)
    requires cloC >= 1
    ensures Mrca(cloC, SingleOne(cloC + 1, 0)) == Repeat('1', cloC)
  {
    OnesMinusFirst(cloC);
    NatToStringDecimalValue(Repeat('1', cloC));
  }

  lemma OnesMinusFirst(cloC: nat)
    requires cloC >= 1
    ensures DecimalValue(Ones(cloC)) - DecimalValue(SingleOne(cloC + 1, 0)) == DecimalValue(Repeat('1', cloC))
  {
    var n := cloC + 1;
    var ones, nor, comp := Ones(cloC), SingleOne(n, 0), AllButOne(n, 0);
    DecimalValueAddDigits(ones, nor, comp);
    assert comp == "0" + Repeat('1', cloC);
    DecimalValueLeadingZero(Repeat('1', cloC));
  }

  // ---------------------------------------------------------------------
  // The whole emission step

  /** `BitLs` after `BitLs.remove(NorBit)` and `BitLs.remove("1" * (CloC + 1))`:
      KeyError when Normal has no bit-string, ValueError when `int(NorBit)`
      fails or either string is not a key of Bit2TipID. */
  function Remaining(e: Encoding, cloC: nat): Result<seq<string>> {
    if "Normal" !in e.tipToBit.items then Err(KeyError)
    else
      var norBit := e.tipToBit.items["Normal"];
      if !IsDigits(norBit) then Err(ValueError)
      else
        match Remove(e.bitToTips.keys, norBit)
        case Err(x) => Err(x)
        case Ok(l) => Remove(l, Ones(cloC))
  }

  /** The clades that get IDs: each key of Bit2TipID once, except Normal's
      bit-string and the all-ones string. */
  lemma RemainingShape(e: Encoding, cloC: nat)
    requires Valid(e) && Remaining(e, cloC).Ok?
    ensures "Normal" in e.tipToBit.items
    ensures Distinct(Remaining(e, cloC).value)
    ensures |Remaining(e, cloC).value| == |e.bitToTips.keys| - 2
    ensures forall b :: b in Remaining(e, cloC).value <==>
              b in e.bitToTips.keys && b != e.tipToBit.items["Normal"] && b != Ones(cloC)
  {
    var norBit := e.tipToBit.items["Normal"];
    var l := Remove(e.bitToTips.keys, norBit).value;
    RemoveDistinct(e.bitToTips.keys, norBit);
    RemoveDistinct(l, Ones(cloC));
  }

  /** The tree file after the node lines: KeyError when the MRCA or an entry
      of Dec2AncBit has no ID; otherwise the MRCA edge, the Dec2AncBit edges
      and the trailer. */
  function TreeFile(ids: map<string, nat>, mrca: string, dec: Dict<string, string>,
                    vlines: seq<string>, samps: seq<string>): Result<seq<string>>
    requires dec.Valid()
  {
    if mrca !in ids then Err(KeyError)
    else
      match Edges(ids, dec)
      case Err(x) => Err(x)
      case Ok(es) =>
        Ok(["Nodes:\n"] + vlines + ["\n****Tree 0****\n", "0 -> " + NatToString(ids[mrca]) + "\n"] + es + Trailer(samps))
  }

  /** What the emission step writes: the clone-ID file, and the tree file,
      which the source only writes when no lookup on its way fails. */
  datatype Output = Output(cloneIds: seq<string>, tree: Result<seq<string>>)

  /** The trailer loop `for S in SampLs` (lines 270-275). */
  method AppendTrailer(out0: seq<string>, samps: seq<string>) returns (out: seq<string>)
    ensures out == out0 + Trailer(samps)
  {
    out := out0 + ["Error score: 0.05\n\n", "Sample decomposition:\n", "\tSample lineage decomposition: normal\n", "\n"];
    for k := 0 to |samps|
      invariant out == out0 + Trailer(samps[..k])
    {
      assert Trailer(samps[..k + 1]) == Trailer(samps[..k]) + ["\tSample lineage decomposition: " + samps[k] + "\n\n"];
      out := out + ["\tSample lineage decomposition: " + samps[k] + "\n\n"];
    }
    assert samps[..|samps|] == samps;
  }

  /** Lines 220-227: NorBit, MRCAbit and the list of clades that get IDs. */
  method CladeList(e: Encoding, cloC: nat) returns (r: Result<(string, seq<string>)>)
    ensures r.Err? <==> Remaining(e, cloC).Err?
    ensures r.Err? ==> r.error == Remaining(e, cloC).error
    ensures r.Ok? ==> ("Normal" in e.tipToBit.items &&
                       r.value == (Mrca(cloC, e.tipToBit.items["Normal"]), Remaining(e, cloC).value))
  {
    var bitLs := e.bitToTips.keys;
    if "Normal" !in e.tipToBit.items {
      return Err(KeyError);
    }
    var norBit := e.tipToBit.items["Normal"];
    if !IsDigits(norBit) {
      return Err(ValueError);
    }
    var mrcaBit := IntToString(DecimalValue(Repeat('1', cloC + 1)) - DecimalValue(norBit));
    var l := Remove(bitLs, norBit);
    if l.Err? {
      return Err(l.error);
    }
    var l2 := Remove(l.value, Repeat('1', cloC + 1));
    if l2.Err? {
      return Err(l2.error);
    }
    return Ok((mrcaBit, l2.value));
  }

  /** Lines 229-279 for the clade list `bitLs` and the MRCA bit-string. */
  method WriteFiles(bitLs: seq<string>, mrcaBit: string, bitToTips: map<string, seq<string>>, dec: Dict<string, string>,
                    samps: seq<string>, vafs: map<string, map<string, real>>, showReal: RealFormat)
    returns (o: Output)
    requires forall b :: b in bitLs ==> b in bitToTips
    requires forall s :: s in samps ==> s in vafs
    requires dec.Valid()
    ensures o.cloneIds == [NodeHeader] + NodeLines(bitLs, bitToTips)
    ensures o.tree == TreeFile(Ids(bitLs), mrcaBit, dec, VafLines(bitLs, samps, vafs, showReal), samps)
  {
    var ids, nout, vout := NodeTables(bitLs, bitToTips, samps, vafs, showReal);
    var cloneIds := [NodeHeader] + nout;
    var out := ["Nodes:\n"] + vout + ["\n****Tree 0****\n"];
    if mrcaBit !in ids {
      return Output(cloneIds, Err(KeyError));
    }
    var root := "0 -> " + NatToString(ids[mrcaBit]) + "\n";
    out := out + [root];
    assert out == ["Nodes:\n"] + vout + ["\n****Tree 0****\n", root];
    var es := EdgeLines(ids, dec);
    if es.Err? {
      return Output(cloneIds, Err(es.error));
    }
    out := AppendTrailer(out + es.value, samps);
    return Output(cloneIds, Ok(out));
  }

  /** Lines 220-279, from the encoding of the tree, the clone count CloC and
      the per-sample clade frequencies Samp2bitVAF. */
  method Emit(e: Encoding, cloC: nat, samps: seq<string>, vafs: map<string, map<string, real>>, showReal: RealFormat)
    returns (r: Result<Output>)
    requires Valid(e)
    requires forall s :: s in samps ==> s in vafs
    ensures r.Err? <==> Remaining(e, cloC).Err?
    ensures r.Err? ==> r.error == Remaining(e, cloC).error
    ensures r.Ok? ==> "Normal" in e.tipToBit.items && forall b :: b in Remaining(e, cloC).value ==> b in e.bitToTips.items
    ensures r.Ok? ==>
              var bitLs := Remaining(e, cloC).value;
              r.value.cloneIds == [NodeHeader] + NodeLines(bitLs, e.bitToTips.items) &&
              r.value.tree == TreeFile(Ids(bitLs), Mrca(cloC, e.tipToBit.items["Normal"]), e.decToAnc,
                                       VafLines(bitLs, samps, vafs, showReal), samps)
  {
    var prep := CladeList(e, cloC);
    if prep.Err? {
      return Err(prep.error);
    }
    var (mrcaBit, bitLs) := prep.value;
    RemainingShape(e, cloC);
    var o := WriteFiles(bitLs, mrcaBit, e.bitToTips.items, e.decToAnc, samps, vafs, showReal);
    return Ok(o);
  }
}
