/** Clade frequencies per sample (CloneFinder2MeltosIn.py, lines 193-218):
    every clone present in a sample adds half its frequency to each clade
    bit-string on its ancestor chain. */
module MeltosAggregate {
  import opened Wrappers
  import opened Text

  /** The CloneFinder clone-frequency table after `set_index("Tumor").T`:
      the clone names (the rows) and, per sample, one frequency per clone. */
  datatype FreqTable = FreqTable(clones: seq<string>, freq: map<string, seq<real>>)

  ghost predicate WellFormed(t: FreqTable) {
    forall s :: s in t.freq ==> |t.freq[s]| == |t.clones|
  }

  /** A clone kept in `Sub`, with its frequency. */
  datatype Clone = Clone(name: string, freq: real)

  /** The frequency cut-off `CloFreCut`. */
  const FreqCut: real := 0.0

  /** `Sub`: the clones whose frequency exceeds the cut-off, in table order. */
  function Surviving(clones: seq<string>, freqs: seq<real>): seq<Clone>
    requires |clones| == |freqs|
    decreases |clones|
  {
    if clones == [] then []
    else
      var n := |clones| - 1;
      Surviving(clones[..n], freqs[..n]) + (if freqs[n] > FreqCut then [Clone(clones[n], freqs[n])] else [])
  }

  /** The kept clones are exactly the table rows with a positive frequency. */
  lemma SurvivingAre(clones: seq<string>, freqs: seq<real>)
    requires |clones| == |freqs|
    ensures forall c :: c in Surviving(clones, freqs) <==>
              exists i :: 0 <= i < |clones| && freqs[i] > 0.0 && c == Clone(clones[i], freqs[i])
  {
    forall c ensures c in Surviving(clones, freqs) <==>
              exists i :: 0 <= i < |clones| && freqs[i] > 0.0 && c == Clone(clones[i], freqs[i])
    {
      if c in Surviving(clones, freqs) {
        SurvivingFrom(clones, freqs, c);
      }
      if exists i :: 0 <= i < |clones| && freqs[i] > 0.0 && c == Clone(clones[i], freqs[i]) {
        var i :| 0 <= i < |clones| && freqs[i] > 0.0 && c == Clone(clones[i], freqs[i]);
        SurvivingTo(clones, freqs, i);
      }
    }
  }

  /** A kept clone is a row with a positive frequency. */
  lemma {:induction false} SurvivingFrom(clones: seq<string>, freqs: seq<real>, c: Clone)
    requires |clones| == |freqs| && c in Surviving(clones, freqs)
    ensures exists i :: 0 <= i < |clones| && freqs[i] > 0.0 && c == Clone(clones[i], freqs[i])
    decreases |clones|
  {
    var n := |clones| - 1;
    if c in Surviving(clones[..n], freqs[..n]) {
      SurvivingFrom(clones[..n], freqs[..n], c);
      var i :| 0 <= i < n && freqs[..n][i] > 0.0 && c == Clone(clones[..n][i], freqs[..n][i]);
      assert freqs[i] > 0.0 && c == Clone(clones[i], freqs[i]);
    } else {
      assert freqs[n] > 0.0 && c == Clone(clones[n], freqs[n]);
    }
  }

  /** Every row with a positive frequency is kept. */
  lemma {:induction false} SurvivingTo(clones: seq<string>, freqs: seq<real>, i: nat)
    requires |clones| == |freqs| && i < |clones| && freqs[i] > 0.0
    ensures Clone(clones[i], freqs[i]) in Surviving(clones, freqs)
    decreases |clones|
  {
    var n := |clones| - 1;
    if i < n {
      SurvivingTo(clones[..n], freqs[..n], i);
      assert clones[..n][i] == clones[i] && freqs[..n][i] == freqs[i];
    }
  }

  /** `Bit2VAF.get(B, 0)` */
  function ValueOf(m: map<string, real>, b: string): real {
    if b in m then m[b] else 0.0
  }

  /** `for B in BitLs: Bit2VAF[B] = Bit2VAF.get(B, 0) + Fre` as a fold. */
  function AddAlong(m: map<string, real>, chain: seq<string>, fre: real): map<string, real>
    decreases |chain|
  {
    if chain == [] then m
    else
      var n := |chain| - 1;
      var m' := AddAlong(m, chain[..n], fre);
      m'[chain[n] := ValueOf(m', chain[n]) + fre]
  }

  /** What walking `chain` adds to bit-string `b`: `fre` once per occurrence. */
  function Along(chain: seq<string>, b: string, fre: real): real
    decreases |chain|
  {
    if chain == [] then 0.0
    else
      var n := |chain| - 1;
      Along(chain[..n], b, fre) + (if chain[n] == b then fre else 0.0)
  }

  /** Walking a chain adds `fre` once per occurrence of a bit-string and
      creates exactly the entries of the chain's bit-strings. */
  lemma {:induction false} AddAlongValue(m: map<string, real>, chain: seq<string>, fre: real)
    ensures forall b :: ValueOf(AddAlong(m, chain, fre), b) == ValueOf(m, b) + Along(chain, b, fre)
    ensures forall b :: b in AddAlong(m, chain, fre) <==> b in m || b in chain
    decreases |chain|
  {
    if chain != [] {
      var n := |chain| - 1;
      var init, x := chain[..n], chain[n];
      AddAlongValue(m, init, fre);
      assert chain == init + [x];
      forall b
        ensures b in AddAlong(m, chain, fre) <==> b in m || b in chain
      {
        assert b in chain <==> b in init || b == x;
      }
    }
  }

  /** For a positive amount, the addition is at least zero, and positive
      exactly when the bit-string is on the chain. */
  lemma {:induction false} AlongPositive(chain: seq<string>, b: string, fre: real)
    requires fre > 0.0
    ensures Along(chain, b, fre) >= 0.0
    ensures Along(chain, b, fre) > 0.0 <==> b in chain
    decreases |chain|
  {
    if chain != [] {
      var n := |chain| - 1;
      AlongPositive(chain[..n], b, fre);
      assert chain == chain[..n] + [chain[n]];
    }
  }

  /** The addition is the number of occurrences times the amount. */
  lemma {:induction false} AlongCount(chain: seq<string>, b: string, fre: real)
    ensures Along(chain, b, fre) == (Count(chain, b) as real) * fre
    decreases |chain|
  {
    if chain != [] {
      var n := |chain| - 1;
      AlongCount(chain[..n], b, fre);
      var k := Count(chain[..n], b);
      assert ((k + 1) as real) * fre == (k as real) * fre + fre;
    }
  }

  /** The loop `for B in BitLs` (lines 215-216). */
  method AddChain(m0: map<string, real>, chain: seq<string>, fre: real) returns (m: map<string, real>)
    ensures m == AddAlong(m0, chain, fre)
  {
    m := m0;
    for j := 0 to |chain|
      invariant m == AddAlong(m0, chain[..j], fre)
    {
      assert chain[..j + 1][..j] == chain[..j];
      m := m[chain[j] := ValueOf(m, chain[j]) + fre];
    }
    assert chain[..|chain|] == chain;
  }

  /** `Bit2VAF` for one sample as a fold over the kept clones; KeyError when
      a kept clone has no chain (`Clone2IntBit[Clo]`). */
  function Aggregate(surv: seq<Clone>, chains: map<string, seq<string>>): Result<map<string, real>>
    decreases |surv|
  {
    if surv == [] then Ok(map[])
    else
      var n := |surv| - 1;
      match Aggregate(surv[..n], chains)
      case Err(e) => Err(e)
      case Ok(m) =>
        var c := surv[n];
        if c.name !in chains then Err(KeyError) else Ok(AddAlong(m, chains[c.name], c.freq / 2.0))
  }

  /** The frequency mass of bit-string `b`: half the frequency of each kept
      clone, once per occurrence of `b` on its chain. */
  function Mass(surv: seq<Clone>, chains: map<string, seq<string>>, b: string): real
    requires forall c :: c in surv ==> c.name in chains
    decreases |surv|
  {
    if surv == [] then 0.0
    else
      var n := |surv| - 1;
      assert surv[n] in surv;
      Mass(surv[..n], chains, b) + Along(chains[surv[n].name], b, surv[n].freq / 2.0)
  }

  /** Aggregation fails exactly when a kept clone has no chain. */
  lemma {:induction false} AggregateFails(surv: seq<Clone>, chains: map<string, seq<string>>)
    ensures Aggregate(surv, chains).Err? <==> exists c :: c in surv && c.name !in chains
    decreases |surv|
  {
    if surv != [] {
      var n := |surv| - 1;
      AggregateFails(surv[..n], chains);
      assert surv == surv[..n] + [surv[n]];
    }
  }

  /** Every bit-string reads as its frequency mass, and has an entry exactly
      when some kept clone's chain contains it (so an untouched one reads 0). */
  lemma {:induction false} AggregateMass(surv: seq<Clone>, chains: map<string, seq<string>>, m: map<string, real>)
    requires Aggregate(surv, chains) == Ok(m)
    ensures forall c :: c in surv ==> c.name in chains
    ensures forall b :: ValueOf(m, b) == Mass(surv, chains, b)
    ensures forall b :: b in m <==> exists c :: c in surv && c.name in chains && b in chains[c.name]
    decreases |surv|
  {
    AggregateFails(surv, chains);
    if surv != [] {
      var n := |surv| - 1;
      var init, c := surv[..n], surv[n];
      AggregateFails(init, chains);
      var m0 := Aggregate(init, chains).value;
      AggregateMass(init, chains, m0);
      var chain := chains[c.name];
      assert m == AddAlong(m0, chain, c.freq / 2.0);
      AddAlongValue(m0, chain, c.freq / 2.0);
      assert surv == init + [c];
      forall b
        ensures ValueOf(m, b) == Mass(surv, chains, b)
      {
        assert Mass(surv, chains, b) == Mass(init, chains, b) + Along(chain, b, c.freq / 2.0);
      }
      forall b
        ensures b in m <==> exists d :: d in surv && d.name in chains && b in chains[d.name]
      {
        if b in chain {
          assert c in surv;
        }
        if b in m0 {
          var d :| d in init && d.name in chains && b in chains[d.name];
          assert d in surv;
        }
        if exists d :: d in surv && d.name in chains && b in chains[d.name] {
          var d :| d in surv && d.name in chains && b in chains[d.name];
          if d != c {
            assert d in init;
          }
        }
      }
    }
  }

  /** With positive frequencies the mass of a bit-string is never negative,
      and it is positive exactly when some chain contains it. */
  lemma {:induction false} MassPositive(surv: seq<Clone>, chains: map<string, seq<string>>, b: string)
    requires forall c :: c in surv ==> c.name in chains && c.freq > 0.0
    ensures Mass(surv, chains, b) >= 0.0
    ensures Mass(surv, chains, b) > 0.0 <==> exists c :: c in surv && b in chains[c.name]
    decreases |surv|
  {
    if surv != [] {
      var n := |surv| - 1;
      var init, c := surv[..n], surv[n];
      assert surv == init + [c];
      assert forall d :: d in init ==> d in surv;
      MassPositive(init, chains, b);
      var chain := chains[c.name];
      AlongPositive(chain, b, c.freq / 2.0);
      var add := Along(chain, b, c.freq / 2.0);
      assert add >= 0.0 && (add > 0.0 <==> b in chain);
      assert Mass(surv, chains, b) == Mass(init, chains, b) + add;
      if exists d :: d in surv && b in chains[d.name] {
        var d :| d in surv && b in chains[d.name];
        if d != c {
          assert d in init;
        }
      }
    }
  }

  /** Every kept clone has a positive frequency. */
  lemma SurvivingPositive(clones: seq<string>, freqs: seq<real>)
    requires |clones| == |freqs|
    ensures forall c :: c in Surviving(clones, freqs) ==> c.freq > 0.0
  {
    SurvivingAre(clones, freqs);
  }

  /** One sample's `Bit2VAF` reads as positive exactly for the bit-strings on
      the chain of a clone present in that sample, and as 0 otherwise. */
  lemma PresentExactly(clones: seq<string>, freqs: seq<real>, chains: map<string, seq<string>>, m: map<string, real>, b: string)
    requires |clones| == |freqs|
    requires Aggregate(Surviving(clones, freqs), chains) == Ok(m)
    ensures ValueOf(m, b) >= 0.0
    ensures ValueOf(m, b) > 0.0 <==> exists i :: 0 <= i < |clones| && freqs[i] > 0.0 && clones[i] in chains && b in chains[clones[i]]
  {
    var surv := Surviving(clones, freqs);
    AggregateMass(surv, chains, m);
    SurvivingAre(clones, freqs);
    MassPositive(surv, chains, b);
    if exists i :: 0 <= i < |clones| && freqs[i] > 0.0 && clones[i] in chains && b in chains[clones[i]] {
      var i :| 0 <= i < |clones| && freqs[i] > 0.0 && clones[i] in chains && b in chains[clones[i]];
      assert Clone(clones[i], freqs[i]) in surv;
    }
  }

  /** The `while c < Len` loop over the kept clones of one sample
      (lines 208-217). */
  method SampleMass(clones: seq<string>, freqs: seq<real>, chains: map<string, seq<string>>)
    returns (r: Result<map<string, real>>)
    requires |clones| == |freqs|
    ensures r == Aggregate(Surviving(clones, freqs), chains)
  {
    var sub := Surviving(clones, freqs);
    var m: map<string, real> := map[];
    var c := 0;
    while c < |sub|
      invariant 0 <= c <= |sub|
      invariant Aggregate(sub[..c], chains) == Ok(m)
    {
      assert sub[..c + 1][..c] == sub[..c];
      var fre := sub[c].freq / 2.0;
      if sub[c].name !in chains {
        AggregateErrExtends(sub, c + 1, chains);
        return Err(KeyError);
      }
      m := AddChain(m, chains[sub[c].name], fre);
      c := c + 1;
    }
    assert sub[..c] == sub;
    r := Ok(m);
  }

  /** Once a prefix of the clones fails, so does the whole list. */
  lemma AggregateErrExtends(surv: seq<Clone>, k: nat, chains: map<string, seq<string>>)
    requires k <= |surv| && Aggregate(surv[..k], chains).Err?
    ensures Aggregate(surv, chains) == Err(KeyError)
  {
    AggregateFails(surv[..k], chains);
    AggregateFails(surv, chains);
    var c :| c in surv[..k] && c.name !in chains;
    assert c in surv;
    AggregateIsKeyError(surv, chains);
  }

  lemma {:induction false} AggregateIsKeyError(surv: seq<Clone>, chains: map<string, seq<string>>)
    ensures Aggregate(surv, chains).Err? ==> Aggregate(surv, chains).error == KeyError
    decreases |surv|
  {
    if surv != [] {
      AggregateIsKeyError(surv[..|surv| - 1], chains);
    }
  }

  /** `Samp2bitVAF` for the samples `samps`: KeyError when a sample is not a
      column of the frequency table (`CF[Samp]`) or a kept clone has no chain. */
  method AllSamples(samps: seq<string>, t: FreqTable, chains: map<string, seq<string>>)
    returns (r: Result<map<string, map<string, real>>>)
    requires WellFormed(t)
    ensures r.Err? <==> exists s :: (s in samps &&
              (s !in t.freq || Aggregate(Surviving(t.clones, t.freq[s]), chains).Err?))
    ensures r.Ok? ==> r.value.Keys == set s | s in samps
    ensures r.Ok? ==> forall s :: s in samps ==>
              s in t.freq && s in r.value && Aggregate(Surviving(t.clones, t.freq[s]), chains) == Ok(r.value[s])
  {
    var all: map<string, map<string, real>> := map[];
    for k := 0 to |samps|
      invariant all.Keys == set s | s in samps[..k]
      invariant forall s :: s in samps[..k] ==>
                  s in t.freq && s in all && Aggregate(Surviving(t.clones, t.freq[s]), chains) == Ok(all[s])
    {
      var s := samps[k];
      assert samps[..k + 1] == samps[..k] + [s];
      if s !in t.freq {
        return Err(KeyError);
      }
      var m := SampleMass(t.clones, t.freq[s], chains);
      if m.Err? {
        return Err(m.error);
      }
      all := all[s := m.value];
    }
    assert samps[..|samps|] == samps;
    r := Ok(all);
  }
}
