/** Clade encoding and ancestor chains of the Meltos-input builder
    (`_bitstrs` in CloneFinder2MeltosIn.py).

    Each clade of the CloneFinder tree is encoded as a bit-string over the
    sorted leaf names.  For every single-leaf clade the builder also records
    the chain of clades from that leaf towards the `Normal` leaf and links
    each chain element to the next one.

    Bio.Phylo's `tree.trace(name, "Normal")` is foreign code: the model takes
    its results as the parameter `paths`, where `paths[n]` is the list of
    clades that `trace` returns for leaf `n`, and a name without an entry is
    one for which `trace` raises. */
module MeltosEncode {
  import opened Wrappers
  import opened Dicts
  import opened Phylo

  /** The four dictionaries `_bitstrs` returns: TipID2Bit, Bit2TipID (with
      the clade's terminal names), Clone2IntBit and Dec2AncBit. */
  datatype Encoding = Encoding(
    tipToBit: Dict<string, string>,
    bitToTips: Dict<string, seq<string>>,
    chains: Dict<string, seq<string>>,
    decToAnc: Dict<string, string>)

  ghost predicate Valid(e: Encoding) {
    e.tipToBit.Valid() && e.bitToTips.Valid() && e.chains.Valid() && e.decToAnc.Valid()
  }

  function Initial(): (e: Encoding)
    ensures Valid(e)
  {
    Encoding(Empty(), Empty(), Empty(), Empty())
  }

  /** `IntLs[:-2]`: the path without its last two clades (the common ancestor
      and `Normal` itself). */
  function Drop2<T>(s: seq<T>): (r: seq<T>)
    ensures |r| == if |s| >= 2 then |s| - 2 else 0
    ensures r == s[..|r|]
  {
    if |s| <= 2 then [] else s[..|s| - 2]
  }

  /** IntBitLs once the inner loop is done: the leaf's own bit-string
      followed by the bit-strings of the kept path clades. */
  function Chain(names: seq<string>, bit: string, ints: seq<Tree>): (r: seq<string>)
    ensures |r| == |ints| + 1 && r[0] == bit
    ensures forall i :: 0 <= i < |ints| ==> r[i + 1] == BitString(names, ints[i])
  {
    [bit] + seq(|ints|, i requires 0 <= i < |ints| => BitString(names, ints[i]))
  }

  /** The chain recorded for leaf `n`. */
  function LeafChain(names: seq<string>, paths: map<string, seq<Tree>>, n: string): seq<string>
    requires n in paths
  {
    Chain(names, Bits(names, [n]), Drop2(paths[n]))
  }

  /** Dec2AncBit after the first `k` writes `Dec2AncBit[chain[j]] = chain[j + 1]`. */
  function Links(d: Dict<string, string>, chain: seq<string>, k: nat): (r: Dict<string, string>)
    requires k < |chain|
  {
    if k == 0 then d else Links(d, chain, k - 1).Put(chain[k - 1], chain[k])
  }

  /** One pass of `for clade in All`. */
  function Step(names: seq<string>, paths: map<string, seq<Tree>>, e: Encoding, clade: Tree): (r: Result<Encoding>)
  {
    var ts := Terminals(clade);
    var bit := BitString(names, clade);
    if |ts| == 1 then
      if ts[0] in paths then
        var chain := Chain(names, bit, Drop2(paths[ts[0]]));
        Ok(Encoding(e.tipToBit.Put(ts[0], bit), e.bitToTips.Put(bit, ts),
                    e.chains.Put(ts[0], chain), Links(e.decToAnc, chain, |chain| - 1)))
      else Err(LibraryError)
    else Ok(e.(bitToTips := e.bitToTips.Put(bit, ts)))
  }

  /** The remaining passes of the loop, starting from `e`. */
  function EncodeFrom(names: seq<string>, paths: map<string, seq<Tree>>, e: Encoding, cs: seq<Tree>): Result<Encoding>
    decreases |cs|
  {
    if cs == [] then Ok(e)
    else
      var s := Step(names, paths, e, cs[0]);
      if s.Err? then s else EncodeFrom(names, paths, s.value, cs[1..])
  }

  /** `_bitstrs(tree)` */
  function Encode(tree: Tree, paths: map<string, seq<Tree>>): Result<Encoding> {
    EncodeFrom(SortNames(Terminals(tree)), paths, Initial(), AllClades(tree))
  }

  /** `_bitstrs` as the script runs it: a loop over all clades with an inner
      loop over the kept path clades of each single-leaf clade. */
  method BitStrs(tree: Tree, paths: map<string, seq<Tree>>) returns (r: Result<Encoding>)
    ensures r == Encode(tree, paths)
  {
    var names := SortNames(Terminals(tree));
    r := VisitClades(names, paths, AllClades(tree));
  }

  /** The loop `for clade in clades`, starting from four empty dictionaries. */
  method VisitClades(names: seq<string>, paths: map<string, seq<Tree>>, all: seq<Tree>) returns (r: Result<Encoding>)
    ensures r == EncodeFrom(names, paths, Initial(), all)
  {
    var e := Initial();
    assert all[0..] == all;
    var i := 0;
    while i < |all|
      invariant 0 <= i <= |all|
      invariant EncodeFrom(names, paths, e, all[i..]) == EncodeFrom(names, paths, Initial(), all)
    {
      EncodeFromNext(names, paths, e, all, i);
      var next := VisitClade(names, paths, e, all[i]);
      if next.Err? {
        return next;
      }
      e := next.value;
      i := i + 1;
    }
    assert all[i..] == [];
    return Ok(e);
  }

  /** One pass of the clade loop: a single-leaf clade records its
      bit-string and, through the inner loop, its chain; every clade
      records its terminals under its bit-string. */
  method VisitClade(names: seq<string>, paths: map<string, seq<Tree>>, e: Encoding, clade: Tree) returns (r: Result<Encoding>)
    ensures r == Step(names, paths, e, clade)
  {
    var tipToBit, bitToTips, chains, decToAnc := e.tipToBit, e.bitToTips, e.chains, e.decToAnc;
    var ts := Terminals(clade);
    var bit := BitString(names, clade);
    if |ts| == 1 {
      tipToBit := tipToBit.Put(ts[0], bit);
      if ts[0] !in paths {
        return Err(LibraryError);
      }
      var intBitLs;
      decToAnc, intBitLs := ExtendChain(names, bit, Drop2(paths[ts[0]]), decToAnc);
      chains := chains.Put(ts[0], intBitLs);
    }
    bitToTips := bitToTips.Put(bit, ts);
    return Ok(Encoding(tipToBit, bitToTips, chains, decToAnc));
  }

  /** The pass over clade `i` followed by the passes after it. */
  lemma EncodeFromNext(names: seq<string>, paths: map<string, seq<Tree>>, e: Encoding, all: seq<Tree>, i: nat)
    requires i < |all|
    ensures Step(names, paths, e, all[i]).Err? ==> EncodeFrom(names, paths, e, all[i..]) == Step(names, paths, e, all[i])
    ensures Step(names, paths, e, all[i]).Ok? ==>
              EncodeFrom(names, paths, e, all[i..]) == EncodeFrom(names, paths, Step(names, paths, e, all[i]).value, all[i + 1..])
  {
    assert all[i..][0] == all[i] && all[i..][1..] == all[i + 1..];
  }

  /** The inner loop `for Int in IntLs[:-2]`: grows IntBitLs from the leaf's
      bit-string and links each element to the next one in Dec2AncBit. */
  method ExtendChain(names: seq<string>, bit: string, ints: seq<Tree>, d: Dict<string, string>)
    returns (decToAnc: Dict<string, string>, intBitLs: seq<string>)
    ensures |intBitLs| == |ints| + 1
    ensures decToAnc == Links(d, intBitLs, |ints|)
    ensures intBitLs == Chain(names, bit, ints)
  {
    decToAnc := d;
    intBitLs := [bit];
    var j := 0;
    while j < |ints|
      invariant 0 <= j <= |ints|
      invariant |intBitLs| == j + 1 && intBitLs[0] == bit
      invariant forall k :: 0 <= k < j ==> intBitLs[k + 1] == BitString(names, ints[k])
      invariant decToAnc == Links(d, intBitLs, j)
    {
      var intBit := BitString(names, ints[j]);
      LinksAppend(d, intBitLs, intBit, j);
      decToAnc := decToAnc.Put(intBitLs[|intBitLs| - 1], intBit);
      intBitLs := intBitLs + [intBit];
      j := j + 1;
    }
  }

  lemma {:induction false} LinksAppend(d: Dict<string, string>, s: seq<string>, x: string, k: nat)
    requires k < |s|
    ensures Links(d, s + [x], k) == Links(d, s, k)
    decreases k
  {
    if k > 0 {
      LinksAppend(d, s, x, k - 1);
    }
  }

  // ---------------------------------------------------------------------
  // Dec2AncBit writes along one chain

  /** After k writes, the keys are the old ones plus the first k chain
      elements; a written key holds the successor of one of its occurrences
      and an unwritten key keeps its old value. */
  lemma {:induction false} LinksKeys(d: Dict<string, string>, chain: seq<string>, k: nat)
    requires k < |chain|
    ensures forall x :: x in Links(d, chain, k).items <==> x in d.items || x in chain[..k]
    ensures forall x :: x in d.items && x !in chain[..k] ==> Links(d, chain, k).items[x] == d.items[x]
    ensures forall x :: x in chain[..k] ==>
              exists j :: 0 <= j < k && chain[j] == x && Links(d, chain, k).items[x] == chain[j + 1]
    decreases k
  {
    if k > 0 {
      LinksKeys(d, chain, k - 1);
      assert chain[..k] == chain[..k - 1] + [chain[k - 1]];
      var r := Links(d, chain, k);
      forall x | x in chain[..k]
        ensures exists j :: 0 <= j < k && chain[j] == x && r.items[x] == chain[j + 1]
      {
        if x == chain[k - 1] {
          assert r.items[x] == chain[k];
        } else {
          assert x in chain[..k - 1];
          var j :| 0 <= j < k - 1 && chain[j] == x && Links(d, chain, k - 1).items[x] == chain[j + 1];
          assert r.items[x] == chain[j + 1];
        }
      }
    }
  }

  /** When the chain has no repeated element, every written element maps to
      exactly its successor. */
  lemma {:induction false} LinksExact(d: Dict<string, string>, chain: seq<string>, k: nat)
    requires k < |chain| && Distinct(chain)
    ensures forall j :: 0 <= j < k ==> chain[j] in Links(d, chain, k).items && Links(d, chain, k).items[chain[j]] == chain[j + 1]
    decreases k
  {
    if k > 0 {
      LinksExact(d, chain, k - 1);
      var prev := Links(d, chain, k - 1).items;
      var r := Links(d, chain, k).items;
      assert r == prev[chain[k - 1] := chain[k]];
      forall j | 0 <= j < k
        ensures chain[j] in r && r[chain[j]] == chain[j + 1]
      {
        if j < k - 1 {
          assert chain[j] != chain[k - 1];
          assert chain[j] in prev && prev[chain[j]] == chain[j + 1];
        }
      }
    }
  }

  // ---------------------------------------------------------------------
  // What the loop keeps true, relative to the clades already visited

  /** Clone2IntBit holds, for every recorded leaf, its chain; TipID2Bit holds
      its singleton bit-string; both have the same keys, namely the names of
      the single-leaf clades visited so far. */
  ghost predicate ChainsOk(names: seq<string>, paths: map<string, seq<Tree>>, e: Encoding, done: seq<Tree>) {
    && (forall n :: n in e.chains.items ==> n in paths && e.chains.items[n] == LeafChain(names, paths, n))
    && (forall n :: n in e.tipToBit.items ==> e.tipToBit.items[n] == Bits(names, [n]))
    && (forall n :: n in e.chains.items <==> n in e.tipToBit.items)
    && (forall n :: n in e.chains.items <==> exists c :: c in done && Terminals(c) == [n])
  }

  /** Dec2AncBit maps every non-last element of every recorded chain, and
      each of its keys to the successor of that key in some recorded chain. */
  ghost predicate LinksOk(e: Encoding) {
    ChainLinks(e.chains.items, e.decToAnc.items)
  }

  ghost predicate ChainLinks(chains: map<string, seq<string>>, dec: map<string, string>) {
    LinksJustified(chains, dec) && LinksCover(chains, dec)
  }

  /** Each key of `dec` is followed by its value somewhere in a chain. */
  ghost predicate LinksJustified(chains: map<string, seq<string>>, dec: map<string, string>) {
    forall d :: d in dec ==>
      exists n, j :: n in chains && 0 <= j < |chains[n]| - 1 && chains[n][j] == d && chains[n][j + 1] == dec[d]
  }

  /** Each non-last chain element is a key of `dec`. */
  ghost predicate LinksCover(chains: map<string, seq<string>>, dec: map<string, string>) {
    forall n, j :: n in chains && 0 <= j < |chains[n]| - 1 ==> chains[n][j] in dec
  }

  /** Bit2TipID has one key per distinct bit-string of a visited clade, and
      holds the terminal names of a visited clade with that bit-string. */
  ghost predicate BitsOk(names: seq<string>, e: Encoding, done: seq<Tree>) {
    && (forall b :: b in e.bitToTips.items <==> exists c :: c in done && BitString(names, c) == b)
    && (forall b :: b in e.bitToTips.items ==>
          exists c :: c in done && BitString(names, c) == b && e.bitToTips.items[b] == Terminals(c))
  }

  ghost predicate Inv(names: seq<string>, paths: map<string, seq<Tree>>, e: Encoding, done: seq<Tree>) {
    Valid(e) && ChainsOk(names, paths, e, done) && LinksOk(e) && BitsOk(names, e, done)
  }

  lemma StepChains(names: seq<string>, paths: map<string, seq<Tree>>, e: Encoding, done: seq<Tree>, clade: Tree)
    requires ChainsOk(names, paths, e, done) && Step(names, paths, e, clade).Ok?
    ensures ChainsOk(names, paths, Step(names, paths, e, clade).value, done + [clade])
  {
    if |Terminals(clade)| == 1 {
      StepChainsLeaf(names, paths, e, done, clade);
    } else {
      StepChainsInner(names, paths, e, done, clade);
    }
  }

  /** A single-leaf clade records its chain and its bit-string. */
  lemma StepChainsLeaf(names: seq<string>, paths: map<string, seq<Tree>>, e: Encoding, done: seq<Tree>, clade: Tree)
    requires ChainsOk(names, paths, e, done) && Step(names, paths, e, clade).Ok?
    requires |Terminals(clade)| == 1
    ensures ChainsOk(names, paths, Step(names, paths, e, clade).value, done + [clade])
  {
    var e' := Step(names, paths, e, clade).value;
    var m := Terminals(clade)[0];
    LeafStepShape(names, paths, e, clade);
    LeafKeysStep(e.chains.items.Keys, done, clade, m);
    assert e'.chains.items.Keys == e.chains.items.Keys + {m};
  }

  /** What visiting a single-leaf clade writes to Clone2IntBit and TipID2Bit. */
  lemma LeafStepShape(names: seq<string>, paths: map<string, seq<Tree>>, e: Encoding, clade: Tree)
    requires Step(names, paths, e, clade).Ok? && |Terminals(clade)| == 1
    ensures Terminals(clade) == [Terminals(clade)[0]] && Terminals(clade)[0] in paths
    ensures Step(names, paths, e, clade).value.chains.items ==
              e.chains.items[Terminals(clade)[0] := LeafChain(names, paths, Terminals(clade)[0])]
    ensures Step(names, paths, e, clade).value.tipToBit.items ==
              e.tipToBit.items[Terminals(clade)[0] := Bits(names, [Terminals(clade)[0]])]
  {
    var ts := Terminals(clade);
    assert ts == [ts[0]];
    assert BitString(names, clade) == Bits(names, [ts[0]]);
  }

  /** Visiting the single-leaf clade of `m` adds `m` to the recorded leaves. */
  lemma LeafKeysStep(keys: set<string>, done: seq<Tree>, clade: Tree, m: string)
    requires Terminals(clade) == [m]
    requires forall n :: n in keys <==> exists c :: c in done && Terminals(c) == [n]
    ensures forall n :: n in keys + {m} <==> exists c :: c in done + [clade] && Terminals(c) == [n]
  {
    var done' := done + [clade];
    forall n
      ensures n in keys + {m} <==> exists c :: c in done' && Terminals(c) == [n]
    {
      if n == m {
        assert clade in done';
      } else {
        if exists c :: c in done' && Terminals(c) == [n] {
          var c :| c in done' && Terminals(c) == [n];
          assert c in done;
        }
        if n in keys {
          var c :| c in done && Terminals(c) == [n];
          assert c in done';
        }
      }
    }
  }

  /** Any other clade leaves Clone2IntBit and TipID2Bit as they were. */
  lemma StepChainsInner(names: seq<string>, paths: map<string, seq<Tree>>, e: Encoding, done: seq<Tree>, clade: Tree)
    requires ChainsOk(names, paths, e, done) && Step(names, paths, e, clade).Ok?
    requires |Terminals(clade)| != 1
    ensures ChainsOk(names, paths, Step(names, paths, e, clade).value, done + [clade])
  {
    var e' := Step(names, paths, e, clade).value;
    assert e'.chains == e.chains && e'.tipToBit == e.tipToBit;
    InnerKeysStep(e.chains.items.Keys, done, clade);
  }

  /** Visiting a clade with other than one leaf records no leaf. */
  lemma InnerKeysStep(keys: set<string>, done: seq<Tree>, clade: Tree)
    requires |Terminals(clade)| != 1
    requires forall n :: n in keys <==> exists c :: c in done && Terminals(c) == [n]
    ensures forall n :: n in keys <==> exists c :: c in done + [clade] && Terminals(c) == [n]
  {
    var done' := done + [clade];
    forall n
      ensures n in keys <==> exists c :: c in done' && Terminals(c) == [n]
    {
      if exists c :: c in done' && Terminals(c) == [n] {
        var c :| c in done' && Terminals(c) == [n];
        assert c in done;
      }
      if n in keys {
        var c :| c in done && Terminals(c) == [n];
        assert c in done';
      }
    }
  }

  /** Recording chain `c` for leaf `m` (and writing its links) keeps every
      key of Dec2AncBit justified by some chain. */
  lemma RecordChain(chains: map<string, seq<string>>, d: Dict<string, string>, m: string, c: seq<string>)
    requires |c| > 0 && ChainLinks(chains, d.items) && (m in chains ==> chains[m] == c)
    ensures ChainLinks(chains[m := c], Links(d, c, |c| - 1).items)
  {
    LinksKeys(d, c, |c| - 1);
    RecordChainJustified(chains, d, m, c);
    RecordChainCovered(chains, d, m, c);
  }

  /** Every key written or kept is the predecessor of its value in a chain. */
  lemma RecordChainJustified(chains: map<string, seq<string>>, d: Dict<string, string>, m: string, c: seq<string>)
    requires |c| > 0 && ChainLinks(chains, d.items) && (m in chains ==> chains[m] == c)
    ensures LinksJustified(chains[m := c], Links(d, c, |c| - 1).items)
  {
    var k := |c| - 1;
    var chains' := chains[m := c];
    var dec' := Links(d, c, k).items;
    LinksKeys(d, c, k);
    forall x | x in dec'
      ensures exists n, j :: n in chains' && 0 <= j < |chains'[n]| - 1 && chains'[n][j] == x && chains'[n][j + 1] == dec'[x]
    {
      if x in c[..k] {
        var j :| 0 <= j < k && c[j] == x && dec'[x] == c[j + 1];
        assert chains'[m] == c;
      } else {
        var n, j :| n in chains && 0 <= j < |chains[n]| - 1 && chains[n][j] == x && chains[n][j + 1] == d.items[x];
        assert chains'[n] == chains[n];
      }
    }
  }

  /** Every non-last chain element is a key after the writes. */
  lemma RecordChainCovered(chains: map<string, seq<string>>, d: Dict<string, string>, m: string, c: seq<string>)
    requires |c| > 0 && ChainLinks(chains, d.items) && (m in chains ==> chains[m] == c)
    ensures LinksCover(chains[m := c], Links(d, c, |c| - 1).items)
  {
    var k := |c| - 1;
    var chains' := chains[m := c];
    var dec' := Links(d, c, k).items;
    LinksKeys(d, c, k);
    forall n, j | n in chains' && 0 <= j < |chains'[n]| - 1
      ensures chains'[n][j] in dec'
    {
      if n == m {
        assert c[j] in c[..k];
      } else {
        assert chains[n][j] in d.items;
      }
    }
  }

  lemma StepLinks(names: seq<string>, paths: map<string, seq<Tree>>, e: Encoding, done: seq<Tree>, clade: Tree)
    requires ChainsOk(names, paths, e, done) && LinksOk(e) && Step(names, paths, e, clade).Ok?
    ensures LinksOk(Step(names, paths, e, clade).value)
  {
    var ts := Terminals(clade);
    if |ts| == 1 {
      var m := ts[0];
      assert ts == [m];
      var chain := Chain(names, BitString(names, clade), Drop2(paths[m]));
      assert chain == LeafChain(names, paths, m);
      RecordChain(e.chains.items, e.decToAnc, m, chain);
    }
  }

  lemma {:induction false} LinksValid(d: Dict<string, string>, chain: seq<string>, k: nat)
    requires d.Valid() && k < |chain|
    ensures Links(d, chain, k).Valid()
    decreases k
  {
    if k > 0 {
      LinksValid(d, chain, k - 1);
      PutValid(Links(d, chain, k - 1), chain[k - 1], chain[k]);
    }
  }

  lemma StepValid(names: seq<string>, paths: map<string, seq<Tree>>, e: Encoding, clade: Tree)
    requires Valid(e) && Step(names, paths, e, clade).Ok?
    ensures Valid(Step(names, paths, e, clade).value)
  {
    var ts := Terminals(clade);
    var bit := BitString(names, clade);
    PutValid(e.bitToTips, bit, ts);
    if |ts| == 1 {
      var chain := Chain(names, bit, Drop2(paths[ts[0]]));
      PutValid(e.tipToBit, ts[0], bit);
      PutValid(e.chains, ts[0], chain);
      LinksValid(e.decToAnc, chain, |chain| - 1);
    }
  }

  lemma StepBits(names: seq<string>, paths: map<string, seq<Tree>>, e: Encoding, done: seq<Tree>, clade: Tree)
    requires BitsOk(names, e, done) && Step(names, paths, e, clade).Ok?
    ensures BitsOk(names, Step(names, paths, e, clade).value, done + [clade])
  {
    var e' := Step(names, paths, e, clade).value;
    var bit := BitString(names, clade);
    assert e'.bitToTips.items == e.bitToTips.items[bit := Terminals(clade)];
    forall b
      ensures b in e'.bitToTips.items <==> exists c :: c in done + [clade] && BitString(names, c) == b
    {
      if exists c :: c in done + [clade] && BitString(names, c) == b {
        var c :| c in done + [clade] && BitString(names, c) == b;
        if c in done { assert b in e.bitToTips.items; }
      }
      if b == bit { assert clade in done + [clade]; }
    }
    forall b | b in e'.bitToTips.items
      ensures exists c :: c in done + [clade] && BitString(names, c) == b && e'.bitToTips.items[b] == Terminals(c)
    {
      if b == bit {
        assert clade in done + [clade];
      } else {
        var c :| c in done && BitString(names, c) == b && e.bitToTips.items[b] == Terminals(c);
        assert c in done + [clade];
      }
    }
  }

  /** The passes over `all[i..]` keep the invariant, from the clades before
      `i` to all of them. */
  lemma {:induction false} EncodeFromInv(names: seq<string>, paths: map<string, seq<Tree>>, e: Encoding, all: seq<Tree>, i: nat)
    requires i <= |all| && Inv(names, paths, e, all[..i])
    ensures EncodeFrom(names, paths, e, all[i..]).Ok? ==> Inv(names, paths, EncodeFrom(names, paths, e, all[i..]).value, all)
    decreases |all| - i
  {
    if i == |all| {
      assert all[..i] == all;
    } else {
      var s := Step(names, paths, e, all[i]);
      EncodeFromNext(names, paths, e, all, i);
      if s.Ok? {
        StepInvAt(names, paths, e, all, i);
        EncodeFromInv(names, paths, s.value, all, i + 1);
      }
    }
  }

  /** The pass over clade `i` extends the invariant to the clades up to `i`. */
  lemma StepInvAt(names: seq<string>, paths: map<string, seq<Tree>>, e: Encoding, all: seq<Tree>, i: nat)
    requires i < |all| && Inv(names, paths, e, all[..i]) && Step(names, paths, e, all[i]).Ok?
    ensures Inv(names, paths, Step(names, paths, e, all[i]).value, all[..i + 1])
  {
    var done := all[..i];
    assert done + [all[i]] == all[..i + 1];
    StepInv(names, paths, e, done, all[i]);
  }

  /** One pass of the loop keeps the invariant. */
  lemma StepInv(names: seq<string>, paths: map<string, seq<Tree>>, e: Encoding, done: seq<Tree>, clade: Tree)
    requires Inv(names, paths, e, done) && Step(names, paths, e, clade).Ok?
    ensures Inv(names, paths, Step(names, paths, e, clade).value, done + [clade])
  {
    StepValid(names, paths, e, clade);
    StepChains(names, paths, e, done, clade);
    StepLinks(names, paths, e, done, clade);
    StepBits(names, paths, e, done, clade);
  }

  /** The loop fails exactly when some single-leaf clade has a name that
      `trace` cannot follow. */
  lemma {:induction false} EncodeFromFails(names: seq<string>, paths: map<string, seq<Tree>>, e: Encoding, cs: seq<Tree>)
    ensures EncodeFrom(names, paths, e, cs).Err? <==>
            exists c :: c in cs && |Terminals(c)| == 1 && Terminals(c)[0] !in paths
    decreases |cs|
  {
    if cs != [] {
      var s := Step(names, paths, e, cs[0]);
      var ts := Terminals(cs[0]);
      if s.Ok? {
        assert !(|ts| == 1 && ts[0] !in paths);
        EncodeFromFails(names, paths, s.value, cs[1..]);
        assert EncodeFrom(names, paths, e, cs) == EncodeFrom(names, paths, s.value, cs[1..]);
        if exists c :: c in cs && |Terminals(c)| == 1 && Terminals(c)[0] !in paths {
          var c :| c in cs && |Terminals(c)| == 1 && Terminals(c)[0] !in paths;
          assert c != cs[0];
          assert c in cs[1..];
        }
      } else {
        assert cs[0] in cs;
      }
    }
  }

  // ---------------------------------------------------------------------
  // Terminals of the clades of a tree

  lemma {:induction false} NonTerminalsWithin(t: Tree)
    ensures forall c, x :: c in NonTerminals(t) && x in Terminals(c) ==> x in Terminals(t)
    decreases t, 1
  {
    match t
    case Leaf(_) =>
    case Node(cs) =>
      NonTerminalsOfWithin(cs);
  }

  lemma {:induction false} NonTerminalsOfWithin(cs: seq<Tree>)
    ensures forall c, x :: c in NonTerminalsOf(cs) && x in Terminals(c) ==> x in TerminalsOf(cs)
    decreases cs, 0
  {
    if cs != [] {
      NonTerminalsWithin(cs[0]);
      NonTerminalsOfWithin(cs[1..]);
    }
  }

  /** Every clade visited lies within the tree: its terminal names are
      terminal names of the tree. */
  lemma AllCladesWithin(t: Tree)
    ensures forall c, x :: c in AllClades(t) && x in Terminals(c) ==> x in Terminals(t)
  {
    NonTerminalsWithin(t);
    var all := AllClades(t);
    var k := |Terminals(t)|;
    forall c, x | c in all && x in Terminals(c)
      ensures x in Terminals(t)
    {
      var i :| 0 <= i < |all| && all[i] == c;
      if i >= k {
        assert c == all[k..][i - k];
      }
    }
  }

  // ---------------------------------------------------------------------
  // Properties of `_bitstrs`

  /** `_bitstrs` raises exactly when `trace` fails for some leaf name. */
  lemma EncodeFailsExactly(tree: Tree, paths: map<string, seq<Tree>>)
    ensures Encode(tree, paths).Err? <==> exists n :: n in Terminals(tree) && n !in paths
  {
    var names := SortNames(Terminals(tree));
    var all := AllClades(tree);
    assert Encode(tree, paths) == EncodeFrom(names, paths, Initial(), all);
    EncodeFromFails(names, paths, Initial(), all);
    if exists n :: n in Terminals(tree) && n !in paths {
      var n :| n in Terminals(tree) && n !in paths;
      MissingLeafClade(tree, paths, n);
    }
    if exists c :: c in all && |Terminals(c)| == 1 && Terminals(c)[0] !in paths {
      var c :| c in all && |Terminals(c)| == 1 && Terminals(c)[0] !in paths;
      FailingCladeLeaf(tree, c);
    }
  }

  /** A leaf name is visited as a single-leaf clade of its own. */
  lemma MissingLeafClade(tree: Tree, paths: map<string, seq<Tree>>, n: string)
    requires n in Terminals(tree) && n !in paths
    ensures exists c :: c in AllClades(tree) && |Terminals(c)| == 1 && Terminals(c)[0] !in paths
  {
    var all := AllClades(tree);
    AllCladesAt(tree);
    var i :| 0 <= i < |Terminals(tree)| && Terminals(tree)[i] == n;
    assert all[i] == Leaf(n) && Terminals(Leaf(n)) == [n];
    assert all[i] in all;
  }

  /** The single leaf of a visited clade is a leaf of the tree. */
  lemma FailingCladeLeaf(tree: Tree, c: Tree)
    requires c in AllClades(tree) && |Terminals(c)| == 1
    ensures Terminals(c)[0] in Terminals(tree)
  {
    AllCladesWithin(tree);
    assert Terminals(c)[0] in Terminals(c);
  }

  /** What `_bitstrs` returns, relative to the clades of the tree. */
  lemma EncodeInv(tree: Tree, paths: map<string, seq<Tree>>, e: Encoding)
    requires Encode(tree, paths) == Ok(e)
    ensures Inv(SortNames(Terminals(tree)), paths, e, AllClades(tree))
  {
    var names := SortNames(Terminals(tree));
    var all := AllClades(tree);
    assert Encode(tree, paths) == EncodeFrom(names, paths, Initial(), all);
    assert all[..0] == [] && all[0..] == all;
    assert Inv(names, paths, Initial(), all[..0]);
    EncodeFromInv(names, paths, Initial(), all, 0);
  }

  lemma LeafKeys(tree: Tree, names: seq<string>, paths: map<string, seq<Tree>>, e: Encoding)
    requires ChainsOk(names, paths, e, AllClades(tree))
    ensures forall n :: n in e.tipToBit.items <==> n in Terminals(tree)
    ensures forall n :: n in e.chains.items <==> n in Terminals(tree)
  {
    var all := AllClades(tree);
    AllCladesWithin(tree);
    AllCladesAt(tree);
    forall n
      ensures n in e.chains.items <==> n in Terminals(tree)
    {
      if n in Terminals(tree) {
        var i :| 0 <= i < |Terminals(tree)| && Terminals(tree)[i] == n;
        assert all[i] == Leaf(n) && Terminals(Leaf(n)) == [n];
        assert all[i] in all;
      }
      if n in e.chains.items {
        var c :| c in all && Terminals(c) == [n];
        assert n in Terminals(c);
      }
    }
  }

  /** TipID2Bit and Clone2IntBit have exactly the leaf names as keys. */
  lemma EncodeLeaves(tree: Tree, paths: map<string, seq<Tree>>, e: Encoding)
    requires Encode(tree, paths) == Ok(e)
    ensures forall n :: n in e.tipToBit.items <==> n in Terminals(tree)
    ensures forall n :: n in e.chains.items <==> n in Terminals(tree)
  {
    EncodeInv(tree, paths, e);
    LeafKeys(tree, SortNames(Terminals(tree)), paths, e);
  }

  lemma LeafBits(names: seq<string>, paths: map<string, seq<Tree>>, e: Encoding, all: seq<Tree>)
    requires ChainsOk(names, paths, e, all)
    ensures forall n :: n in e.tipToBit.items ==> |e.tipToBit.items[n]| == |names|
    ensures forall n, i :: n in e.tipToBit.items && 0 <= i < |names| ==>
              (e.tipToBit.items[n][i] == '1' <==> names[i] == n)
    ensures forall n :: n in e.tipToBit.items ==> e.tipToBit.items[n] == BitString(names, Leaf(n))
  {
  }

  /** Each leaf's bit-string has one character per leaf, '1' exactly at the
      positions of its name among the sorted names. */
  lemma EncodeLeafBits(tree: Tree, paths: map<string, seq<Tree>>, e: Encoding)
    requires Encode(tree, paths) == Ok(e)
    ensures forall n :: n in e.tipToBit.items ==> |e.tipToBit.items[n]| == |Terminals(tree)|
    ensures forall n, i :: n in e.tipToBit.items && 0 <= i < |Terminals(tree)| ==>
              (e.tipToBit.items[n][i] == '1' <==> SortNames(Terminals(tree))[i] == n)
    ensures forall n :: n in e.tipToBit.items ==> e.tipToBit.items[n] == BitString(SortNames(Terminals(tree)), Leaf(n))
  {
    EncodeInv(tree, paths, e);
    LeafBits(SortNames(Terminals(tree)), paths, e, AllClades(tree));
  }

  /** Each leaf's chain is its own bit-string followed by the bit-strings of
      the path clades `trace` returns, without the last two; Dec2AncBit maps
      precisely the non-last chain elements, each to its successor in a
      chain. */
  lemma EncodeChains(tree: Tree, paths: map<string, seq<Tree>>, e: Encoding)
    requires Encode(tree, paths) == Ok(e)
    ensures forall n :: n in e.chains.items ==>
              n in paths && e.chains.items[n] == Chain(SortNames(Terminals(tree)), Bits(SortNames(Terminals(tree)), [n]), Drop2(paths[n]))
    ensures forall d :: d in e.decToAnc.items ==>
              exists n, j :: n in e.chains.items && 0 <= j < |e.chains.items[n]| - 1 &&
                             e.chains.items[n][j] == d && e.chains.items[n][j + 1] == e.decToAnc.items[d]
    ensures forall n, j :: n in e.chains.items && 0 <= j < |e.chains.items[n]| - 1 ==>
              e.chains.items[n][j] in e.decToAnc.items
  {
    EncodeInv(tree, paths, e);
  }

  /** Bit2TipID: its keys are the distinct bit-strings of all clades, and each
      is mapped to the terminal names of a clade with that bit-string. */
  lemma EncodeBits(tree: Tree, paths: map<string, seq<Tree>>, e: Encoding)
    requires Encode(tree, paths) == Ok(e)
    ensures Distinct(e.bitToTips.keys)
    ensures forall b :: b in e.bitToTips.keys <==>
              exists c :: c in AllClades(tree) && BitString(SortNames(Terminals(tree)), c) == b
    ensures forall b :: b in e.bitToTips.items ==>
              exists c :: c in AllClades(tree) && BitString(SortNames(Terminals(tree)), c) == b && e.bitToTips.items[b] == Terminals(c)
  {
    EncodeInv(tree, paths, e);
    BitsKeys(SortNames(Terminals(tree)), e.bitToTips, AllClades(tree));
  }

  /** BitsOk, stated over the keys of a valid Bit2TipID. */
  lemma BitsKeys(names: seq<string>, d: Dict<string, seq<string>>, done: seq<Tree>)
    requires d.Valid()
    requires forall b :: b in d.items <==> exists c :: c in done && BitString(names, c) == b
    ensures Distinct(d.keys)
    ensures forall b :: b in d.keys <==> exists c :: c in done && BitString(names, c) == b
  {
  }

  lemma TipBits(tree: Tree, names: seq<string>, paths: map<string, seq<Tree>>, e: Encoding)
    requires ChainsOk(names, paths, e, AllClades(tree)) && BitsOk(names, e, AllClades(tree))
    requires e.bitToTips.Valid()
    requires forall n :: n in e.tipToBit.items <==> n in Terminals(tree)
    ensures forall n :: n in e.tipToBit.items ==> e.tipToBit.items[n] in e.bitToTips.keys
  {
    AllCladesAt(tree);
    forall n | n in e.tipToBit.items
      ensures e.tipToBit.items[n] in e.bitToTips.keys
    {
      var i :| 0 <= i < |Terminals(tree)| && Terminals(tree)[i] == n;
      assert AllClades(tree)[i] == Leaf(n);
      assert AllClades(tree)[i] in AllClades(tree);
      assert BitString(names, Leaf(n)) == e.tipToBit.items[n];
    }
  }

  /** The tip bit-strings are all keys of Bit2TipID, so `BitLs.remove(NorBit)`
      cannot fail once `NorBit` was found. */
  lemma TipBitsAreCladeBits(tree: Tree, paths: map<string, seq<Tree>>, e: Encoding)
    requires Encode(tree, paths) == Ok(e)
    ensures forall n :: n in e.tipToBit.items ==> e.tipToBit.items[n] in e.bitToTips.keys
  {
    EncodeInv(tree, paths, e);
    EncodeLeaves(tree, paths, e);
    TipBits(tree, SortNames(Terminals(tree)), paths, e);
  }
}
