/** Properties of the Meltos-input builder that span its steps
    (CloneFinder2MeltosIn.py, lines 161-279): what the clade encoding
    guarantees to the emission step, the MRCA bit-string, and what a
    presence character means. */
module MeltosPipeline {
  import opened Wrappers
  import opened Text
  import opened Dicts
  import opened Phylo
  import opened MeltosEncode
  import opened MeltosAggregate
  import opened MeltosEmit

  /** The whole tree is one of the clades `_bitstrs` visits. */
  lemma RootVisited(t: Tree)
    ensures t in AllClades(t)
  {
    AllCladesAt(t);
    match t
    case Leaf(n) =>
      assert AllClades(t)[0] == Leaf(n);
    case Node(_) =>
      NonTerminalsAreNodes(t);
      assert AllClades(t)[|Terminals(t)|] == NonTerminals(t)[0];
  }

  /** The sorted leaf names are duplicate-free when the leaf names are. */
  lemma SortedDistinct(t: Tree)
    requires Distinct(Terminals(t))
    ensures Distinct(SortNames(Terminals(t)))
  {
    DistinctPermutation(Terminals(t), SortNames(Terminals(t)));
  }

  /** Over distinct names, a leaf's bit-string has its only '1' at the
      leaf's position. */
  lemma LeafIsSingleOne(names: seq<string>, p: nat)
    requires Distinct(names) && p < |names|
    ensures BitString(names, Leaf(names[p])) == SingleOne(|names|, p)
  {
    var b := BitString(names, Leaf(names[p]));
    forall i | 0 <= i < |names|
      ensures b[i] == SingleOne(|names|, p)[i]
    {
      BitStringAt(names, Leaf(names[p]), i);
    }
  }

  /** With distinct leaf names, Normal's bit-string has its single '1' at the
      position of "Normal" among the sorted names. */
  lemma NormalBit(tree: Tree, paths: map<string, seq<Tree>>, e: Encoding)
    requires Encode(tree, paths) == Ok(e)
    requires Distinct(Terminals(tree)) && "Normal" in Terminals(tree)
    ensures "Normal" in e.tipToBit.items && IndexOf(SortNames(Terminals(tree)), "Normal").Some?
    ensures e.tipToBit.items["Normal"] ==
              SingleOne(|Terminals(tree)|, IndexOf(SortNames(Terminals(tree)), "Normal").value)
  {
    var names := SortNames(Terminals(tree));
    EncodeLeaves(tree, paths, e);
    EncodeLeafBits(tree, paths, e);
    assert "Normal" in multiset(Terminals(tree));
    assert "Normal" in names;
    SortedDistinct(tree);
    var p := IndexOf(names, "Normal").value;
    LeafIsSingleOne(names, p);
  }

  /** For a tree with one leaf per clone plus Normal and distinct leaf names,
      neither `BitLs.remove` fails: Normal's bit-string and the all-ones
      string of the root are both keys of Bit2TipID, and they differ. */
  lemma CladeListSucceeds(tree: Tree, paths: map<string, seq<Tree>>, e: Encoding, cloC: nat)
    requires Encode(tree, paths) == Ok(e)
    requires Distinct(Terminals(tree)) && "Normal" in Terminals(tree)
    requires |Terminals(tree)| == cloC + 1 && cloC >= 1
    ensures Remaining(e, cloC).Ok?
  {
    NormalKey(tree, paths, e, cloC);
    RootKey(tree, paths, e, cloC);
    EncodeBits(tree, paths, e);
    var norBit := e.tipToBit.items["Normal"];
    RemoveDistinct(e.bitToTips.keys, norBit);
    assert Remove(e.bitToTips.keys, norBit).Ok?;
  }

  /** Normal's bit-string is a digit string, a key of Bit2TipID and not the
      all-ones string. */
  lemma NormalKey(tree: Tree, paths: map<string, seq<Tree>>, e: Encoding, cloC: nat)
    requires Encode(tree, paths) == Ok(e)
    requires Distinct(Terminals(tree)) && "Normal" in Terminals(tree)
    requires |Terminals(tree)| == cloC + 1 && cloC >= 1
    ensures "Normal" in e.tipToBit.items
    ensures IsDigits(e.tipToBit.items["Normal"]) && e.tipToBit.items["Normal"] in e.bitToTips.keys
    ensures e.tipToBit.items["Normal"] != Ones(cloC)
  {
    NormalBit(tree, paths, e);
    var p := IndexOf(SortNames(Terminals(tree)), "Normal").value;
    SingleOneShape(cloC, p);
    EncodeLeaves(tree, paths, e);
    TipBitsAreCladeBits(tree, paths, e);
  }

  /** A single-'1' string of length at least two is a digit string and not
      all ones. */
  lemma SingleOneShape(cloC: nat, p: nat)
    requires cloC >= 1 && p <= cloC
    ensures IsDigits(SingleOne(cloC + 1, p)) && SingleOne(cloC + 1, p) != Ones(cloC)
  {
    var q := if p == 0 then 1 else 0;
    assert SingleOne(cloC + 1, p)[q] == '0';
  }

  /** The all-ones string, the root clade's bit-string, is a key of Bit2TipID. */
  lemma RootKey(tree: Tree, paths: map<string, seq<Tree>>, e: Encoding, cloC: nat)
    requires Encode(tree, paths) == Ok(e)
    requires |Terminals(tree)| == cloC + 1
    ensures Ones(cloC) in e.bitToTips.keys
  {
    EncodeBits(tree, paths, e);
    RootVisited(tree);
    RootBitAllOnes(tree);
    assert BitString(SortNames(Terminals(tree)), tree) == Ones(cloC);
  }

  /** When "Normal" is not the first sorted name, MRCAbit is the bit-string
      with '1' exactly at every other leaf: the clade of all the clones. */
  lemma MrcaIsCloneClade(tree: Tree, paths: map<string, seq<Tree>>, e: Encoding, cloC: nat)
    requires Encode(tree, paths) == Ok(e)
    requires Distinct(Terminals(tree)) && "Normal" in Terminals(tree)
    requires |Terminals(tree)| == cloC + 1
    requires IndexOf(SortNames(Terminals(tree)), "Normal").Some?
    requires IndexOf(SortNames(Terminals(tree)), "Normal").value > 0
    ensures "Normal" in e.tipToBit.items
    ensures Mrca(cloC, e.tipToBit.items["Normal"]) == Bits(SortNames(Terminals(tree)), RemoveAll(Terminals(tree), "Normal"))
  {
    var names := SortNames(Terminals(tree));
    NormalBit(tree, paths, e);
    var p := IndexOf(names, "Normal").value;
    MrcaComplement(cloC, p);
    SortedDistinct(tree);
    var b := Bits(names, RemoveAll(Terminals(tree), "Normal"));
    forall i | 0 <= i < |names|
      ensures b[i] == AllButOne(cloC + 1, p)[i]
    {
      assert names[i] in multiset(Terminals(tree));
      assert names[i] in Terminals(tree);
      RemoveAllIn(Terminals(tree), "Normal", names[i]);
    }
  }

  /** The sequence without any occurrence of `x`. */
  function RemoveAll(s: seq<string>, x: string): (r: seq<string>)
    decreases |s|
  {
    if s == [] then [] else (if s[0] == x then [] else [s[0]]) + RemoveAll(s[1..], x)
  }

  lemma {:induction false} RemoveAllIn(s: seq<string>, x: string, y: string)
    ensures y in RemoveAll(s, x) <==> y in s && y != x
    decreases |s|
  {
    if s != [] {
      RemoveAllIn(s[1..], x, y);
      assert s == [s[0]] + s[1..];
    }
  }

  /** When "Normal" is the first sorted name (and there are clones), the
      subtraction drops the leading '0' of the complement, MRCAbit is one
      character shorter than every clade bit-string, and the lookup
      `Bit2ID[MRCAbit]` makes the tree file fail with KeyError. */
  lemma NormalFirstBreaksTree(tree: Tree, paths: map<string, seq<Tree>>, e: Encoding, cloC: nat,
                              vlines: seq<string>, samps: seq<string>)
    requires Encode(tree, paths) == Ok(e)
    requires Distinct(Terminals(tree)) && "Normal" in Terminals(tree)
    requires |Terminals(tree)| == cloC + 1 && cloC >= 1
    requires IndexOf(SortNames(Terminals(tree)), "Normal") == Some(0)
    ensures Remaining(e, cloC).Ok? && "Normal" in e.tipToBit.items
    ensures Mrca(cloC, e.tipToBit.items["Normal"]) == Repeat('1', cloC)
    ensures Valid(e) && TreeFile(Ids(Remaining(e, cloC).value), Mrca(cloC, e.tipToBit.items["Normal"]), e.decToAnc, vlines, samps) == Err(KeyError)
  {
    CladeListSucceeds(tree, paths, e, cloC);
    NormalBit(tree, paths, e);
    MrcaLeadingZero(cloC);
    EncodeInv(tree, paths, e);
    var rem := Remaining(e, cloC).value;
    RemainingShape(e, cloC);
    IdsContiguous(rem);
    EncodeBits(tree, paths, e);
    assert Repeat('1', cloC) !in Ids(rem);
  }

  /** Character i + 1 of a clade's presence string is '1' exactly when some
      clone present in sample i (frequency above zero) has the clade on its
      chain. */
  lemma PresenceMeansClone(samps: seq<string>, t: FreqTable, chains: map<string, seq<string>>,
                           vafs: map<string, map<string, real>>, bit: string, i: nat)
    requires WellFormed(t) && i < |samps|
    requires forall s :: s in samps ==> s in t.freq && s in vafs &&
                                        Aggregate(Surviving(t.clones, t.freq[s]), chains) == Ok(vafs[s])
    ensures Presence(samps, vafs, bit)[i + 1] == '1' <==>
              exists j :: 0 <= j < |t.clones| && t.freq[samps[i]][j] > 0.0 && t.clones[j] in chains && bit in chains[t.clones[j]]
  {
    var s := samps[i];
    assert s in samps;
    PresenceShape(samps, vafs, bit);
    PresentExactly(t.clones, t.freq[s], chains, vafs[s], bit);
  }
}
