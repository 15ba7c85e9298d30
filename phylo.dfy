/** Clone trees as Bio.Phylo presents them to the Meltos-input builder, and
    the clade bit-strings it derives from them.

    A tree is a terminal clade carrying a clone name, or a nonterminal clade
    with its child clades in Newick order.  `Terminals` is `get_terminals()`
    (terminal names, preorder, left to right) and `NonTerminals` is
    `get_nonterminals()` (preorder, the clade itself first). */
module Phylo {
  import opened Dicts

  datatype Tree = Leaf(name: string) | Node(children: seq<Tree>)

  /** Names of `t.get_terminals()`, in preorder. */
  function Terminals(t: Tree): seq<string>
    decreases t, 1
  {
    match t
    case Leaf(n) => [n]
    case Node(cs) => TerminalsOf(cs)
  }

  function TerminalsOf(cs: seq<Tree>): seq<string>
    decreases cs, 0
  {
    if cs == [] then [] else Terminals(cs[0]) + TerminalsOf(cs[1..])
  }

  /** `t.get_nonterminals()`, in preorder. */
  function NonTerminals(t: Tree): seq<Tree>
    decreases t, 1
  {
    match t
    case Leaf(_) => []
    case Node(cs) => [t] + NonTerminalsOf(cs)
  }

  function NonTerminalsOf(cs: seq<Tree>): seq<Tree>
    decreases cs, 0
  {
    if cs == [] then [] else NonTerminals(cs[0]) + NonTerminalsOf(cs[1..])
  }

  /** `tree.get_terminals() + tree.get_nonterminals()`: the terminal clades
      first, then the nonterminal ones. */
  function AllClades(t: Tree): seq<Tree> {
    seq(|Terminals(t)|, i requires 0 <= i < |Terminals(t)| => Leaf(Terminals(t)[i])) + NonTerminals(t)
  }

  /** The first clades visited are the single leaves, in preorder, then the
      nonterminal clades. */
  lemma AllCladesAt(t: Tree)
    ensures |AllClades(t)| == |Terminals(t)| + |NonTerminals(t)|
    ensures forall i :: 0 <= i < |Terminals(t)| ==> AllClades(t)[i] == Leaf(Terminals(t)[i])
    ensures AllClades(t)[|Terminals(t)|..] == NonTerminals(t)
  {
  }

  /** Every nonterminal clade of `t` is a `Node`, and `t` itself is the first
      one when it is a `Node`. */
  lemma {:induction false} NonTerminalsAreNodes(t: Tree)
    ensures forall c :: c in NonTerminals(t) ==> c.Node?
    ensures t.Node? ==> NonTerminals(t)[0] == t
    decreases t, 1
  {
    match t
    case Leaf(_) =>
    case Node(cs) => NonTerminalsOfAreNodes(cs);
  }

  lemma {:induction false} NonTerminalsOfAreNodes(cs: seq<Tree>)
    ensures forall c :: c in NonTerminalsOf(cs) ==> c.Node?
    decreases cs, 0
  {
    if cs != [] {
      NonTerminalsAreNodes(cs[0]);
      NonTerminalsOfAreNodes(cs[1..]);
    }
  }

  // ---------------------------------------------------------------------
  // list.sort() on names: Python orders strings by code point,
  // lexicographically, a proper prefix first.

  predicate LexLe(a: string, b: string)
    decreases |a|
  {
    a == [] || (b != [] && (a[0] < b[0] || (a[0] == b[0] && LexLe(a[1..], b[1..]))))
  }

  lemma LexTotal(a: string, b: string)
    ensures LexLe(a, b) || LexLe(b, a)
    decreases |a|
  {
    if a != [] && b != [] && a[0] == b[0] {
      LexTotal(a[1..], b[1..]);
    }
  }

  lemma {:induction false} LexAntisymmetric(a: string, b: string)
    requires LexLe(a, b) && LexLe(b, a)
    ensures a == b
    decreases |a|
  {
    if a != [] {
      LexAntisymmetric(a[1..], b[1..]);
      assert a == [a[0]] + a[1..] && b == [b[0]] + b[1..];
    }
  }

  predicate Sorted(s: seq<string>) {
    forall i :: 0 < i < |s| ==> LexLe(s[i - 1], s[i])
  }

  function Insert(x: string, s: seq<string>): (r: seq<string>)
    requires Sorted(s)
    ensures Sorted(r) && multiset(r) == multiset(s) + multiset{x}
    ensures |r| == |s| + 1 && (r[0] == x || (s != [] && r[0] == s[0]))
  {
    if s == [] then [x]
    else if LexLe(x, s[0]) then [x] + s
    else
      LexTotal(x, s[0]);
      var t := Insert(x, s[1..]);
      assert s == [s[0]] + s[1..];
      [s[0]] + t
  }

  /** `names.sort()`: the names in ascending order, each as often as before. */
  function SortNames(names: seq<string>): (r: seq<string>)
    ensures Sorted(r) && multiset(r) == multiset(names)
    ensures |r| == |names|
  {
    if names == [] then []
    else
      var n := |names| - 1;
      assert names == names[..n] + [names[n]];
      Insert(names[n], SortNames(names[..n]))
  }

  /** A sorted permutation is unique: whatever order `list.sort()` starts
      from, the sorted names are the same. */
  lemma {:induction false} SortedUnique(a: seq<string>, b: seq<string>)
    requires Sorted(a) && Sorted(b) && multiset(a) == multiset(b)
    ensures a == b
    decreases |a|
  {
    if a != [] {
      assert a[0] in multiset(a);
      assert b != [];
      assert b[0] in multiset(b);
      SortedHeadLeast(a, b[0]);
      SortedHeadLeast(b, a[0]);
      LexAntisymmetric(a[0], b[0]);
      SameTail(a, b);
      SortedUnique(a[1..], b[1..]);
      assert a == [a[0]] + a[1..] && b == [b[0]] + b[1..];
    }
  }

  /** Removing the same first element from two permutations of each other
      leaves permutations, sorted when they were. */
  lemma SameTail(a: seq<string>, b: seq<string>)
    requires a != [] && b != [] && a[0] == b[0] && multiset(a) == multiset(b)
    requires Sorted(a) && Sorted(b)
    ensures multiset(a[1..]) == multiset(b[1..])
    ensures Sorted(a[1..]) && Sorted(b[1..])
  {
    assert a == [a[0]] + a[1..] && b == [b[0]] + b[1..];
    assert multiset(a) == multiset{a[0]} + multiset(a[1..]);
    assert multiset(b) == multiset{b[0]} + multiset(b[1..]);
    assert multiset(a[1..]) == multiset(a) - multiset{a[0]};
    assert multiset(b[1..]) == multiset(b) - multiset{b[0]};
  }

  lemma {:induction false} SortedHeadLeast(s: seq<string>, x: string)
    requires Sorted(s) && x in s
    ensures LexLe(s[0], x)
    decreases |s|
  {
    if s[0] != x {
      assert x in s[1..];
      SortedHeadLeast(s[1..], x);
      LexTransitive(s[0], s[1], x);
    } else {
      LexReflexive(x);
    }
  }

  lemma LexReflexive(a: string)
    ensures LexLe(a, a)
    decreases |a|
  {
    if a != [] { LexReflexive(a[1..]); }
  }

  lemma LexTransitive(a: string, b: string, c: string)
    requires LexLe(a, b) && LexLe(b, c)
    ensures LexLe(a, c)
    decreases |a|
  {
    if a != [] && b != [] && c != [] && a[0] == b[0] == c[0] {
      LexTransitive(a[1..], b[1..], c[1..]);
    }
  }

  // ---------------------------------------------------------------------
  // Clade bit-strings

  /** `"".join(map(str, map(int, [name in members for name in names])))`. */
  function Bits(names: seq<string>, members: seq<string>): (r: string)
    ensures |r| == |names|
  {
    seq(|names|, i requires 0 <= i < |names| => if names[i] in members then '1' else '0')
  }

  /** The bit-string of `clade` over the leaf-name list `names`. */
  function BitString(names: seq<string>, clade: Tree): (r: string)
    ensures |r| == |names|
  {
    Bits(names, Terminals(clade))
  }

  /** Character i of a clade's bit-string is '1' when the i-th name lies
      under the clade and '0' otherwise. */
  lemma BitStringAt(names: seq<string>, clade: Tree, i: nat)
    requires i < |names|
    ensures BitString(names, clade)[i] in "01"
    ensures BitString(names, clade)[i] == '1' <==> names[i] in Terminals(clade)
  {
  }

  /** Over the sorted leaf names of the whole tree, the tree's own clade is
      the string of all ones. */
  lemma RootBitAllOnes(t: Tree)
    ensures BitString(SortNames(Terminals(t)), t) == seq(|Terminals(t)|, _ => '1')
  {
    var names := SortNames(Terminals(t));
    forall i | 0 <= i < |names|
      ensures names[i] in Terminals(t)
    {
      assert names[i] in multiset(names);
    }
  }

  /** With distinct names, a single-leaf clade has exactly one '1', at the
      position of its name. */
  lemma LeafBit(names: seq<string>, n: string, p: nat)
    requires Distinct(names) && p < |names| && names[p] == n
    ensures BitString(names, Leaf(n)) == seq(p, _ => '0') + "1" + seq(|names| - p - 1, _ => '0')
  {
    var b := BitString(names, Leaf(n));
    var e := seq(p, _ => '0') + "1" + seq(|names| - p - 1, _ => '0');
    assert |b| == |e|;
    forall i | 0 <= i < |b| ensures b[i] == e[i] {
      if i < p { assert names[i] != n; } else if i > p { assert names[i] != n; }
    }
  }
}
