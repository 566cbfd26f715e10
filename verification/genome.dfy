/** The genome store (`Genome` in src/geneobject.rs): a map from chromosome
    name to its loci in file order, plus the list of chromosome names in the
    order they were first seen. */
module GenomeStore {
  import opened Wrappers
  import opened Types

  datatype Genome = Genome(chrOrder: seq<string>, chromosomes: map<string, seq<Locus>>)

  /** `Genome::new`. */
  function Empty(): (g: Genome)
    ensures g.chrOrder == [] && g.chromosomes == map[]
  {
    Genome([], map[])
  }

  predicate NoDup<T(==)>(s: seq<T>) {
    forall i, j :: 0 <= i < j < |s| ==> s[i] != s[j]
  }

  /** The order list names every chromosome of the map exactly once. */
  predicate Valid(g: Genome) {
    && NoDup(g.chrOrder)
    && (forall c :: c in g.chrOrder ==> c in g.chromosomes)
    && (forall c :: c in g.chromosomes ==> c in g.chrOrder)
  }

  /** `or_push_chromosome`: the name is appended to the order list unless it
      is there already, and the chromosome is created empty unless it exists. */
  function OrPushChromosome(g: Genome, chr: string): (r: Genome)
    ensures Valid(g) ==> Valid(r)
    ensures chr in r.chrOrder && chr in r.chromosomes
    ensures chr in g.chrOrder ==> r.chrOrder == g.chrOrder
    ensures chr !in g.chrOrder ==> r.chrOrder == g.chrOrder + [chr]
    ensures r.chromosomes.Keys == g.chromosomes.Keys + {chr}
    ensures forall c :: c in g.chromosomes ==> r.chromosomes[c] == g.chromosomes[c]
    ensures chr !in g.chromosomes ==> r.chromosomes[chr] == []
  {
    var order := if chr in g.chrOrder then g.chrOrder else g.chrOrder + [chr];
    var chroms := if chr in g.chromosomes then g.chromosomes else g.chromosomes[chr := []];
    Genome(order, chroms)
  }

  /** The loci of `chr` so far (none when it is absent). */
  function LociOf(g: Genome, chr: string): seq<Locus> {
    if chr in g.chromosomes then g.chromosomes[chr] else []
  }

  /** `push_locus`: the locus is appended to its own chromosome's list only. */
  function PushLocus(g: Genome, chr: string, l: Locus): (r: Genome)
    ensures Valid(g) ==> Valid(r)
    ensures r.chrOrder == OrPushChromosome(g, chr).chrOrder
    ensures r.chromosomes.Keys == g.chromosomes.Keys + {chr}
    ensures r.chromosomes[chr] == LociOf(g, chr) + [l]
    ensures forall c :: c in g.chromosomes && c != chr ==> r.chromosomes[c] == g.chromosomes[c]
  {
    var h := OrPushChromosome(g, chr);
    h.(chromosomes := h.chromosomes[chr := h.chromosomes[chr] + [l]])
  }

  /** The genome after pushing every `(chromosome, locus)` pair in order, as
      the file reader does line by line. */
  function Build(pairs: seq<(string, Locus)>): (g: Genome)
    ensures Valid(g) && g.chromosomes.Keys == ChrSet(pairs)
    decreases |pairs|
  {
    if |pairs| == 0 then Empty()
    else
      var last := pairs[|pairs| - 1];
      PushLocus(Build(pairs[..|pairs| - 1]), last.0, last.1)
  }

  /** The chromosome column of the pairs. */
  function Chrs(pairs: seq<(string, Locus)>): (r: seq<string>)
    ensures |r| == |pairs| && forall i :: 0 <= i < |pairs| ==> r[i] == pairs[i].0
  {
    seq(|pairs|, i requires 0 <= i < |pairs| => pairs[i].0)
  }

  /** The chromosomes that occur among the pairs. */
  function ChrSet(pairs: seq<(string, Locus)>): set<string>
    decreases |pairs|
  {
    if |pairs| == 0 then {} else ChrSet(pairs[..|pairs| - 1]) + {pairs[|pairs| - 1].0}
  }

  lemma {:induction false} ChrSetMembers(pairs: seq<(string, Locus)>, c: string)
    ensures c in ChrSet(pairs) <==> c in Chrs(pairs)
    decreases |pairs|
  {
    if |pairs| > 0 {
      var n := |pairs| - 1;
      ChrSetMembers(pairs[..n], c);
      assert Chrs(pairs) == Chrs(pairs[..n]) + [pairs[n].0];
    }
  }

  /** The loci paired with `chr`, in order. */
  function Select(pairs: seq<(string, Locus)>, chr: string): seq<Locus>
    decreases |pairs|
  {
    if |pairs| == 0 then []
    else
      var last := pairs[|pairs| - 1];
      Select(pairs[..|pairs| - 1], chr) + (if last.0 == chr then [last.1] else [])
  }

  /** Index of the first occurrence of `x`. */
  function FirstIndex<T(==)>(s: seq<T>, x: T): (i: nat)
    requires x in s
    ensures i < |s| && s[i] == x && x !in s[..i]
  {
    if s[0] == x then 0
    else
      var j := FirstIndex(s[1..], x);
      assert s[1..][..j] == s[1..j + 1];
      j + 1
  }

  lemma FirstIndexPrefix<T>(s: seq<T>, k: nat, x: T)
    requires k <= |s| && x in s[..k]
    ensures x in s && FirstIndex(s, x) == FirstIndex(s[..k], x)
  {
    var i := FirstIndex(s[..k], x);
    assert s[..k][..i] == s[..i];
  }

  /** Building from pairs keeps the genome valid and keys it by exactly the
      chromosomes that occur, none of them empty. */
  lemma {:induction false} BuildValid(pairs: seq<(string, Locus)>)
    ensures var g := Build(pairs);
      && Valid(g)
      && g.chromosomes.Keys == ChrSet(pairs)
      && (forall c :: c in g.chromosomes ==> g.chromosomes[c] != [])
    decreases |pairs|
  {
    if |pairs| > 0 {
      var n := |pairs| - 1;
      BuildValid(pairs[..n]);
      var g0 := Build(pairs[..n]);
      var g := PushLocus(g0, pairs[n].0, pairs[n].1);
      assert Build(pairs) == g;
      assert ChrSet(pairs) == ChrSet(pairs[..n]) + {pairs[n].0};
      assert Valid(g);
      assert g.chromosomes.Keys == ChrSet(pairs);
      forall c | c in g.chromosomes
        ensures g.chromosomes[c] != []
      {
        if c != pairs[n].0 {
          assert g.chromosomes[c] == g0.chromosomes[c];
        }
      }
    }
  }

  /** Each chromosome holds exactly its own loci, in file order. */
  lemma {:induction false} BuildContents(pairs: seq<(string, Locus)>, c: string)
    ensures LociOf(Build(pairs), c) == Select(pairs, c)
    decreases |pairs|
  {
    if |pairs| > 0 {
      BuildContents(pairs[..|pairs| - 1], c);
    }
  }

  /** Every name of `order` occurs in `cs`, and an earlier name of `order`
      first occurs earlier in `cs`. */
  predicate FirstSeenOrder(order: seq<string>, cs: seq<string>) {
    && (forall c :: c in order ==> c in cs)
    && (forall i, j :: 0 <= i < j < |order| ==> FirstIndex(cs, order[i]) < FirstIndex(cs, order[j]))
  }

  /** Appending a name not yet listed, or nothing, keeps the order first-seen. */
  lemma FirstSeenStep(cs: seq<string>, order0: seq<string>, order: seq<string>)
    requires |cs| > 0 && FirstSeenOrder(order0, cs[..|cs| - 1])
    requires var x := cs[|cs| - 1];
      (x in cs[..|cs| - 1] && order == order0) || (x !in cs[..|cs| - 1] && order == order0 + [x])
    ensures FirstSeenOrder(order, cs)
  {
    var n := |cs| - 1;
    var x := cs[n];
    forall c | c in order
      ensures c in cs
    {
      if c != x {
        assert c in order0;
        assert c in cs[..n];
      }
    }
    forall i, j | 0 <= i < j < |order|
      ensures FirstIndex(cs, order[i]) < FirstIndex(cs, order[j])
    {
      var a := order0[i];
      FirstIndexPrefix(cs, n, a);
      if j < |order0| {
        FirstIndexPrefix(cs, n, order0[j]);
      } else {
        assert FirstIndex(cs, x) == n;
      }
    }
  }

  /** The order list is in first-seen order: an earlier name first occurs
      earlier in the input. */
  lemma {:induction false} BuildOrder(pairs: seq<(string, Locus)>)
    ensures FirstSeenOrder(Build(pairs).chrOrder, Chrs(pairs))
    decreases |pairs|
  {
    if |pairs| > 0 {
      var n := |pairs| - 1;
      BuildOrder(pairs[..n]);
      BuildOrderStep(pairs);
      FirstSeenStep(Chrs(pairs), Build(pairs[..n]).chrOrder, Build(pairs).chrOrder);
    }
  }

  /** One more pair appends its chromosome to the order list exactly when
      no earlier pair named it. */
  lemma BuildOrderStep(pairs: seq<(string, Locus)>)
    requires |pairs| > 0
    ensures var n, cs := |pairs| - 1, Chrs(pairs);
      var x, order0, order := cs[n], Build(pairs[..n]).chrOrder, Build(pairs).chrOrder;
      && Chrs(pairs[..n]) == cs[..n]
      && ((x in cs[..n] && order == order0) || (x !in cs[..n] && order == order0 + [x]))
  {
    // The steps below need only the one-step equation of `Build`.
    hide Build, PushLocus, OrPushChromosome, Chrs;
    var n := |pairs| - 1;
    var pre := pairs[..n];
    BuildValid(pre);
    BuildStep(pairs);
    ChrSetMembers(pre, pairs[n].0);
    assert Chrs(pre) == Chrs(pairs)[..n];
  }

  lemma BuildStep(pairs: seq<(string, Locus)>)
    requires |pairs| > 0
    ensures Build(pairs) == PushLocus(Build(pairs[..|pairs| - 1]), pairs[|pairs| - 1].0, pairs[|pairs| - 1].1)
  {
  }

  /** `Genome::iter`: the chromosomes named by the order list, in that order,
      stopping at the first name that has no chromosome. */
  function Iter(g: Genome): (r: seq<seq<Locus>>)
    ensures Valid(g) ==> |r| == |g.chrOrder| && forall i :: 0 <= i < |r| ==> r[i] == g.chromosomes[g.chrOrder[i]]
  {
    IterOfValid(g);
    IterKeys(g.chrOrder, g.chromosomes)
  }

  lemma IterOfValid(g: Genome)
    ensures Valid(g) ==> |IterKeys(g.chrOrder, g.chromosomes)| == |g.chrOrder|
    ensures Valid(g) ==> forall i :: 0 <= i < |g.chrOrder| ==> IterKeys(g.chrOrder, g.chromosomes)[i] == g.chromosomes[g.chrOrder[i]]
  {
    if Valid(g) {
      IterValid(g.chrOrder, g.chromosomes);
    }
  }

  function IterKeys(keys: seq<string>, m: map<string, seq<Locus>>): seq<seq<Locus>>
    decreases |keys|
  {
    if |keys| == 0 || keys[0] !in m then [] else [m[keys[0]]] + IterKeys(keys[1..], m)
  }

  /** For a valid genome the iteration yields every chromosome once, in order-list order. */
  lemma {:induction false} IterValid(keys: seq<string>, m: map<string, seq<Locus>>)
    requires forall c :: c in keys ==> c in m
    ensures |IterKeys(keys, m)| == |keys|
    ensures forall i :: 0 <= i < |keys| ==> IterKeys(keys, m)[i] == m[keys[i]]
    decreases |keys|
  {
    if |keys| > 0 {
      IterValid(keys[1..], m);
    }
  }

  function Flatten(xss: seq<seq<Locus>>): (r: seq<Locus>)
    decreases |xss|
  {
    if |xss| == 0 then [] else xss[0] + Flatten(xss[1..])
  }

  /** A locus of the flattened iteration lies in some chromosome of the map. */
  lemma {:induction false} FlattenIterMember(keys: seq<string>, m: map<string, seq<Locus>>, j: nat)
    requires j < |Flatten(IterKeys(keys, m))|
    ensures exists c, i :: c in m && 0 <= i < |m[c]| && m[c][i] == Flatten(IterKeys(keys, m))[j]
    decreases |keys|
  {
    var head := m[keys[0]];
    if j < |head| {
      assert Flatten(IterKeys(keys, m))[j] == head[j];
    } else {
      assert Flatten(IterKeys(keys, m))[j] == Flatten(IterKeys(keys[1..], m))[j - |head|];
      FlattenIterMember(keys[1..], m, j - |head|);
    }
  }

  /** The first locus of `ls` with the given marker name. */
  function FindNamed(ls: seq<Locus>, name: string): (r: Option<nat>)
    ensures r.None? <==> forall i :: 0 <= i < |ls| ==> ls[i].marker.name != name
    ensures r.Some? ==> r.value < |ls| && ls[r.value].marker.name == name
    ensures r.Some? ==> forall i :: 0 <= i < r.value ==> ls[i].marker.name != name
    decreases |ls|
  {
    if |ls| == 0 then None
    else if ls[0].marker.name == name then Some(0)
    else match FindNamed(ls[1..], name)
      case None => None
      case Some(i) => Some(i + 1)
  }

  /** `Genome::find_locus` (its body is not part of this model): the first
      locus carrying the marker name, chromosomes taken in order-list order;
      None when no locus carries it. */
  function FindLocus(g: Genome, name: string): (r: Option<Locus>)
    ensures var ls := Flatten(Iter(g));
      r.None? <==> forall i :: 0 <= i < |ls| ==> ls[i].marker.name != name
    ensures r.Some? ==> r.value.marker.name == name
    ensures r.Some? ==> exists c, i :: c in g.chromosomes && 0 <= i < |g.chromosomes[c]| && g.chromosomes[c][i] == r.value
  {
    var ls := Flatten(Iter(g));
    match FindNamed(ls, name)
    case None => None
    case Some(j) =>
      FlattenIterMember(g.chrOrder, g.chromosomes, j);
      Some(ls[j])
  }

  // ---------------------------------------------------------------------
  // Map iteration in an unspecified order

  /** `visit` lists every key of the map exactly once, in whatever order the
      map iterates. */
  predicate IsEnumeration(visit: seq<string>, m: map<string, seq<Locus>>) {
    && NoDup(visit)
    && (forall c :: c in visit ==> c in m)
    && (forall c :: c in m ==> c in visit)
  }

  /** All loci, chromosome by chromosome in `visit` order. */
  function AllLoci(m: map<string, seq<Locus>>, visit: seq<string>): (r: seq<Locus>)
    requires forall c :: c in visit ==> c in m
    ensures |r| == SumLens(m, visit)
    decreases |visit|
  {
    if |visit| == 0 then [] else m[visit[0]] + AllLoci(m, visit[1..])
  }

  function SumLens(m: map<string, seq<Locus>>, visit: seq<string>): nat
    requires forall c :: c in visit ==> c in m
    decreases |visit|
  {
    if |visit| == 0 then 0 else |m[visit[0]]| + SumLens(m, visit[1..])
  }

  /** `Dataset::n_loci`: the loci summed over the chromosomes, in map order. */
  function NLoci(g: Genome, visit: seq<string>): (r: nat)
    requires IsEnumeration(visit, g.chromosomes)
    ensures r == |AllLoci(g.chromosomes, visit)|
  {
    SumLens(g.chromosomes, visit)
  }

  lemma {:induction false} SumLensRemove(m: map<string, seq<Locus>>, v: seq<string>, i: nat)
    requires (forall c :: c in v ==> c in m) && i < |v|
    ensures forall c :: c in v[..i] + v[i + 1..] ==> c in m
    ensures SumLens(m, v) == |m[v[i]]| + SumLens(m, v[..i] + v[i + 1..])
    decreases i
  {
    if i > 0 {
      SumLensRemove(m, v[1..], i - 1);
      assert v[1..][..i - 1] + v[1..][i..] == (v[..i] + v[i + 1..])[1..];
    } else {
      assert v[..i] + v[i + 1..] == v[1..];
    }
  }

  /** The count does not depend on the order the map is visited in. */
  lemma {:induction false} NLociOrderFree(m: map<string, seq<Locus>>, v: seq<string>, w: seq<string>)
    requires IsEnumeration(v, m) && IsEnumeration(w, m)
    ensures SumLens(m, v) == SumLens(m, w)
  {
    SumLensPermuted(m, v, w);
  }

  lemma {:induction false} SumLensPermuted(m: map<string, seq<Locus>>, v: seq<string>, w: seq<string>)
    requires NoDup(v) && NoDup(w) && (forall c :: c in v <==> c in w) && (forall c :: c in v ==> c in m)
    ensures SumLens(m, v) == SumLens(m, w)
    decreases |v|
  {
    if |v| > 0 {
      var i := FirstIndex(w, v[0]);
      var w' := w[..i] + w[i + 1..];
      SumLensRemove(m, w, i);
      RemoveHeadMembers(v, w, i);
      RemoveKeepsNoDup(w, i);
      assert NoDup(v[1..]);
      SumLensPermuted(m, v[1..], w');
    }
  }

  /** Dropping `v`'s head from `v`, and its one occurrence from `w`, leaves
      the same names on both sides. */
  lemma RemoveHeadMembers(v: seq<string>, w: seq<string>, i: nat)
    requires NoDup(v) && NoDup(w) && (forall c :: c in v <==> c in w)
    requires |v| > 0 && i < |w| && w[i] == v[0]
    ensures forall c :: c in v[1..] <==> c in w[..i] + w[i + 1..]
  {
    var x := v[0];
    var w' := w[..i] + w[i + 1..];
    forall c
      ensures c in v[1..] <==> c in w'
    {
      if c in v[1..] {
        var k :| 0 <= k < |v[1..]| && v[1..][k] == c;
        assert v[k + 1] == c && c != x;
        assert c in w;
        var kw :| 0 <= kw < |w| && w[kw] == c;
        assert kw != i;
        if kw < i { assert w'[kw] == c; } else { assert w'[kw - 1] == c; }
      }
      if c in w' {
        var k :| 0 <= k < |w'| && w'[k] == c;
        var kw := if k < i then k else k + 1;
        assert w[kw] == c && kw != i;
        assert c != x;
        assert c in v;
        var kv :| 0 <= kv < |v| && v[kv] == c;
        assert v[1..][kv - 1] == c;
      }
    }
  }

  /** Removing one element keeps the rest free of duplicates. */
  lemma RemoveKeepsNoDup(w: seq<string>, i: nat)
    requires NoDup(w) && i < |w|
    ensures NoDup(w[..i] + w[i + 1..])
  {
    var w' := w[..i] + w[i + 1..];
    forall a, b | 0 <= a < b < |w'|
      ensures w'[a] != w'[b]
    {
      var a' := if a < i then a else a + 1;
      var b' := if b < i then b else b + 1;
      assert w'[a] == w[a'] && w'[b] == w[b'];
    }
  }
}
