/** The allele-balance site filter: the allele depths of het genotypes are
    summed per allele list, and the site fails when, for some list, the
    less-represented allele has less than the required fraction of the
    total. */
module AlleleBalance {
  import opened VcfModel

  const AlleleBalanceFilterName: string := "AlleleBalance"

  /** One counter per het allele list. `samples` is never updated. */
  datatype Counts = Counts(samples: int, allele1: int, allele2: int)

  type Counters = map<seq<Allele>, Counts>

  function Min(a: int, b: int): int {
    if a <= b then a else b
  }

  /** The loop skips no-call and non-het genotypes. */
  predicate Counted(g: Genotype) {
    !IsNoCall(g) && IsHet(g)
  }

  /** Every genotype that is counted has allele depths at the site indices of
      its first two alleles (the array reads are otherwise out of range). */
  ghost predicate DepthsInRange(siteAlleles: seq<Allele>, gts: seq<Genotype>) {
    forall g :: g in gts ==> DepthInRange(siteAlleles, g)
  }

  ghost predicate DepthInRange(siteAlleles: seq<Allele>, g: Genotype) {
    Counted(g) ==>
      |g.alleles| >= 2 &&
      0 <= IndexOf(siteAlleles, g.alleles[0]) < |g.ad| &&
      0 <= IndexOf(siteAlleles, g.alleles[1]) < |g.ad|
  }

  /** The depth `g` adds to counter `key`: its depth at the site index of the
      key's allele number `which` (0 or 1), when `g` is counted under `key`. */
  function Contribution(siteAlleles: seq<Allele>, key: seq<Allele>, which: nat, g: Genotype): int {
    if Counted(g) && g.alleles == key && which < |key| then
      var idx := IndexOf(siteAlleles, key[which]);
      if 0 <= idx < |g.ad| then g.ad[idx] else 0
    else 0
  }

  /** The depth summed for counter `key` over `gts`. */
  function AdSum(siteAlleles: seq<Allele>, gts: seq<Genotype>, key: seq<Allele>, which: nat): int {
    if gts == [] then 0
    else
      var n := |gts| - 1;
      AdSum(siteAlleles, gts[..n], key, which) + Contribution(siteAlleles, key, which, gts[n])
  }

  /** The allele lists of the counted genotypes. */
  function HetLists(gts: seq<Genotype>): set<seq<Allele>> {
    if gts == [] then {}
    else
      var n := |gts| - 1;
      HetLists(gts[..n]) + (if Counted(gts[n]) then {gts[n].alleles} else {})
  }

  /** One pass of the first loop's body: a skipped genotype leaves the
      counters alone; a counted one adds its two depths to the counter of its
      allele list, which starts at zero when the list is new. */
  function CountOne(siteAlleles: seq<Allele>, t: Counters, g: Genotype): (t': Counters)
    ensures !Counted(g) ==> t' == t
    ensures Counted(g) ==> t'.Keys == t.Keys + {g.alleles}
    ensures forall key :: key in t && key != g.alleles ==> t'[key] == t[key]
  {
    if !Counted(g) then t
    else
      var c := if g.alleles in t then t[g.alleles] else Counts(0, 0, 0);
      t[g.alleles := c.(allele1 := c.allele1 + Contribution(siteAlleles, g.alleles, 0, g),
                        allele2 := c.allele2 + Contribution(siteAlleles, g.alleles, 1, g))]
  }

  /** The counters after the first loop has visited `gts`. */
  function Tally(siteAlleles: seq<Allele>, gts: seq<Genotype>): (t: Counters)
    ensures t.Keys == HetLists(gts)
  {
    if gts == [] then map[]
    else
      var n := |gts| - 1;
      CountOne(siteAlleles, Tally(siteAlleles, gts[..n]), gts[n])
  }

  /** A counter trips the filter when it has observations and the minor
      allele's share is below the threshold. */
  predicate Unbalanced(c: Counts, hetAlleleBalance: real) {
    var total := c.allele1 + c.allele2;
    total > 0 && (Min(c.allele1, c.allele2) as real) / (total as real) < hetAlleleBalance
  }

  /** The site fails when some counter is unbalanced. */
  ghost predicate Fails(ctx: Record, hetAlleleBalance: real) {
    var t := Tally(ctx.alleles, ctx.genotypes);
    exists key :: key in t && Unbalanced(t[key], hetAlleleBalance)
  }

  /** The number of het genotypes. */
  function HetCount(gts: seq<Genotype>): (n: nat)
    ensures n == 0 <==> forall g :: g in gts ==> !IsHet(g)
  {
    if gts == [] then 0
    else HetCount(gts[1..]) + (if IsHet(gts[0]) then 1 else 0)
  }

  // ---------------------------------------------------------------------
  // The counters

  /** The het allele lists are those of the counted genotypes. */
  lemma {:induction false} HetListsMembers(gts: seq<Genotype>, key: seq<Allele>)
    ensures key in HetLists(gts) <==> exists i :: 0 <= i < |gts| && Counted(gts[i]) && gts[i].alleles == key
  {
    if gts != [] {
      var n := |gts| - 1;
      HetListsMembers(gts[..n], key);
      if exists i :: 0 <= i < n && Counted(gts[..n][i]) && gts[..n][i].alleles == key {
        var i :| 0 <= i < n && Counted(gts[..n][i]) && gts[..n][i].alleles == key;
        assert gts[i] == gts[..n][i];
      }
      if exists i :: 0 <= i < |gts| && Counted(gts[i]) && gts[i].alleles == key {
        var i :| 0 <= i < |gts| && Counted(gts[i]) && gts[i].alleles == key;
        if i < n {
          assert gts[..n][i] == gts[i];
        }
      }
    }
  }

  /** A list no counted genotype carries sums to nothing. */
  lemma {:induction false} AdSumAbsent(siteAlleles: seq<Allele>, gts: seq<Genotype>, key: seq<Allele>, which: nat)
    requires key !in HetLists(gts)
    ensures AdSum(siteAlleles, gts, key, which) == 0
  {
    if gts != [] {
      AdSumAbsent(siteAlleles, gts[..|gts| - 1], key, which);
    }
  }

  /** The counters in closed form: one per het allele list, holding the sums
      of the depths for the list's first and second allele. */
  lemma {:induction false} TallyClosedForm(siteAlleles: seq<Allele>, gts: seq<Genotype>)
    ensures Tally(siteAlleles, gts).Keys == HetLists(gts)
    ensures forall key :: key in Tally(siteAlleles, gts) ==>
              Tally(siteAlleles, gts)[key] ==
                Counts(0, AdSum(siteAlleles, gts, key, 0), AdSum(siteAlleles, gts, key, 1))
  {
    if gts != [] {
      var n := |gts| - 1;
      var g := gts[n];
      TallyClosedForm(siteAlleles, gts[..n]);
      if Counted(g) && g.alleles !in HetLists(gts[..n]) {
        AdSumAbsent(siteAlleles, gts[..n], g.alleles, 0);
        AdSumAbsent(siteAlleles, gts[..n], g.alleles, 1);
      }
    }
  }

  /** Exactly one counter per distinct allele list among the counted
      genotypes. */
  lemma CounterPerHetList(siteAlleles: seq<Allele>, gts: seq<Genotype>, key: seq<Allele>)
    ensures key in Tally(siteAlleles, gts) <==>
              exists i :: 0 <= i < |gts| && Counted(gts[i]) && gts[i].alleles == key
  {
    TallyClosedForm(siteAlleles, gts);
    HetListsMembers(gts, key);
  }

  /** A genotype the loop skips adds to no counter. */
  lemma SkippedAddsNothing(siteAlleles: seq<Allele>, gts: seq<Genotype>, g: Genotype)
    requires !Counted(g)
    ensures Tally(siteAlleles, gts + [g]) == Tally(siteAlleles, gts)
  {
    assert (gts + [g])[..|gts|] == gts;
  }

  // ---------------------------------------------------------------------
  // Order independence

  lemma AdSumAppend(siteAlleles: seq<Allele>, gts: seq<Genotype>, g: Genotype, key: seq<Allele>, which: nat)
    ensures AdSum(siteAlleles, gts + [g], key, which) ==
              AdSum(siteAlleles, gts, key, which) + Contribution(siteAlleles, key, which, g)
  {
    assert (gts + [g])[..|gts|] == gts;
  }

  lemma {:induction false} AdSumConcat(siteAlleles: seq<Allele>, a: seq<Genotype>, b: seq<Genotype>, key: seq<Allele>, which: nat)
    ensures AdSum(siteAlleles, a + b, key, which) == AdSum(siteAlleles, a, key, which) + AdSum(siteAlleles, b, key, which)
  {
    if b != [] {
      var n := |b| - 1;
      AdSumConcat(siteAlleles, a, b[..n], key, which);
      assert a + b == (a + b[..n]) + [b[n]];
      AdSumAppend(siteAlleles, a + b[..n], b[n], key, which);
      assert b == b[..n] + [b[n]];
      AdSumAppend(siteAlleles, b[..n], b[n], key, which);
    } else {
      assert a + b == a;
    }
  }

  /** The sums do not depend on the order of the genotypes. */
  lemma {:induction false} AdSumPermutation(siteAlleles: seq<Allele>, a: seq<Genotype>, b: seq<Genotype>, key: seq<Allele>, which: nat)
    requires multiset(a) == multiset(b)
    ensures AdSum(siteAlleles, a, key, which) == AdSum(siteAlleles, b, key, which)
    decreases |a|
  {
    if a != [] {
      var n := |a| - 1;
      var x := a[n];
      assert a == a[..n] + [x];
      assert x in multiset(b);
      var j :| 0 <= j < |b| && b[j] == x;
      var rest := b[..j] + b[j + 1..];
      assert b == b[..j] + [x] + b[j + 1..];
      assert multiset(a[..n]) == multiset(a) - multiset{x};
      assert multiset(rest) == multiset(b) - multiset{x};
      AdSumPermutation(siteAlleles, a[..n], rest, key, which);
      AdSumConcat(siteAlleles, b[..j] + [x], b[j + 1..], key, which);
      AdSumAppend(siteAlleles, b[..j], x, key, which);
      AdSumConcat(siteAlleles, b[..j], b[j + 1..], key, which);
      AdSumAppend(siteAlleles, a[..n], x, key, which);
    }
  }

  lemma HetListsPermutation(a: seq<Genotype>, b: seq<Genotype>)
    requires multiset(a) == multiset(b)
    ensures HetLists(a) == HetLists(b)
  {
    forall key ensures key in HetLists(a) ==> key in HetLists(b) {
      HetListsMembers(a, key);
      HetListsMembers(b, key);
      if key in HetLists(a) {
        var i :| 0 <= i < |a| && Counted(a[i]) && a[i].alleles == key;
        assert a[i] in multiset(b);
        var j :| 0 <= j < |b| && b[j] == a[i];
      }
    }
    forall key ensures key in HetLists(b) ==> key in HetLists(a) {
      HetListsMembers(a, key);
      HetListsMembers(b, key);
      if key in HetLists(b) {
        var j :| 0 <= j < |b| && Counted(b[j]) && b[j].alleles == key;
        assert b[j] in multiset(a);
        var i :| 0 <= i < |a| && a[i] == b[j];
      }
    }
  }

  /** The counters, hence the verdict, do not depend on the order in which
      the genotypes are visited. */
  lemma TallyOrderIndependent(siteAlleles: seq<Allele>, a: seq<Genotype>, b: seq<Genotype>)
    requires multiset(a) == multiset(b)
    ensures Tally(siteAlleles, a) == Tally(siteAlleles, b)
  {
    TallyClosedForm(siteAlleles, a);
    TallyClosedForm(siteAlleles, b);
    HetListsPermutation(a, b);
    forall key | key in Tally(siteAlleles, a)
      ensures Tally(siteAlleles, a)[key] == Tally(siteAlleles, b)[key]
    {
      AdSumPermutation(siteAlleles, a, b, key, 0);
      AdSumPermutation(siteAlleles, a, b, key, 1);
    }
  }

  lemma FailsOrderIndependent(ctx: Record, gts: seq<Genotype>, hetAlleleBalance: real)
    requires multiset(gts) == multiset(ctx.genotypes)
    ensures Fails(ctx.(genotypes := gts), hetAlleleBalance) <==> Fails(ctx, hetAlleleBalance)
  {
    TallyOrderIndependent(ctx.alleles, gts, ctx.genotypes);
  }

  // ---------------------------------------------------------------------
  // The verdict

  /** A site without het genotypes has no counters, so the early return
      agrees with what the loops would decide. */
  lemma NoHetNoCounters(siteAlleles: seq<Allele>, gts: seq<Genotype>)
    requires HetCount(gts) == 0
    ensures Tally(siteAlleles, gts) == map[]
  {
    TallyClosedForm(siteAlleles, gts);
    forall i | 0 <= i < |gts| ensures !Counted(gts[i]) {
      assert gts[i] in gts;
    }
    forall key ensures key !in HetLists(gts) {
      HetListsMembers(gts, key);
    }
  }

  /** A counter with no observations never trips the filter, whatever the
      threshold. */
  lemma EmptyCounterPasses(c: Counts, hetAlleleBalance: real)
    requires c.allele1 + c.allele2 == 0
    ensures !Unbalanced(c, hetAlleleBalance)
  {
  }

  /** Exact-arithmetic reading of the share test: with observations, the
      minor allele's share is below the threshold exactly when the minor
      count is below threshold times total. */
  lemma UnbalancedByProduct(c: Counts, hetAlleleBalance: real)
    requires c.allele1 + c.allele2 > 0
    ensures Unbalanced(c, hetAlleleBalance) <==>
              (Min(c.allele1, c.allele2) as real) < hetAlleleBalance * ((c.allele1 + c.allele2) as real)
  {
    var total := (c.allele1 + c.allele2) as real;
    var m := Min(c.allele1, c.allele2) as real;
    assert m / total * total == m;
  }

  /** The first loop's body for one genotype: skip it unless it is a called
      het; otherwise fetch (or create) the counter of its allele list and add
      its depths at the site indices of its first and second allele. */
  method CountGenotype(siteAlleles: seq<Allele>, countsMap: Counters, gt: Genotype) returns (countsMap': Counters)
    requires DepthInRange(siteAlleles, gt)
    ensures countsMap' == CountOne(siteAlleles, countsMap, gt)
    ensures Counted(gt) ==> countsMap'.Keys == countsMap.Keys + {gt.alleles}
    ensures !Counted(gt) ==> countsMap' == countsMap
  {
    if IsNoCall(gt) || !IsHet(gt) {
      return countsMap;
    }
    var alleles := gt.alleles;
    var counts := if alleles in countsMap then countsMap[alleles] else Counts(0, 0, 0);
    counts := counts.(allele1 := counts.allele1 + gt.ad[IndexOf(siteAlleles, alleles[0])]);
    counts := counts.(allele2 := counts.allele2 + gt.ad[IndexOf(siteAlleles, alleles[1])]);
    countsMap' := countsMap[alleles := counts];
  }

  /** The first loop: build the counters, visiting the genotypes in order. */
  method CountAlleles(ctx: Record) returns (countsMap: Counters)
    requires DepthsInRange(ctx.alleles, ctx.genotypes)
    ensures countsMap == Tally(ctx.alleles, ctx.genotypes)
  {
    var gts := ctx.genotypes;
    countsMap := map[];
    for i := 0 to |gts|
      invariant countsMap == Tally(ctx.alleles, gts[..i])
    {
      assert gts[..i + 1][..i] == gts[..i];
      assert gts[i] in gts;
      countsMap := CountGenotype(ctx.alleles, countsMap, gts[i]);
    }
    assert gts[..|gts|] == gts;
  }

  /** Some counter is unbalanced. */
  ghost predicate AnyUnbalanced(countsMap: Counters, hetAlleleBalance: real) {
    exists key :: key in countsMap && Unbalanced(countsMap[key], hetAlleleBalance)
  }

  /** The second loop: scan the counters, in no particular order, and stop
      at the first unbalanced one. */
  method ScanCounters(countsMap: Counters, hetAlleleBalance: real) returns (r: Option<string>)
    ensures r == Some(AlleleBalanceFilterName) <==> AnyUnbalanced(countsMap, hetAlleleBalance)
    ensures r == None <==> !AnyUnbalanced(countsMap, hetAlleleBalance)
  {
    var keys := countsMap.Keys;
    while keys != {}
      invariant keys <= countsMap.Keys
      invariant forall k :: k in countsMap && k !in keys ==> !Unbalanced(countsMap[k], hetAlleleBalance)
      decreases |keys|
    {
      var k :| k in keys;
      var counts := countsMap[k];
      var total := counts.allele1 + counts.allele2;
      if total > 0 && (Min(counts.allele1, counts.allele2) as real) / (total as real) < hetAlleleBalance {
        return Some(AlleleBalanceFilterName);
      }
      keys := keys - {k};
    }
    return None;
  }

  /** The filter: "AlleleBalance" when some het allele list is unbalanced,
      nothing otherwise. */
  method Filter(ctx: Record, hetAlleleBalance: real) returns (r: Option<string>)
    requires DepthsInRange(ctx.alleles, ctx.genotypes)
    ensures r == Some(AlleleBalanceFilterName) <==> Fails(ctx, hetAlleleBalance)
    ensures r == None <==> !Fails(ctx, hetAlleleBalance)
  {
    if HetCount(ctx.genotypes) == 0 {
      NoHetNoCounters(ctx.alleles, ctx.genotypes);
      return None;
    }
    var countsMap := CountAlleles(ctx);
    r := ScanCounters(countsMap, hetAlleleBalance);
  }
}
