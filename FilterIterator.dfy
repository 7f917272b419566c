/** The hard-filter pass: an iterator that hands out every record of the
    stream it wraps, after attaching the strings its site filters and its
    genotype filters produce. */
module FilterIterator {
  import opened VcfModel

  /** A site-level filter: a filter string when the record fails, else none. */
  type VariantFilter = Record -> Option<string>

  /** A genotype-level filter, asked about one genotype of a record. */
  type GenotypeFilter = (Record, Genotype) -> Option<string>

  const AllGtsFiltered: string := "AllGtsFiltered"

  const RemoveNotSupported: string := "remove() not supported by FilterApplyingVariantIterator."

  /** Per-sample lists of genotype filter results (a list map). */
  type FilterLists = map<string, seq<Option<string>>>

  // ---------------------------------------------------------------------
  // Site filters

  /** The strings the site filters return, absent results skipped. */
  function SiteFilters(ctx: Record, filters: seq<VariantFilter>): set<string>
  {
    if filters == [] then {}
    else
      var n := |filters| - 1;
      SiteFilters(ctx, filters[..n]) + (match filters[n](ctx) case Some(f) => {f} case None => {})
  }

  /** The site filter set holds exactly the strings some site filter
      returned. */
  lemma {:induction false} SiteFiltersFired(ctx: Record, filters: seq<VariantFilter>, x: string)
    ensures x in SiteFilters(ctx, filters) <==> exists i :: 0 <= i < |filters| && filters[i](ctx) == Some(x)
  {
    if filters != [] {
      var n := |filters| - 1;
      SiteFiltersFired(ctx, filters[..n], x);
      if exists i :: 0 <= i < n && filters[..n][i](ctx) == Some(x) {
        var i :| 0 <= i < n && filters[..n][i](ctx) == Some(x);
        assert filters[i](ctx) == Some(x);
      }
      if exists i :: 0 <= i < |filters| && filters[i](ctx) == Some(x) {
        var i :| 0 <= i < |filters| && filters[i](ctx) == Some(x);
        if i < n {
          assert filters[..n][i](ctx) == Some(x);
        }
      }
    }
  }

  // ---------------------------------------------------------------------
  // Genotype filters

  /** One result per genotype filter, in filter order, absent ones included. */
  function Results(ctx: Record, gt: Genotype, gtFilters: seq<GenotypeFilter>): (rs: seq<Option<string>>)
    ensures |rs| == |gtFilters|
    ensures forall j :: 0 <= j < |gtFilters| ==> rs[j] == gtFilters[j](ctx, gt)
  {
    seq(|gtFilters|, j requires 0 <= j < |gtFilters| => gtFilters[j](ctx, gt))
  }

  /** The list held for `key`, empty when there is none. */
  function Listed(m: FilterLists, key: string): seq<Option<string>> {
    if key in m then m[key] else []
  }

  /** Append one value to the list of `key`, creating the list if needed. */
  function ListMapAdd(m: FilterLists, key: string, v: Option<string>): (m': FilterLists)
    ensures m'.Keys == m.Keys + {key}
    ensures m'[key] == Listed(m, key) + [v]
    ensures forall k :: k in m && k != key ==> m'[k] == m[k]
  {
    m[key := Listed(m, key) + [v]]
  }

  /** `vs` appended to the list of `key`; nothing changes when `vs` is empty. */
  function Extend(m: FilterLists, key: string, vs: seq<Option<string>>): FilterLists {
    if vs == [] then m else m[key := Listed(m, key) + vs]
  }

  /** Adding the values one at a time is appending them all at once. */
  lemma ExtendStep(m: FilterLists, key: string, vs: seq<Option<string>>, v: Option<string>)
    ensures Extend(m, key, vs + [v]) == ListMapAdd(Extend(m, key, vs), key, v)
  {
    var m1 := Extend(m, key, vs);
    assert Listed(m1, key) == Listed(m, key) + vs;
    assert Listed(m, key) + (vs + [v]) == (Listed(m, key) + vs) + [v];
    assert Extend(m, key, vs + [v]) == m[key := Listed(m, key) + (vs + [v])];
  }

  lemma ExtendKeys(m: FilterLists, key: string, vs: seq<Option<string>>)
    ensures Extend(m, key, vs).Keys == if vs == [] then m.Keys else m.Keys + {key}
    ensures forall k :: k in m && k != key ==> Extend(m, key, vs)[k] == m[k]
  {
  }

  /** The genotype filter lists exactly as the code builds them: every
      genotype filter's result for every genotype, absent results included. */
  function CollectAsWritten(ctx: Record, gts: seq<Genotype>, gtFilters: seq<GenotypeFilter>): FilterLists
  {
    if gts == [] then map[]
    else
      var n := |gts| - 1;
      Extend(CollectAsWritten(ctx, gts[..n], gtFilters), gts[n].sample, Results(ctx, gts[n], gtFilters))
  }

  /** With at least one genotype filter every genotype's sample gets a list;
      with none, the map stays empty. */
  lemma {:induction false} CollectAsWrittenKeys(ctx: Record, gts: seq<Genotype>, gtFilters: seq<GenotypeFilter>)
    ensures CollectAsWritten(ctx, gts, gtFilters).Keys == if gtFilters == [] then {} else NamesOf(gts)
  {
    if gts != [] {
      var n := |gts| - 1;
      CollectAsWrittenKeys(ctx, gts[..n], gtFilters);
      assert gts == gts[..n] + [gts[n]];
      NamesOfAppend(gts[..n], gts[n]);
    }
  }

  /** With distinct sample names, each genotype's list holds one result per
      genotype filter, in filter order, absent results included. */
  lemma {:induction false} CollectAsWrittenLists(ctx: Record, gts: seq<Genotype>, gtFilters: seq<GenotypeFilter>, i: nat)
    requires DistinctNames(gts) && i < |gts| && gtFilters != []
    ensures gts[i].sample in CollectAsWritten(ctx, gts, gtFilters)
    ensures CollectAsWritten(ctx, gts, gtFilters)[gts[i].sample] == Results(ctx, gts[i], gtFilters)
  {
    var n := |gts| - 1;
    var prev := CollectAsWritten(ctx, gts[..n], gtFilters);
    var rs := Results(ctx, gts[n], gtFilters);
    assert CollectAsWritten(ctx, gts, gtFilters) == prev[gts[n].sample := Listed(prev, gts[n].sample) + rs];
    if i < n {
      assert DistinctNames(gts[..n]);
      CollectAsWrittenLists(ctx, gts[..n], gtFilters, i);
      assert gts[..n][i] == gts[i];
    } else {
      CollectAsWrittenKeys(ctx, gts[..n], gtFilters);
      assert gts[n].sample !in NamesOf(gts[..n]);
      assert Listed(prev, gts[n].sample) == [];
    }
  }

  // ---------------------------------------------------------------------
  // Rebuilding the record

  /** The genotype list after filtering: same length and order; a genotype
      whose sample has a non-empty list gets that list as its filters, every
      other genotype is kept as it is. */
  function Rebuilt(gts: seq<Genotype>, lists: FilterLists): (r: seq<Genotype>)
    ensures |r| == |gts|
  {
    if gts == [] then []
    else
      var n := |gts| - 1;
      var gt := gts[n];
      Rebuilt(gts[..n], lists) +
        [if gt.sample !in lists || lists[gt.sample] == [] then gt else gt.(filters := lists[gt.sample])]
  }

  lemma {:induction false} RebuiltAt(gts: seq<Genotype>, lists: FilterLists, i: nat)
    requires i < |gts|
    ensures var gt := gts[i];
            Rebuilt(gts, lists)[i] ==
              if gt.sample !in lists || lists[gt.sample] == [] then gt else gt.(filters := lists[gt.sample])
  {
    var n := |gts| - 1;
    if i < n {
      RebuiltAt(gts[..n], lists, i);
    }
  }

  /** The record handed out, given the site filter set and the per-sample
      lists: the record itself when both are empty; otherwise the site
      filters replace the record's when there are any, the genotypes are
      rebuilt when there are lists, and "AllGtsFiltered" is added when there
      are as many lists as genotypes. */
  function FilteredRecord(ctx: Record, siteFilters: set<string>, lists: FilterLists): Record
  {
    if siteFilters == {} && |lists| == 0 then ctx
    else
      var withSite := if siteFilters != {} then ctx.(filters := siteFilters) else ctx;
      if |lists| == 0 then withSite
      else
        var withGts := withSite.(genotypes := Rebuilt(ctx.genotypes, lists));
        if |lists| == |ctx.genotypes| then withGts.(filters := withGts.filters + {AllGtsFiltered})
        else withGts
  }

  /** The filters of the built record: the site filters when there are any,
      else the record's own, plus "AllGtsFiltered" when there are lists and
      as many of them as genotypes. */
  lemma FilteredRecordFilters(ctx: Record, siteFilters: set<string>, lists: FilterLists)
    ensures FilteredRecord(ctx, siteFilters, lists).filters ==
              (if siteFilters != {} then siteFilters else ctx.filters) +
              (if |lists| != 0 && |lists| == |ctx.genotypes| then {AllGtsFiltered} else {})
  {
  }

  /** What `next()` returns for record `ctx`, as the code is written.
      Filtering changes only the site filters and the genotypes: locus,
      identifier, alleles and attributes are those of the input record, and
      there is one genotype per input genotype. */
  function FilteredAsWritten(ctx: Record, filters: seq<VariantFilter>, gtFilters: seq<GenotypeFilter>): (r: Record)
    ensures r.contig == ctx.contig && r.pos == ctx.pos && r.id == ctx.id
    ensures r.alleles == ctx.alleles && r.info == ctx.info
    ensures |r.genotypes| == |ctx.genotypes|
  {
    FilteredRecord(ctx, SiteFilters(ctx, filters), CollectAsWritten(ctx, ctx.genotypes, gtFilters))
  }

  // ---------------------------------------------------------------------
  // The loops of `next()`

  /** The site filter strings: every non-absent site filter result. */
  method CollectSiteFilters(ctx: Record, filters: seq<VariantFilter>) returns (filterStrings: set<string>)
    ensures filterStrings == SiteFilters(ctx, filters)
  {
    filterStrings := {};
    for i := 0 to |filters|
      invariant filterStrings == SiteFilters(ctx, filters[..i])
    {
      assert filters[..i + 1][..i] == filters[..i];
      var val := filters[i](ctx);
      if val.Some? {
        filterStrings := filterStrings + {val.value};
      }
    }
    assert filters[..|filters|] == filters;
  }

  /** The inner loop: every genotype filter's result for `gt`, added one at
      a time to the list of its sample. */
  method AddGenotypeResults(ctx: Record, gt: Genotype, gtFilters: seq<GenotypeFilter>, lists: FilterLists)
    returns (lists': FilterLists)
    ensures lists' == Extend(lists, gt.sample, Results(ctx, gt, gtFilters))
  {
    lists' := lists;
    ghost var rs := Results(ctx, gt, gtFilters);
    for j := 0 to |gtFilters|
      invariant lists' == Extend(lists, gt.sample, rs[..j])
    {
      ExtendStep(lists, gt.sample, rs[..j], rs[j]);
      assert rs[..j + 1] == rs[..j] + [rs[j]];
      lists' := ListMapAdd(lists', gt.sample, gtFilters[j](ctx, gt));
    }
    assert rs[..|gtFilters|] == rs;
  }

  /** The per-sample lists: each genotype filter's result for each genotype,
      added under the genotype's sample name. */
  method CollectGenotypeFilters(ctx: Record, gtFilters: seq<GenotypeFilter>) returns (gtFilterStrings: FilterLists)
    ensures gtFilterStrings == CollectAsWritten(ctx, ctx.genotypes, gtFilters)
  {
    gtFilterStrings := map[];
    for i := 0 to |ctx.genotypes|
      invariant gtFilterStrings == CollectAsWritten(ctx, ctx.genotypes[..i], gtFilters)
    {
      assert ctx.genotypes[..i + 1][..i] == ctx.genotypes[..i];
      gtFilterStrings := AddGenotypeResults(ctx, ctx.genotypes[i], gtFilters, gtFilterStrings);
    }
    assert ctx.genotypes[..|ctx.genotypes|] == ctx.genotypes;
  }

  /** The new genotype list: a genotype whose sample has a non-empty list
      takes that list as its filters, every other one is kept. */
  method RebuildGenotypes(gts: seq<Genotype>, gtFilterStrings: FilterLists) returns (newGenotypes: seq<Genotype>)
    ensures newGenotypes == Rebuilt(gts, gtFilterStrings)
  {
    newGenotypes := [];
    for i := 0 to |gts|
      invariant newGenotypes == Rebuilt(gts[..i], gtFilterStrings)
    {
      assert gts[..i + 1][..i] == gts[..i];
      var gt := gts[i];
      if gt.sample !in gtFilterStrings || gtFilterStrings[gt.sample] == [] {
        newGenotypes := newGenotypes + [gt];
      } else {
        newGenotypes := newGenotypes + [gt.(filters := gtFilterStrings[gt.sample])];
      }
    }
    assert gts[..|gts|] == gts;
  }

  // ---------------------------------------------------------------------
  // The iterator

  class FilterApplyingVariantIterator {
    /** The records the wrapped iterator delivers, and how many of them it
        has delivered so far. */
    const source: seq<Record>
    var position: nat
    const filters: seq<VariantFilter>
    const gtFilters: seq<GenotypeFilter>

    ghost predicate Valid()
      reads this
    {
      position <= |source|
    }

    constructor (source: seq<Record>, filters: seq<VariantFilter>, gtFilters: seq<GenotypeFilter>)
      ensures Valid() && position == 0
      ensures this.source == source && this.filters == filters && this.gtFilters == gtFilters
    {
      this.source := source;
      this.position := 0;
      this.filters := filters;
      this.gtFilters := gtFilters;
    }

    /** Delegates to the wrapped iterator. */
    method HasNext() returns (b: bool)
      requires Valid()
      ensures b <==> position < |source|
    {
      b := position < |source|;
    }

    /** Always refused. */
    method Remove() returns (r: Result<(), string>)
      ensures r == Failure(RemoveNotSupported)
    {
      r := Failure(RemoveNotSupported);
    }

    /** The next record of the wrapped iterator with the filter strings
        applied. */
    method Next() returns (r: Record)
      requires Valid() && position < |source|
      modifies this
      ensures Valid() && position == old(position) + 1
      ensures r == FilteredAsWritten(source[old(position)], filters, gtFilters)
    {
      var ctx := source[position];
      position := position + 1;
      var filterStrings := CollectSiteFilters(ctx, filters);
      var gtFilterStrings := CollectGenotypeFilters(ctx, gtFilters);
      if filterStrings == {} && |gtFilterStrings| == 0 {
        return ctx;
      }
      r := ctx;
      if filterStrings != {} {
        r := r.(filters := filterStrings);
      }
      if |gtFilterStrings| != 0 {
        var newGenotypes := RebuildGenotypes(ctx.genotypes, gtFilterStrings);
        r := r.(genotypes := newGenotypes);
        if |gtFilterStrings| == |ctx.genotypes| {
          r := r.(filters := r.filters + {AllGtsFiltered});
        }
      }
    }
  }

  /** The caller's loop: read while there is a next record. Every record of
      the wrapped stream comes out, in order, none dropped. */
  method ReadAll(it: FilterApplyingVariantIterator) returns (out: seq<Record>)
    requires it.Valid() && it.position == 0
    modifies it
    ensures |out| == |it.source|
    ensures forall i :: 0 <= i < |out| ==> out[i] == FilteredAsWritten(it.source[i], it.filters, it.gtFilters)
  {
    out := [];
    var more := it.HasNext();
    while more
      invariant it.Valid() && |out| == it.position
      invariant more <==> it.position < |it.source|
      invariant forall i :: 0 <= i < |out| ==> out[i] == FilteredAsWritten(it.source[i], it.filters, it.gtFilters)
      decreases |it.source| - it.position
    {
      var r := it.Next();
      out := out + [r];
      more := it.HasNext();
    }
  }

  // ---------------------------------------------------------------------
  // Properties of the filtered record, as written

  /** With no genotype filters and no site filter firing, the record passes
      through untouched. */
  lemma NothingFiredPassesThrough(ctx: Record, filters: seq<VariantFilter>)
    requires forall i :: 0 <= i < |filters| ==> filters[i](ctx).None?
    ensures FilteredAsWritten(ctx, filters, []) == ctx
  {
    CollectAsWrittenKeys(ctx, ctx.genotypes, []);
    assert SiteFilters(ctx, filters) == {} by {
      forall x ensures x !in SiteFilters(ctx, filters) {
        SiteFiltersFired(ctx, filters, x);
      }
    }
  }

  /** The filters of the output: the fired site filters replace the record's
      own when there are any, and "AllGtsFiltered" is added when there is a
      genotype filter and as many distinct sample names as genotypes (at
      least one). */
  lemma FilteredAsWrittenFilters(ctx: Record, filters: seq<VariantFilter>, gtFilters: seq<GenotypeFilter>)
    ensures var fired := SiteFilters(ctx, filters);
            FilteredAsWritten(ctx, filters, gtFilters).filters ==
              (if fired != {} then fired else ctx.filters) +
              (if gtFilters != [] && ctx.genotypes != [] && |NamesOf(ctx.genotypes)| == |ctx.genotypes|
               then {AllGtsFiltered} else {})
  {
    var lists := CollectAsWritten(ctx, ctx.genotypes, gtFilters);
    CollectAsWrittenKeys(ctx, ctx.genotypes, gtFilters);
    FilteredRecordFilters(ctx, SiteFilters(ctx, filters), lists);
    assert |lists| == |lists.Keys|;
    if ctx.genotypes == [] {
      assert NamesOf(ctx.genotypes) == {};
    }
  }

  /** As written, "AllGtsFiltered" is added to every record that has
      genotypes with distinct sample names as soon as there is a genotype
      filter, whatever the filters return. */
  lemma AllGtsFilteredAsWritten(ctx: Record, filters: seq<VariantFilter>, gtFilters: seq<GenotypeFilter>)
    requires gtFilters != [] && ctx.genotypes != [] && DistinctNames(ctx.genotypes)
    ensures AllGtsFiltered in FilteredAsWritten(ctx, filters, gtFilters).filters
  {
    DistinctNamesCount(ctx.genotypes);
    FilteredAsWrittenFilters(ctx, filters, gtFilters);
  }

  /** The rebuilt genotype list, as written: same length and order; with
      distinct sample names and a genotype filter, every genotype's filters
      become exactly its list of results, absent results included. */
  lemma GenotypesGetTheirResults(ctx: Record, filters: seq<VariantFilter>, gtFilters: seq<GenotypeFilter>, i: nat)
    requires gtFilters != [] && DistinctNames(ctx.genotypes) && i < |ctx.genotypes|
    ensures var r := FilteredAsWritten(ctx, filters, gtFilters);
            |r.genotypes| == |ctx.genotypes| &&
            r.genotypes[i] == ctx.genotypes[i].(filters := Results(ctx, ctx.genotypes[i], gtFilters))
  {
    var lists := CollectAsWritten(ctx, ctx.genotypes, gtFilters);
    CollectAsWrittenLists(ctx, ctx.genotypes, gtFilters, i);
    RebuiltAt(ctx.genotypes, lists, i);
    assert |lists| > 0 by {
      assert ctx.genotypes[i].sample in lists.Keys;
    }
  }

  /** A site whose single genotype no filter objects to still comes out
      with "AllGtsFiltered" and a genotype filter list of one absent entry:
      the absent genotype filter results are recorded. */
  lemma AllGtsFilteredWithoutAnyFilterFiring(ctx: Record, gt: Genotype)
    requires ctx.genotypes == [gt]
    ensures var passAll: GenotypeFilter := (c, g) => None;
            var r := FilteredAsWritten(ctx, [], [passAll]);
            AllGtsFiltered in r.filters && r.genotypes == [gt.(filters := [None])]
  {
    var passAll: GenotypeFilter := (c, g) => None;
    assert DistinctNames(ctx.genotypes);
    AllGtsFilteredAsWritten(ctx, [], [passAll]);
    GenotypesGetTheirResults(ctx, [], [passAll], 0);
    assert Results(ctx, gt, [passAll]) == [None];
  }

  // ---------------------------------------------------------------------
  // The intended behaviour: only fired genotype filters are recorded

  /** Some genotype filter objects to `gt`. */
  ghost predicate AnyFires(ctx: Record, gt: Genotype, gtFilters: seq<GenotypeFilter>) {
    exists j :: 0 <= j < |gtFilters| && gtFilters[j](ctx, gt).Some?
  }

  /** The genotype filter strings that fired, in filter order. */
  function Fired(ctx: Record, gt: Genotype, gtFilters: seq<GenotypeFilter>): (fs: seq<Option<string>>)
    ensures fs != [] <==> AnyFires(ctx, gt, gtFilters)
  {
    if gtFilters == [] then []
    else
      var n := |gtFilters| - 1;
      var rest := Fired(ctx, gt, gtFilters[..n]);
      assert forall j :: 0 <= j < n ==> gtFilters[..n][j] == gtFilters[j];
      rest + (if gtFilters[n](ctx, gt).Some? then [gtFilters[n](ctx, gt)] else [])
  }

  /** The per-sample lists with the absent results left out. */
  function CollectFired(ctx: Record, gts: seq<Genotype>, gtFilters: seq<GenotypeFilter>): FilterLists
  {
    if gts == [] then map[]
    else
      var n := |gts| - 1;
      Extend(CollectFired(ctx, gts[..n], gtFilters), gts[n].sample, Fired(ctx, gts[n], gtFilters))
  }

  /** The sample names of the genotypes that had a filter fire. */
  function FiredNames(ctx: Record, gts: seq<Genotype>, gtFilters: seq<GenotypeFilter>): set<string> {
    if gts == [] then {}
    else
      var n := |gts| - 1;
      FiredNames(ctx, gts[..n], gtFilters) + (if Fired(ctx, gts[n], gtFilters) != [] then {gts[n].sample} else {})
  }

  /** A genotype with a fired filter puts its name in. */
  lemma {:induction false} FiredNameIn(ctx: Record, gts: seq<Genotype>, gtFilters: seq<GenotypeFilter>, i: nat)
    requires i < |gts| && Fired(ctx, gts[i], gtFilters) != []
    ensures gts[i].sample in FiredNames(ctx, gts, gtFilters)
  {
    var n := |gts| - 1;
    if i < n {
      assert gts[..n][i] == gts[i];
      FiredNameIn(ctx, gts[..n], gtFilters, i);
    }
  }

  /** Every name in comes from a genotype with a fired filter. */
  lemma {:induction false} FiredNameWitness(ctx: Record, gts: seq<Genotype>, gtFilters: seq<GenotypeFilter>, s: string)
    returns (i: nat)
    requires s in FiredNames(ctx, gts, gtFilters)
    ensures i < |gts| && gts[i].sample == s && Fired(ctx, gts[i], gtFilters) != []
  {
    var n := |gts| - 1;
    if s in FiredNames(ctx, gts[..n], gtFilters) {
      i := FiredNameWitness(ctx, gts[..n], gtFilters, s);
      assert gts[..n][i] == gts[i];
    } else {
      i := n;
    }
  }

  lemma FiredNamesMembers(ctx: Record, gts: seq<Genotype>, gtFilters: seq<GenotypeFilter>, s: string)
    ensures s in FiredNames(ctx, gts, gtFilters) <==>
              exists i :: 0 <= i < |gts| && gts[i].sample == s && Fired(ctx, gts[i], gtFilters) != []
  {
    if s in FiredNames(ctx, gts, gtFilters) {
      var i := FiredNameWitness(ctx, gts, gtFilters, s);
    }
    forall i | 0 <= i < |gts| && gts[i].sample == s && Fired(ctx, gts[i], gtFilters) != []
      ensures s in FiredNames(ctx, gts, gtFilters)
    {
      FiredNameIn(ctx, gts, gtFilters, i);
    }
  }

  /** A sample gets a list exactly when one of its genotypes had a filter
      fire. */
  lemma {:induction false} CollectFiredKeys(ctx: Record, gts: seq<Genotype>, gtFilters: seq<GenotypeFilter>, s: string)
    ensures s in CollectFired(ctx, gts, gtFilters) <==>
              exists i :: 0 <= i < |gts| && gts[i].sample == s && Fired(ctx, gts[i], gtFilters) != []
  {
    CollectFiredNames(ctx, gts, gtFilters);
    FiredNamesMembers(ctx, gts, gtFilters, s);
  }

  lemma {:induction false} CollectFiredNames(ctx: Record, gts: seq<Genotype>, gtFilters: seq<GenotypeFilter>)
    ensures CollectFired(ctx, gts, gtFilters).Keys == FiredNames(ctx, gts, gtFilters)
  {
    if gts != [] {
      var n := |gts| - 1;
      CollectFiredNames(ctx, gts[..n], gtFilters);
      ExtendKeys(CollectFired(ctx, gts[..n], gtFilters), gts[n].sample, Fired(ctx, gts[n], gtFilters));
    }
  }

  /** With distinct sample names, the samples with a list are all of them
      exactly when every genotype had a filter fire. */
  lemma CollectFiredCoversAll(ctx: Record, gts: seq<Genotype>, gtFilters: seq<GenotypeFilter>)
    requires DistinctNames(gts)
    ensures CollectFired(ctx, gts, gtFilters).Keys <= NamesOf(gts)
    ensures CollectFired(ctx, gts, gtFilters).Keys == NamesOf(gts) <==>
              forall i :: 0 <= i < |gts| ==> Fired(ctx, gts[i], gtFilters) != []
  {
    var keys := CollectFired(ctx, gts, gtFilters).Keys;
    forall s | s in keys ensures s in NamesOf(gts) {
      CollectFiredKeys(ctx, gts, gtFilters, s);
    }
    if forall i :: 0 <= i < |gts| ==> Fired(ctx, gts[i], gtFilters) != [] {
      forall s | s in NamesOf(gts) ensures s in keys {
        CollectFiredKeys(ctx, gts, gtFilters, s);
      }
    }
    if keys == NamesOf(gts) {
      forall i | 0 <= i < |gts| ensures Fired(ctx, gts[i], gtFilters) != [] {
        CollectFiredKeys(ctx, gts, gtFilters, gts[i].sample);
        var k :| 0 <= k < |gts| && gts[k].sample == gts[i].sample && Fired(ctx, gts[k], gtFilters) != [];
        assert k == i;
      }
    }
  }

  /** A proper subset is smaller. */
  lemma ProperSubsetSmaller<T>(a: set<T>, b: set<T>)
    requires a < b
    ensures |a| < |b|
  {
    assert !(b <= a);
    var x :| x in b && x !in a;
    assert b == (b - a) + a;
    assert |b| == |b - a| + |a|;
  }

  /** What `next()` returns once absent genotype filter results are skipped,
      as the site filters already are. */
  function Filtered(ctx: Record, filters: seq<VariantFilter>, gtFilters: seq<GenotypeFilter>): (r: Record)
    ensures r.contig == ctx.contig && r.pos == ctx.pos && r.id == ctx.id
    ensures r.alleles == ctx.alleles && r.info == ctx.info
    ensures |r.genotypes| == |ctx.genotypes|
  {
    FilteredRecord(ctx, SiteFilters(ctx, filters), CollectFired(ctx, ctx.genotypes, gtFilters))
  }

  /** With absent results skipped, "AllGtsFiltered" is added (to a record
      that does not already carry it, with distinct sample names) exactly
      when every genotype had a genotype filter fire. */
  lemma FilteredFlagsOnlyFilteredGenotypes(ctx: Record, filters: seq<VariantFilter>, gtFilters: seq<GenotypeFilter>)
    requires DistinctNames(ctx.genotypes) && ctx.genotypes != []
    requires AllGtsFiltered !in ctx.filters
    requires forall i :: 0 <= i < |filters| ==> filters[i](ctx) != Some(AllGtsFiltered)
    ensures AllGtsFiltered in Filtered(ctx, filters, gtFilters).filters <==>
              forall i :: 0 <= i < |ctx.genotypes| ==> Fired(ctx, ctx.genotypes[i], gtFilters) != []
  {
    var gts := ctx.genotypes;
    var lists := CollectFired(ctx, gts, gtFilters);
    SiteFiltersFired(ctx, filters, AllGtsFiltered);
    CollectFiredCoversAll(ctx, gts, gtFilters);
    DistinctNamesCount(gts);
    assert |lists| == |lists.Keys|;
    if lists.Keys != NamesOf(gts) {
      ProperSubsetSmaller(lists.Keys, NamesOf(gts));
    }
  }

  /** With absent results skipped, a record on which no filter fires comes
      out unchanged. */
  lemma NothingFiredUnchanged(ctx: Record, filters: seq<VariantFilter>, gtFilters: seq<GenotypeFilter>)
    requires forall i :: 0 <= i < |filters| ==> filters[i](ctx).None?
    requires forall i, j :: 0 <= i < |ctx.genotypes| && 0 <= j < |gtFilters| ==> gtFilters[j](ctx, ctx.genotypes[i]).None?
    ensures Filtered(ctx, filters, gtFilters) == ctx
  {
    assert SiteFilters(ctx, filters) == {} by {
      forall x ensures x !in SiteFilters(ctx, filters) {
        SiteFiltersFired(ctx, filters, x);
      }
    }
    var lists := CollectFired(ctx, ctx.genotypes, gtFilters);
    assert lists == map[] by {
      forall s ensures s !in lists {
        CollectFiredKeys(ctx, ctx.genotypes, gtFilters, s);
      }
    }
  }

  /** Skipping absent results changes nothing for a genotype whose filters
      all fire: its list is the same either way. */
  lemma FiredWhenAllFire(ctx: Record, gt: Genotype, gtFilters: seq<GenotypeFilter>)
    requires forall j :: 0 <= j < |gtFilters| ==> gtFilters[j](ctx, gt).Some?
    ensures Fired(ctx, gt, gtFilters) == Results(ctx, gt, gtFilters)
  {
    if gtFilters != [] {
      var n := |gtFilters| - 1;
      FiredWhenAllFire(ctx, gt, gtFilters[..n]);
      assert Results(ctx, gt, gtFilters) == Results(ctx, gt, gtFilters[..n]) + [gtFilters[n](ctx, gt)];
    }
  }
}
