/** Values shared by the merge and the filters: alleles, genotypes, variant
    records and the locus comparator. Everything here is an immutable value, as
    the variant-format reader hands them over. */
module VcfModel {

  datatype Option<+T> = None | Some(value: T)

  datatype Result<+T, +E> = Success(value: T) | Failure(error: E)

  /** An allele as carried by a genotype or a record: the no-call allele `.`,
      or called bases, flagged when they are the reference allele. */
  datatype Allele = NoCall | Called(bases: string, isReference: bool)

  /** A sample's call. `dp` is -1 when the record has no depth, `ad` is empty
      when it has no allele depths, and `filters` is the raw list of filter
      strings a genotype filter pass attached (an absent string is `None`). */
  datatype Genotype = Genotype(
    sample: string,
    alleles: seq<Allele>,
    dp: int,
    ad: seq<int>,
    filters: seq<Option<string>>)

  /** A variant record. `contig` is the rank of the record's contig in the
      resolved contig dictionary; `pos` is its 1-based start. */
  datatype Record = Record(
    contig: nat,
    pos: int,
    id: string,
    alleles: seq<Allele>,
    filters: set<string>,
    info: map<string, string>,
    genotypes: seq<Genotype>)

  /** The diploid no-call genotype synthesised for a sample that no record of
      a locus reports. */
  function MissingGenotype(sample: string): (g: Genotype)
    ensures g.sample == sample && |g.alleles| == 2
    ensures forall a :: a in g.alleles ==> a == NoCall
    ensures g.filters == [] && g.ad == []
  {
    Genotype(sample, [NoCall, NoCall], -1, [], [])
  }

  // ---------------------------------------------------------------------
  // Locus order

  /** The record comparator: contig rank first, then start position. Only the
      sign of the result is meaningful. */
  function Compare(a: Record, b: Record): (c: int)
    ensures c < 0 <==> a.contig < b.contig || (a.contig == b.contig && a.pos < b.pos)
    ensures c == 0 <==> a.contig == b.contig && a.pos == b.pos
    ensures -1 <= c <= 1
  {
    if a.contig < b.contig then -1
    else if a.contig > b.contig then 1
    else if a.pos < b.pos then -1
    else if a.pos > b.pos then 1
    else 0
  }

  /** `a` is at or before `b` under the comparator. */
  predicate AtOrBefore(a: Record, b: Record) {
    Compare(a, b) <= 0
  }

  /** A record stream is sorted when no record precedes an earlier one. */
  ghost predicate Sorted(s: seq<Record>) {
    forall i, j :: 0 <= i < j < |s| ==> AtOrBefore(s[i], s[j])
  }

  // ---------------------------------------------------------------------
  // Genotype classification, as the genotype library determines it

  datatype GenotypeType = Unavailable | NoCallType | Mixed | HomRef | HomVar | Het

  /** Every element of `s` is `x`. */
  predicate AllEqual(s: seq<Allele>, x: Allele) {
    s == [] || (s[0] == x && AllEqual(s[1..], x))
  }

  lemma {:induction false} AllEqualMeans(s: seq<Allele>, x: Allele)
    ensures AllEqual(s, x) <==> forall a :: a in s ==> a == x
  {
    if s != [] {
      AllEqualMeans(s[1..], x);
      if AllEqual(s, x) {
        forall a | a in s ensures a == x {
          var i :| 0 <= i < |s| && s[i] == a;
          if i > 0 {
            assert s[1..][i - 1] == a;
            assert a in s[1..];
          }
        }
      } else if s[0] != x {
        assert s[0] in s;
      } else {
        var a :| a in s[1..] && a != x;
        var i :| 0 <= i < |s| - 1 && s[1..][i] == a;
        assert s[i + 1] == a;
        assert a in s;
      }
    }
  }

  /** The genotype type: no alleles is unavailable; any no-call makes it
      no-call (all no-calls) or mixed; otherwise two different called alleles
      make it het, and a single repeated allele is hom-ref or hom-var. */
  function TypeOf(alleles: seq<Allele>): GenotypeType {
    if alleles == [] then Unavailable
    else if NoCall in alleles then (if AllEqual(alleles, NoCall) then NoCallType else Mixed)
    else if !AllEqual(alleles, alleles[0]) then Het
    else if alleles[0].isReference then HomRef
    else HomVar
  }

  /** The genotype types spelled out over the allele list. */
  lemma TypeOfCases(alleles: seq<Allele>)
    ensures TypeOf(alleles) == Unavailable <==> alleles == []
    ensures TypeOf(alleles) == NoCallType <==> alleles != [] && forall a :: a in alleles ==> a == NoCall
    ensures TypeOf(alleles) == Het <==> NoCall !in alleles && exists a :: a in alleles && a != alleles[0]
    ensures TypeOf(alleles) == HomRef <==> alleles != [] && alleles[0].Called? && alleles[0].isReference
                                           && forall a :: a in alleles ==> a == alleles[0]
  {
    if alleles != [] {
      assert alleles[0] in alleles;
      AllEqualMeans(alleles, NoCall);
      AllEqualMeans(alleles, alleles[0]);
    }
  }

  predicate IsHet(g: Genotype) { TypeOf(g.alleles) == Het }

  predicate IsHomRef(g: Genotype) { TypeOf(g.alleles) == HomRef }

  predicate IsNoCall(g: Genotype) { TypeOf(g.alleles) == NoCallType }

  /** A het genotype has at least two alleles and no no-call among them. */
  lemma HetHasTwoCalledAlleles(g: Genotype)
    requires IsHet(g)
    ensures |g.alleles| >= 2 && g.alleles[0].Called? && g.alleles[1].Called?
    ensures !IsNoCall(g) && !IsHomRef(g)
  {
    TypeOfCases(g.alleles);
    var a :| a in g.alleles && a != g.alleles[0];
    assert |g.alleles| >= 2;
    assert g.alleles[0] in g.alleles && g.alleles[1] in g.alleles;
  }

  /** A site is a SNP when it has an alternate allele and every allele is a
      single called base. */
  predicate IsSnp(r: Record) {
    |r.alleles| >= 2 && forall a :: a in r.alleles ==> a.Called? && |a.bases| == 1
  }

  // ---------------------------------------------------------------------
  // Lookups

  /** The genotype a record holds for `sample`, if any (the first one). */
  function GenotypeOf(r: Record, sample: string): (g: Option<Genotype>)
    ensures g.Some? ==> g.value in r.genotypes && g.value.sample == sample
    ensures g.None? <==> forall x :: x in r.genotypes ==> x.sample != sample
  {
    FindSample(r.genotypes, sample)
  }

  function FindSample(gts: seq<Genotype>, sample: string): (g: Option<Genotype>)
    ensures g.Some? ==> g.value in gts && g.value.sample == sample
    ensures g.None? <==> forall x :: x in gts ==> x.sample != sample
  {
    if gts == [] then None
    else if gts[0].sample == sample then Some(gts[0])
    else FindSample(gts[1..], sample)
  }

  /** Index of the first occurrence of `x` in `s`, or -1 (`List.indexOf`). */
  function IndexOf<T(==)>(s: seq<T>, x: T): (i: int)
    ensures -1 <= i < |s|
    ensures i == -1 <==> x !in s
    ensures 0 <= i ==> s[i] == x && x !in s[..i]
  {
    if s == [] then -1
    else if s[0] == x then 0
    else
      var j := IndexOf(s[1..], x);
      if j == -1 then -1
      else
        assert s[..j + 1] == [s[0]] + s[1..][..j];
        j + 1
  }

  // ---------------------------------------------------------------------
  // Sample names of a genotype list

  /** The sample names a genotype list carries. */
  function NamesOf(gts: seq<Genotype>): (s: set<string>)
    ensures forall x :: x in s <==> exists j :: 0 <= j < |gts| && gts[j].sample == x
  {
    set j | 0 <= j < |gts| :: gts[j].sample
  }

  /** No two genotypes of the list are for the same sample. */
  ghost predicate DistinctNames(gts: seq<Genotype>) {
    forall j, k :: 0 <= j < k < |gts| ==> gts[j].sample != gts[k].sample
  }

  lemma NamesOfAppend(gts: seq<Genotype>, g: Genotype)
    ensures NamesOf(gts + [g]) == NamesOf(gts) + {g.sample}
  {
    var s := gts + [g];
    forall x ensures x in NamesOf(s) <==> x in NamesOf(gts) + {g.sample} {
      if x in NamesOf(s) {
        var j :| 0 <= j < |s| && s[j].sample == x;
        if j < |gts| { assert gts[j].sample == x; }
      }
      if x in NamesOf(gts) {
        var j :| 0 <= j < |gts| && gts[j].sample == x;
        assert s[j].sample == x;
      }
      if x == g.sample {
        assert s[|gts|].sample == x;
      }
    }
  }

  lemma {:induction false} DistinctNamesCount(gts: seq<Genotype>)
    requires DistinctNames(gts)
    ensures |NamesOf(gts)| == |gts|
  {
    if gts != [] {
      var n := |gts| - 1;
      var init := gts[..n];
      assert DistinctNames(init);
      DistinctNamesCount(init);
      assert gts == init + [gts[n]];
      NamesOfAppend(init, gts[n]);
      assert gts[n].sample !in NamesOf(init);
    }
  }
}
