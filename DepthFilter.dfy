/** The per-genotype depth filter: a genotype that is not hom-ref fails when
    its depth is below the threshold for its site kind (SNP or not) and its
    zygosity (het or not). */
module DepthFilters {
  import opened VcfModel

  const LowDP: string := "LowDP"

  /** The four thresholds, fixed when the filter is built. */
  datatype DepthFilter = DepthFilter(minHetSnp: int, minHomSnp: int, minHetIndel: int, minHomIndel: int)
  {
    /** The filter string for `gt` at site `ctx`, or none when it passes. */
    function Filter(ctx: Record, gt: Genotype): (r: Option<string>)
      ensures r.Some? ==> r.value == LowDP
    {
      var (minHet, minHom) :=
        if IsSnp(ctx) then (minHetSnp, minHomSnp) else (minHetIndel, minHomIndel);
      if !IsHomRef(gt) && gt.dp < (if IsHet(gt) then minHet else minHom) then Some(LowDP)
      else None
    }
  }

  /** The threshold table, one entry per (site kind, zygosity) pair. */
  function RequiredDepth(f: DepthFilter, snp: bool, het: bool): int {
    match (snp, het)
    case (true, true) => f.minHetSnp
    case (true, false) => f.minHomSnp
    case (false, true) => f.minHetIndel
    case (false, false) => f.minHomIndel
  }

  /** A hom-ref genotype always passes, whatever its depth. */
  lemma HomRefNeverFiltered(f: DepthFilter, ctx: Record, gt: Genotype)
    requires IsHomRef(gt)
    ensures f.Filter(ctx, gt) == None
  {
  }

  /** The filter fires exactly when the genotype is not hom-ref and its depth
      is below the table entry for the site's kind and the genotype's
      zygosity; otherwise it returns nothing. */
  lemma LowDepthIff(f: DepthFilter, ctx: Record, gt: Genotype)
    ensures f.Filter(ctx, gt) == Some(LowDP) <==>
              !IsHomRef(gt) && gt.dp < RequiredDepth(f, IsSnp(ctx), IsHet(gt))
    ensures f.Filter(ctx, gt) == None <==>
              IsHomRef(gt) || gt.dp >= RequiredDepth(f, IsSnp(ctx), IsHet(gt))
  {
  }

  /** The SNP thresholds never apply to a site that is not a SNP, and the
      indel thresholds never to one that is. */
  lemma ThresholdsBySiteKind(f: DepthFilter, g: DepthFilter, ctx: Record, gt: Genotype)
    requires IsSnp(ctx) ==> f.minHetSnp == g.minHetSnp && f.minHomSnp == g.minHomSnp
    requires !IsSnp(ctx) ==> f.minHetIndel == g.minHetIndel && f.minHomIndel == g.minHomIndel
    ensures f.Filter(ctx, gt) == g.Filter(ctx, gt)
  {
  }

  /** More depth never turns a passing genotype into a failing one. */
  lemma MonotoneInDepth(f: DepthFilter, ctx: Record, gt: Genotype, dp: int)
    requires gt.dp <= dp && f.Filter(ctx, gt) == None
    ensures f.Filter(ctx, gt.(dp := dp)) == None
  {
  }

  /** A genotype with no depth (reported as -1) fails whenever it is not
      hom-ref and its threshold is positive. */
  lemma MissingDepthFails(f: DepthFilter, ctx: Record, gt: Genotype)
    requires gt.dp == -1 && !IsHomRef(gt) && RequiredDepth(f, IsSnp(ctx), IsHet(gt)) > 0
    ensures f.Filter(ctx, gt) == Some(LowDP)
  {
  }
}
