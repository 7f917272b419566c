/** The multi-file merge: a header pass that fixes the contig order and
    collects the sample registry, then a loop that keeps one buffered record
    per input, emits the minimal locus with one genotype per registry sample,
    and advances the inputs it consumed. */
module MungeVcfs {
  import opened VcfModel

  // =====================================================================
  // Header pass

  /** What the reader reports of one input file's header. */
  datatype Header = Header(path: string, contigs: seq<string>, samples: seq<string>)

  datatype MungeError =
    | MissingDictionary                 // no contig lines and no dictionary known yet
    | IncompatibleContigs(path: string) // contig lines clash with the first file's
    | IndexCreationFailed               // index requested but no dictionary at all

  /** The outcome of the header pass: the contig list the record comparator
      was built from, the sequence dictionary, and the sample registry. */
  datatype HeaderScan = HeaderScan(
    comparator: Option<seq<string>>,
    dictionary: Option<seq<string>>,
    sampleSet: set<string>)

  /** The comparator's compatibility test against a file's contig lines: it
      belongs to the variant library and is taken as a parameter. The first
      argument is the comparator's contig list, the second the file's. */
  type Compatibility = (seq<string>, seq<string>) -> bool

  function SampleNames(samples: seq<string>): (s: set<string>)
    ensures forall x :: x in s <==> x in samples
  {
    set x | x in samples
  }

  /** The union of the sample names of all headers. */
  function SamplesOf(headers: seq<Header>): (s: set<string>)
  {
    if headers == [] then {}
    else SamplesOf(headers[..|headers| - 1]) + SampleNames(headers[|headers| - 1].samples)
  }

  /** The registry holds exactly the names some header lists. */
  lemma {:induction false} SamplesOfIsUnion(headers: seq<Header>, x: string)
    ensures x in SamplesOf(headers) <==> exists i :: 0 <= i < |headers| && x in headers[i].samples
  {
    if headers != [] {
      var n := |headers| - 1;
      SamplesOfIsUnion(headers[..n], x);
      if x in SamplesOf(headers[..n]) {
        var i :| 0 <= i < n && x in headers[..n][i].samples;
        assert x in headers[i].samples;
      }
      if exists i :: 0 <= i < |headers| && x in headers[i].samples {
        var i :| 0 <= i < |headers| && x in headers[i].samples;
        if i < n {
          assert x in headers[..n][i].samples;
        }
      }
    }
  }

  /** The dictionary known when the file at index `i` is read: the explicit
      one, else the first file's contig lines once that file is read. */
  function DictionaryAt(headers: seq<Header>, explicitDict: Option<seq<string>>, i: nat): Option<seq<string>>
  {
    if explicitDict.Some? then explicitDict
    else if i == 0 || |headers| == 0 then None
    else Some(headers[0].contigs)
  }

  /** The contig lines of file `i` after a missing list is filled from the
      dictionary. */
  function EffectiveContigs(headers: seq<Header>, explicitDict: Option<seq<string>>, i: nat): seq<string>
    requires i < |headers|
  {
    if headers[i].contigs != [] then headers[i].contigs
    else match DictionaryAt(headers, explicitDict, i)
      case Some(d) => d
      case None => []
  }

  /** No contig order can be fixed: no dictionary was given and the first
      file has no contig lines. Any later file without contig lines is filled
      from the first file's, so only the first can fail this way. */
  ghost predicate MissesDictionary(headers: seq<Header>, explicitDict: Option<seq<string>>) {
    explicitDict.None? && |headers| > 0 && headers[0].contigs == []
  }

  /** File `i` is the first whose contig lines the comparator (built from the
      first file) rejects. */
  ghost predicate FirstIncompatibleAt(headers: seq<Header>, explicitDict: Option<seq<string>>,
                                      isCompatible: Compatibility, i: int)
  {
    0 < i < |headers| &&
    !isCompatible(EffectiveContigs(headers, explicitDict, 0), EffectiveContigs(headers, explicitDict, i)) &&
    forall j :: 0 < j < i ==>
      isCompatible(EffectiveContigs(headers, explicitDict, 0), EffectiveContigs(headers, explicitDict, j))
  }

  /** Every header is accepted: neither error of the loop fires, and an index
      can be written. */
  ghost predicate HeadersAccepted(headers: seq<Header>, explicitDict: Option<seq<string>>,
                                  createIndex: bool, isCompatible: Compatibility)
  {
    !MissesDictionary(headers, explicitDict) &&
    (forall i :: !FirstIncompatibleAt(headers, explicitDict, isCompatible, i)) &&
    !(createIndex && explicitDict.None? && |headers| == 0)
  }

  /** The header pass of the merge. Each file's missing contig lines are
      filled from the dictionary (or the run fails); the comparator comes from
      the first file and every later file must be compatible with it; the
      dictionary is the explicit one or the first file's; the registry is the
      union of all sample names. */
  method ScanHeaders(headers: seq<Header>, explicitDict: Option<seq<string>>,
                     createIndex: bool, isCompatible: Compatibility)
    returns (r: Result<HeaderScan, MungeError>)
    ensures r == Failure(MissingDictionary) <==> MissesDictionary(headers, explicitDict)
    ensures (r.Failure? && r.error.IncompatibleContigs?) <==>
              !MissesDictionary(headers, explicitDict) &&
              exists i :: FirstIncompatibleAt(headers, explicitDict, isCompatible, i)
    ensures forall i :: FirstIncompatibleAt(headers, explicitDict, isCompatible, i) &&
                        !MissesDictionary(headers, explicitDict) ==>
              r == Failure(IncompatibleContigs(headers[i].path))
    ensures r == Failure(IndexCreationFailed) <==> createIndex && explicitDict.None? && |headers| == 0
    ensures r.Success? <==> HeadersAccepted(headers, explicitDict, createIndex, isCompatible)
    ensures r.Success? ==>
              r.value.sampleSet == SamplesOf(headers) &&
              r.value.comparator == (if |headers| == 0 then None
                                     else Some(EffectiveContigs(headers, explicitDict, 0))) &&
              r.value.dictionary == (if explicitDict.Some? || |headers| == 0 then explicitDict
                                     else Some(headers[0].contigs))
  {
    var comparator: Option<seq<string>> := None;
    var dictionary := explicitDict;
    var sampleSet: set<string> := {};
    var i := 0;
    while i < |headers|
      invariant 0 <= i <= |headers|
      invariant dictionary == DictionaryAt(headers, explicitDict, i)
      invariant comparator == if i == 0 then None else Some(EffectiveContigs(headers, explicitDict, 0))
      invariant i > 0 ==> !MissesDictionary(headers, explicitDict)
      invariant forall j :: 0 < j < i ==>
                  isCompatible(EffectiveContigs(headers, explicitDict, 0), EffectiveContigs(headers, explicitDict, j))
      invariant sampleSet == SamplesOf(headers[..i])
    {
      var header := headers[i];
      var contigs := header.contigs;
      if contigs == [] {
        if dictionary.None? {
          return Failure(MissingDictionary);
        }
        contigs := dictionary.value;
      }
      assert contigs == EffectiveContigs(headers, explicitDict, i);
      if comparator.None? {
        comparator := Some(contigs);
      } else if !isCompatible(comparator.value, contigs) {
        assert FirstIncompatibleAt(headers, explicitDict, isCompatible, i);
        return Failure(IncompatibleContigs(header.path));
      }
      if dictionary.None? {
        dictionary := Some(contigs);
      }
      sampleSet := sampleSet + SampleNames(header.samples);
      assert headers[..i + 1][..i] == headers[..i];
      i := i + 1;
    }
    assert headers[..i] == headers;
    if createIndex && dictionary.None? {
      return Failure(IndexCreationFailed);
    }
    r := Success(HeaderScan(comparator, dictionary, sampleSet));
  }

  // =====================================================================
  // The buffer of current records

  /** What input stream `input` offers at read position `k`: its record, or
      the exhausted marker once every record has been read. */
  function At(input: seq<Record>, k: nat): (c: Option<Record>)
    ensures c.Some? <==> k < |input|
  {
    if k < |input| then Some(input[k]) else None
  }

  /** One read position per input, none past its end. */
  ghost predicate ValidCursors(inputs: seq<seq<Record>>, ks: seq<nat>) {
    |ks| == |inputs| && forall i :: 0 <= i < |ks| ==> ks[i] <= |inputs[i]|
  }

  /** The buffered current record of every input. */
  function Buffer(inputs: seq<seq<Record>>, ks: seq<nat>): (buf: seq<Option<Record>>)
    requires |ks| == |inputs|
    ensures |buf| == |inputs|
    ensures forall i :: 0 <= i < |buf| ==> buf[i] == At(inputs[i], ks[i])
  {
    seq(|inputs|, i requires 0 <= i < |inputs| => At(inputs[i], ks[i]))
  }

  function Zeros(n: nat): (ks: seq<nat>)
    ensures |ks| == n && forall i :: 0 <= i < n ==> ks[i] == 0
  {
    seq(n, _ => 0)
  }

  /** The buffer before the loop, one slot per input: its first record, or
      the exhausted marker for an input that has none. */
  function InitialBuffer(inputs: seq<seq<Record>>): (buf: seq<Option<Record>>)
    ensures |buf| == |inputs|
    ensures forall i :: 0 <= i < |inputs| ==>
              (buf[i].None? <==> inputs[i] == []) &&
              (inputs[i] != [] ==> buf[i] == Some(inputs[i][0]))
  {
    Buffer(inputs, Zeros(|inputs|))
  }

  /** The buffer as the code fills it: only inputs that have a record get an
      entry, so the entries shift left past every empty input. */
  function InitialBufferAsWritten(inputs: seq<seq<Record>>): (buf: seq<Record>)
    ensures |buf| <= |inputs|
  {
    if inputs == [] then []
    else
      var n := |inputs| - 1;
      InitialBufferAsWritten(inputs[..n]) + (if inputs[n] != [] then [inputs[n][0]] else [])
  }

  /** With an empty first input, the only buffered record belongs to the
      second input but sits in slot 0, and the buffer has one slot for two
      inputs, so the advance loop reads past its end. */
  lemma EmptyInputShiftsBuffer(r: Record)
    ensures var inputs := [[], [r]];
            |InitialBufferAsWritten(inputs)| == 1 < |inputs| &&
            InitialBufferAsWritten(inputs)[0] == r && At(inputs[0], 0) == None
  {
    var inputs: seq<seq<Record>> := [[], [r]];
    assert inputs[..1] == [[]];
    assert inputs[..1][..0] == [];
  }

  /** Where no input is empty, the buffer as filled holds the same records,
      slot for slot, as the corrected one. */
  lemma {:induction false} InitialBufferAsWrittenAgrees(inputs: seq<seq<Record>>)
    requires forall i :: 0 <= i < |inputs| ==> inputs[i] != []
    ensures |InitialBufferAsWritten(inputs)| == |inputs|
    ensures forall i :: 0 <= i < |inputs| ==> InitialBuffer(inputs)[i] == Some(InitialBufferAsWritten(inputs)[i])
  {
    if inputs != [] {
      var n := |inputs| - 1;
      InitialBufferAsWrittenAgrees(inputs[..n]);
      assert forall i :: 0 <= i < n ==> InitialBufferAsWritten(inputs)[i] == InitialBufferAsWritten(inputs[..n])[i];
    }
  }

  /** Every input is exhausted. */
  ghost predicate AllExhausted(buf: seq<Option<Record>>) {
    forall i :: 0 <= i < |buf| ==> buf[i].None?
  }

  /** The loop guard: true exactly when every buffered entry is the exhausted
      marker. */
  method AllItemsAreNull(items: seq<Option<Record>>) returns (b: bool)
    ensures b <==> AllExhausted(items)
  {
    for i := 0 to |items|
      invariant forall j :: 0 <= j < i ==> items[j].None?
    {
      if items[i].Some? {
        return false;
      }
    }
    return true;
  }

  // ---------------------------------------------------------------------
  // Selecting the minimal record

  /** Entry `i` holds the minimal record, and every earlier non-exhausted
      entry is strictly later: `i` is the leftmost minimum. */
  ghost predicate LeftmostMinimumAt(buf: seq<Option<Record>>, i: int) {
    0 <= i < |buf| && buf[i].Some? &&
    (forall j :: 0 <= j < |buf| && buf[j].Some? ==> AtOrBefore(buf[i].value, buf[j].value)) &&
    (forall j :: 0 <= j < i && buf[j].Some? ==> !AtOrBefore(buf[j].value, buf[i].value))
  }

  /** `first` is what the selection must return: nothing when all inputs
      are exhausted, otherwise the record of the leftmost minimum. */
  ghost predicate IsFirst(buf: seq<Option<Record>>, first: Option<Record>) {
    (first.None? <==> AllExhausted(buf)) &&
    (first.Some? ==> exists i :: LeftmostMinimumAt(buf, i) && buf[i] == first)
  }

  /** The selection scan, left to right, skipping exhausted entries; a later
      record replaces the candidate only when it compares strictly less. */
  function First(buf: seq<Option<Record>>): (first: Option<Record>)
    ensures IsFirst(buf, first)
  {
    if buf == [] then None
    else
      var prev := First(buf[..|buf| - 1]);
      FirstExtends(buf, prev);
      Candidate(prev, buf[|buf| - 1])
  }

  /** One step of the scan: the candidate after looking at entry `x`. */
  function Candidate(prev: Option<Record>, x: Option<Record>): Option<Record> {
    match x
    case None => prev
    case Some(r) => if prev.None? || Compare(r, prev.value) < 0 then x else prev
  }

  /** A step of the scan keeps the candidate the leftmost minimum of the
      entries seen so far. */
  lemma FirstExtends(buf: seq<Option<Record>>, prev: Option<Record>)
    requires buf != [] && IsFirst(buf[..|buf| - 1], prev)
    ensures IsFirst(buf, Candidate(prev, buf[|buf| - 1]))
  {
    var n := |buf| - 1;
    assert forall j :: 0 <= j < n ==> buf[..n][j] == buf[j];
    if buf[n].Some? {
      if prev.None? {
        assert LeftmostMinimumAt(buf, n);
      } else {
        var i :| LeftmostMinimumAt(buf[..n], i) && buf[..n][i] == prev;
        if Compare(buf[n].value, prev.value) < 0 {
          assert LeftmostMinimumAt(buf, n);
        } else {
          assert LeftmostMinimumAt(buf, i);
        }
      }
    } else if prev.Some? {
      var i :| LeftmostMinimumAt(buf[..n], i) && buf[..n][i] == prev;
      assert LeftmostMinimumAt(buf, i);
    }
  }

  /** The selection has one answer: two leftmost minima are the same entry. */
  lemma {:induction false} IsFirstUnique(buf: seq<Option<Record>>, a: Option<Record>, b: Option<Record>)
    requires IsFirst(buf, a) && IsFirst(buf, b)
    ensures a == b
  {
    if a.Some? && b.Some? {
      var i :| LeftmostMinimumAt(buf, i) && buf[i] == a;
      var k :| LeftmostMinimumAt(buf, k) && buf[k] == b;
    }
  }

  /** `findFirstVariantContext`, with exhausted entries skipped. */
  method FindFirstVariantContext(variantContexts: seq<Option<Record>>) returns (first: Option<Record>)
    ensures IsFirst(variantContexts, first)
  {
    first := None;
    for i := 0 to |variantContexts|
      invariant first == First(variantContexts[..i])
    {
      assert variantContexts[..i + 1][..i] == variantContexts[..i];
      var vc := variantContexts[i];
      if vc.Some? {
        if first.None? {
          first := vc;
        } else if Compare(vc.value, first.value) < 0 {
          first := vc;
        }
      }
    }
    assert variantContexts[..|variantContexts|] == variantContexts;
  }

  /** The selection exactly as written: an exhausted entry is passed to the
      comparator once a candidate is held, which fails on it. */
  function FindFirstAsWritten(buf: seq<Option<Record>>): Result<Option<Record>, string>
  {
    if buf == [] then Success(None)
    else
      var n := |buf| - 1;
      match FindFirstAsWritten(buf[..n])
      case Failure(e) => Failure(e)
      case Success(prev) =>
        if prev.None? then Success(buf[n])
        else if buf[n].None? then Failure("NullPointerException")
        else if Compare(buf[n].value, prev.value) < 0 then Success(buf[n])
        else Success(prev)
  }

  /** Where no input is exhausted, the selection as written returns what
      the corrected one does. */
  lemma {:induction false} FindFirstAsWrittenAgrees(buf: seq<Option<Record>>)
    requires forall i :: 0 <= i < |buf| ==> buf[i].Some?
    ensures FindFirstAsWritten(buf) == Success(First(buf))
  {
    if buf != [] {
      var n := |buf| - 1;
      assert forall i :: 0 <= i < n ==> buf[..n][i] == buf[i];
      FindFirstAsWrittenAgrees(buf[..n]);
    }
  }

  // ---------------------------------------------------------------------
  // Grouping and genotype reconciliation

  /** The buffered records at the same locus as `first`, in input order. */
  function Group(buf: seq<Option<Record>>, first: Record): (g: seq<Record>)
  {
    if buf == [] then []
    else
      var n := |buf| - 1;
      Group(buf[..n], first) +
        (if buf[n].Some? && Compare(buf[n].value, first) == 0 then [buf[n].value] else [])
  }

  /** A record is in the group exactly when some buffered entry holds it and
      it shares the locus of `first`. */
  lemma {:induction false} GroupMembers(buf: seq<Option<Record>>, first: Record, r: Record)
    ensures r in Group(buf, first) <==>
              Compare(r, first) == 0 && exists i :: 0 <= i < |buf| && buf[i] == Some(r)
  {
    if buf != [] {
      var n := |buf| - 1;
      GroupMembers(buf[..n], first, r);
      if exists i :: 0 <= i < n && buf[..n][i] == Some(r) {
        var i :| 0 <= i < n && buf[..n][i] == Some(r);
        assert buf[i] == Some(r);
      }
      if exists i :: 0 <= i < |buf| && buf[i] == Some(r) {
        var i :| 0 <= i < |buf| && buf[i] == Some(r);
        if i < n {
          assert buf[..n][i] == Some(r);
        }
      }
    }
  }

  /** The loop that collects the records tied with the minimum. */
  method CollectGroup(variantContexts: seq<Option<Record>>, first: Record) returns (group: seq<Record>)
    ensures group == Group(variantContexts, first)
  {
    group := [];
    for i := 0 to |variantContexts|
      invariant group == Group(variantContexts[..i], first)
    {
      assert variantContexts[..i + 1][..i] == variantContexts[..i];
      var vc := variantContexts[i];
      if vc.Some? && Compare(vc.value, first) == 0 {
        group := group + [vc.value];
      }
    }
    assert variantContexts[..|variantContexts|] == variantContexts;
  }

  /** The grouping exactly as written: every entry, in input order, goes to
      the comparator, which fails on an exhausted one. */
  function GroupAsWritten(buf: seq<Option<Record>>, first: Record): Result<seq<Record>, string>
  {
    if buf == [] then Success([])
    else
      var n := |buf| - 1;
      match GroupAsWritten(buf[..n], first)
      case Failure(e) => Failure(e)
      case Success(g) =>
        if buf[n].None? then Failure("NullPointerException")
        else if Compare(buf[n].value, first) == 0 then Success(g + [buf[n].value])
        else Success(g)
  }

  /** Where no input is exhausted, the grouping as written collects the
      corrected group. */
  lemma {:induction false} GroupAsWrittenAgrees(buf: seq<Option<Record>>, first: Record)
    requires forall i :: 0 <= i < |buf| ==> buf[i].Some?
    ensures GroupAsWritten(buf, first) == Success(Group(buf, first))
  {
    if buf != [] {
      var n := |buf| - 1;
      assert forall i :: 0 <= i < n ==> buf[..n][i] == buf[i];
      GroupAsWrittenAgrees(buf[..n], first);
      var g := Group(buf[..n], first);
      assert g + [] == g;
    }
  }

  /** The genotype a merged record carries for `sample`: that of the first
      group member, in input order, that has the sample, else a diploid
      missing call. */
  function Pick(group: seq<Record>, sample: string): (g: Genotype)
    ensures g.sample == sample
  {
    if group == [] then MissingGenotype(sample)
    else match GenotypeOf(group[0], sample)
      case Some(gt) => gt
      case None => Pick(group[1..], sample)
  }

  /** First wins: when member `j` is the first that has the sample, its
      genotype is the one kept. */
  lemma {:induction false} PickFirstWins(group: seq<Record>, sample: string, j: nat)
    requires j < |group| && GenotypeOf(group[j], sample).Some?
    requires forall i :: 0 <= i < j ==> GenotypeOf(group[i], sample).None?
    ensures Pick(group, sample) == GenotypeOf(group[j], sample).value
  {
    if j > 0 {
      PickFirstWins(group[1..], sample, j - 1);
    }
  }

  /** A sample no group member has gets the missing diploid call. */
  lemma {:induction false} PickMissing(group: seq<Record>, sample: string)
    requires forall i :: 0 <= i < |group| ==> GenotypeOf(group[i], sample).None?
    ensures Pick(group, sample) == MissingGenotype(sample)
  {
    if group != [] {
      PickMissing(group[1..], sample);
    }
  }

  /** The scan over the group for one sample, stopping at the first hit. */
  method GenotypeFor(group: seq<Record>, sample: string) returns (g: Genotype)
    ensures g == Pick(group, sample)
  {
    var found: Option<Genotype> := None;
    var i := 0;
    while i < |group|
      invariant 0 <= i <= |group|
      invariant Pick(group, sample) == Pick(group[i..], sample)
      invariant found.None?
    {
      found := GenotypeOf(group[i], sample);
      if found.Some? {
        assert group[i..][0] == group[i] && group[i..] != [];
        assert Pick(group[i..], sample) == found.value;
        break;
      }
      assert group[i..][1..] == group[i + 1..];
      i := i + 1;
    }
    if found.None? {
      assert group[i..] == [];
      found := Some(MissingGenotype(sample));
    }
    g := found.value;
  }

  /** The genotype list of a merged record: one genotype per registry
      sample, none for anything else, each the one `Pick` chooses. */
  ghost predicate MergedGenotypes(gts: seq<Genotype>, group: seq<Record>, samples: set<string>) {
    NamesOf(gts) == samples && DistinctNames(gts) &&
    forall j :: 0 <= j < |gts| ==> gts[j] == Pick(group, gts[j].sample)
  }

  /** The genotype list for one merged record, one registry sample at a
      time (the registry is a hash set, so the order is unspecified). */
  method ReconcileGenotypes(group: seq<Record>, sampleSet: set<string>) returns (genotypes: seq<Genotype>)
    ensures MergedGenotypes(genotypes, group, sampleSet)
  {
    genotypes := [];
    var remaining := sampleSet;
    while remaining != {}
      invariant remaining <= sampleSet
      invariant NamesOf(genotypes) == sampleSet - remaining
      invariant DistinctNames(genotypes)
      invariant forall j :: 0 <= j < |genotypes| ==> genotypes[j] == Pick(group, genotypes[j].sample)
      decreases remaining
    {
      var sample :| sample in remaining;
      var g := GenotypeFor(group, sample);
      NamesOfAppend(genotypes, g);
      genotypes := genotypes + [g];
      remaining := remaining - {sample};
    }
  }

  /** Exactly one genotype per registry sample: the list is as long as the
      registry and each registry sample names exactly one entry. */
  lemma MergedGenotypesOnePerSample(gts: seq<Genotype>, group: seq<Record>, samples: set<string>)
    requires MergedGenotypes(gts, group, samples)
    ensures |gts| == |samples|
    ensures forall s :: s in samples ==>
              exists j :: 0 <= j < |gts| && gts[j].sample == s &&
                          forall k :: 0 <= k < |gts| && gts[k].sample == s ==> k == j
  {
    DistinctNamesCount(gts);
  }

  // ---------------------------------------------------------------------
  // Advancing and the merge steps

  /** Every input whose current record is at or before `first` reads its
      next record; every other input keeps its position. */
  function Advance(inputs: seq<seq<Record>>, ks: seq<nat>, first: Record): (ks': seq<nat>)
    requires ValidCursors(inputs, ks)
    ensures ValidCursors(inputs, ks')
    ensures forall i :: 0 <= i < |ks| ==>
              ks'[i] == if At(inputs[i], ks[i]).Some? && AtOrBefore(inputs[i][ks[i]], first)
                        then ks[i] + 1 else ks[i]
  {
    seq(|ks|, i requires 0 <= i < |ks| =>
      if At(inputs[i], ks[i]).Some? && AtOrBefore(inputs[i][ks[i]], first) then ks[i] + 1 else ks[i])
  }

  /** The records not yet read, summed over all inputs. */
  function Remaining(inputs: seq<seq<Record>>, ks: seq<nat>): nat
    requires ValidCursors(inputs, ks)
  {
    if inputs == [] then 0
    else
      var n := |inputs| - 1;
      Remaining(inputs[..n], ks[..n]) + (|inputs[n]| - ks[n])
  }

  /** How many buffered records are at or before `first`. */
  function CountAtOrBefore(buf: seq<Option<Record>>, first: Record): nat
  {
    if buf == [] then 0
    else
      var n := |buf| - 1;
      CountAtOrBefore(buf[..n], first) + (if buf[n].Some? && AtOrBefore(buf[n].value, first) then 1 else 0)
  }

  /** One advance reads exactly one record from each input whose current
      record is at or before `first`. */
  lemma {:induction false} AdvanceReads(inputs: seq<seq<Record>>, ks: seq<nat>, first: Record)
    requires ValidCursors(inputs, ks)
    ensures Remaining(inputs, ks) ==
            Remaining(inputs, Advance(inputs, ks, first)) + CountAtOrBefore(Buffer(inputs, ks), first)
  {
    if inputs != [] {
      var n := |inputs| - 1;
      AdvanceReads(inputs[..n], ks[..n], first);
      assert Advance(inputs, ks, first)[..n] == Advance(inputs[..n], ks[..n], first);
      assert Buffer(inputs, ks)[..n] == Buffer(inputs[..n], ks[..n]);
    }
  }

  lemma {:induction false} CountAtOrBeforePositive(buf: seq<Option<Record>>, first: Record, i: nat)
    requires i < |buf| && buf[i] == Some(first)
    ensures CountAtOrBefore(buf, first) > 0
  {
    var n := |buf| - 1;
    if i < n {
      CountAtOrBeforePositive(buf[..n], first, i);
    }
  }

  /** When `first` is the minimum of the buffer, the entries at or before it
      are exactly those tied with it: the group. */
  lemma {:induction false} AtOrBeforeMinimumIsGroup(buf: seq<Option<Record>>, first: Record)
    requires forall j :: 0 <= j < |buf| && buf[j].Some? ==> AtOrBefore(first, buf[j].value)
    ensures CountAtOrBefore(buf, first) == |Group(buf, first)|
  {
    if buf != [] {
      var n := |buf| - 1;
      AtOrBeforeMinimumIsGroup(buf[..n], first);
    }
  }

  /** The stream holding the minimum always advances, so every step reads at
      least one record; the records read are exactly the group. */
  lemma AdvanceConsumesGroup(inputs: seq<seq<Record>>, ks: seq<nat>, first: Record)
    requires ValidCursors(inputs, ks)
    requires IsFirst(Buffer(inputs, ks), Some(first))
    ensures Remaining(inputs, ks) ==
            Remaining(inputs, Advance(inputs, ks, first)) + |Group(Buffer(inputs, ks), first)|
    ensures Remaining(inputs, Advance(inputs, ks, first)) < Remaining(inputs, ks)
  {
    var buf := Buffer(inputs, ks);
    var i :| LeftmostMinimumAt(buf, i) && buf[i] == Some(first);
    AdvanceReads(inputs, ks, first);
    CountAtOrBeforePositive(buf, first, i);
    AtOrBeforeMinimumIsGroup(buf, first);
  }

  /** The streams that advance are exactly the group members: no buffered
      record compares strictly before the minimum, so "at or before" never
      reaches past the tie. */
  lemma AdvancesExactlyGroup(inputs: seq<seq<Record>>, ks: seq<nat>, first: Record, i: nat)
    requires ValidCursors(inputs, ks) && i < |inputs|
    requires IsFirst(Buffer(inputs, ks), Some(first))
    ensures Advance(inputs, ks, first)[i] == ks[i] + 1 <==>
              At(inputs[i], ks[i]).Some? && Compare(inputs[i][ks[i]], first) == 0
    ensures Advance(inputs, ks, first)[i] != ks[i] + 1 ==> Advance(inputs, ks, first)[i] == ks[i]
  {
    var buf := Buffer(inputs, ks);
    var m :| LeftmostMinimumAt(buf, m) && buf[m] == Some(first);
    assert buf[i] == At(inputs[i], ks[i]);
  }

  /** One iteration of the loop: the minimal record and its group. */
  datatype Step = Step(first: Record, group: seq<Record>)

  /** The iterations of the loop from read positions `ks` until every input
      is exhausted. */
  function MergeSteps(inputs: seq<seq<Record>>, ks: seq<nat>): (steps: seq<Step>)
    requires ValidCursors(inputs, ks)
    ensures steps == [] <==> AllExhausted(Buffer(inputs, ks))
    ensures |steps| <= Remaining(inputs, ks)
    decreases Remaining(inputs, ks)
  {
    var buf := Buffer(inputs, ks);
    match First(buf)
    case None => []
    case Some(first) =>
      AdvanceConsumesGroup(inputs, ks, first);
      [Step(first, Group(buf, first))] + MergeSteps(inputs, Advance(inputs, ks, first))
  }

  /** One step of the loop, unfolded. */
  lemma MergeStepsUnfold(inputs: seq<seq<Record>>, ks: seq<nat>, first: Record)
    requires ValidCursors(inputs, ks)
    requires First(Buffer(inputs, ks)) == Some(first)
    ensures MergeSteps(inputs, ks) ==
            [Step(first, Group(Buffer(inputs, ks), first))] + MergeSteps(inputs, Advance(inputs, ks, first))
  {
  }

  /** The steps already taken followed by those still to come stay the
      whole run across one iteration. */
  lemma StepsDone(inputs: seq<seq<Record>>, ks: seq<nat>, first: Record, done: seq<Step>, all: seq<Step>)
    requires ValidCursors(inputs, ks)
    requires First(Buffer(inputs, ks)) == Some(first)
    requires done + MergeSteps(inputs, ks) == all
    ensures (done + [Step(first, Group(Buffer(inputs, ks), first))]) + MergeSteps(inputs, Advance(inputs, ks, first)) == all
  {
    var step := Step(first, Group(Buffer(inputs, ks), first));
    var rest := MergeSteps(inputs, Advance(inputs, ks, first));
    MergeStepsUnfold(inputs, ks, first);
    ConcatAssoc(done, [step], rest);
  }

  lemma ConcatAssoc<T>(a: seq<T>, b: seq<T>, c: seq<T>)
    ensures (a + b) + c == a + (b + c)
  {
  }

  /** Output record `out` is the merge of `step`: the minimal record's fields
      with its genotypes replaced by the reconciled list. */
  ghost predicate MergedFrom(out: Record, step: Step, samples: set<string>) {
    out == step.first.(genotypes := out.genotypes) &&
    MergedGenotypes(out.genotypes, step.group, samples)
  }

  /** A merged record sits at the locus of the minimal record it came from. */
  lemma MergedLocus(out: Record, step: Step, samples: set<string>)
    requires MergedFrom(out, step, samples)
    ensures out.contig == step.first.contig && out.pos == step.first.pos
  {
    assert out.contig == step.first.(genotypes := out.genotypes).contig;
  }

  ghost predicate IsMerge(out: seq<Record>, steps: seq<Step>, samples: set<string>) {
    |out| == |steps| && forall k :: 0 <= k < |out| ==> MergedFrom(out[k], steps[k], samples)
  }

  lemma IsMergeAppend(out: seq<Record>, steps: seq<Step>, samples: set<string>, r: Record, step: Step)
    requires IsMerge(out, steps, samples) && MergedFrom(r, step, samples)
    ensures IsMerge(out + [r], steps + [step], samples)
  {
    forall k | 0 <= k < |out| + 1 ensures MergedFrom((out + [r])[k], (steps + [step])[k], samples) {
      if k < |out| {
        assert (out + [r])[k] == out[k] && (steps + [step])[k] == steps[k];
      }
    }
  }

  /** Every input whose current record is at or before `first` reads its next
      record, which is the exhausted marker once the input has none left. */
  method AdvanceStreams(inputs: seq<seq<Record>>, cursors: array<nat>,
                        variantContexts: array<Option<Record>>, first: Record)
    requires cursors.Length == variantContexts.Length
    requires ValidCursors(inputs, cursors[..])
    requires variantContexts[..] == Buffer(inputs, cursors[..])
    modifies cursors, variantContexts
    ensures cursors[..] == Advance(inputs, old(cursors[..]), first)
    ensures variantContexts[..] == Buffer(inputs, cursors[..])
  {
    ghost var ks := cursors[..];
    var n := cursors.Length;
    for i := 0 to n
      invariant forall j :: 0 <= j < i ==> cursors[j] == Advance(inputs, ks, first)[j]
      invariant forall j :: i <= j < n ==> cursors[j] == ks[j]
      invariant forall j :: 0 <= j < n ==> variantContexts[j] == At(inputs[j], cursors[j])
    {
      var vc := variantContexts[i];
      if vc.Some? && Compare(vc.value, first) <= 0 {
        cursors[i] := cursors[i] + 1;
        variantContexts[i] := At(inputs[i], cursors[i]);
      }
    }
    assert cursors[..] == Advance(inputs, ks, first);
  }

  /** The loop's bookkeeping: the steps done so far followed by those still
      to come from cursors `ks` are the whole run, and the output so far is
      the merge of the steps done. */
  ghost predicate Progress(inputs: seq<seq<Record>>, ks: seq<nat>, done: seq<Step>, all: seq<Step>,
                           out: seq<Record>, samples: set<string>) {
    ValidCursors(inputs, ks) && done + MergeSteps(inputs, ks) == all && IsMerge(out, done, samples)
  }

  /** One iteration keeps the bookkeeping and consumes input. */
  lemma ProgressStep(inputs: seq<seq<Record>>, ks: seq<nat>, done: seq<Step>, all: seq<Step>,
                     out: seq<Record>, samples: set<string>, step: Step, merged: Record)
    requires Progress(inputs, ks, done, all, out, samples)
    requires First(Buffer(inputs, ks)) == Some(step.first)
    requires step.group == Group(Buffer(inputs, ks), step.first)
    requires MergedFrom(merged, step, samples)
    ensures Progress(inputs, Advance(inputs, ks, step.first), done + [step], all, out + [merged], samples)
    ensures Remaining(inputs, Advance(inputs, ks, step.first)) < Remaining(inputs, ks)
  {
    IsMergeAppend(out, done, samples, merged, step);
    StepsDone(inputs, ks, step.first, done, all);
    AdvanceConsumesGroup(inputs, ks, step.first);
  }

  /** The merge loop. Every input gets one buffer slot (an empty input starts
      exhausted); each iteration selects the minimum, groups the records tied
      with it, emits the merged record and advances every input at or before
      the minimum, until all inputs are exhausted. */
  method MergeVariants(inputs: seq<seq<Record>>, sampleSet: set<string>) returns (out: seq<Record>)
    ensures IsMerge(out, MergeSteps(inputs, Zeros(|inputs|)), sampleSet)
  {
    var n := |inputs|;
    var cursors, variantContexts := FillBuffer(inputs);
    ghost var all := MergeSteps(inputs, Zeros(n));
    ghost var done: seq<Step> := [];
    out := [];
    var exhausted := AllItemsAreNull(variantContexts[..]);
    while !exhausted
      invariant cursors.Length == variantContexts.Length == n
      invariant Progress(inputs, cursors[..], done, all, out, sampleSet)
      invariant variantContexts[..] == Buffer(inputs, cursors[..])
      invariant exhausted <==> AllExhausted(variantContexts[..])
      decreases Remaining(inputs, cursors[..])
    {
      ghost var ks := cursors[..];
      var merged;
      ghost var step;
      merged, step := MergeOne(inputs, cursors, variantContexts, sampleSet);
      ProgressStep(inputs, ks, done, all, out, sampleSet, step, merged);
      out := out + [merged];
      done := done + [step];
      exhausted := AllItemsAreNull(variantContexts[..]);
    }
    assert MergeSteps(inputs, cursors[..]) == [];
    assert done + [] == done;
  }

  /** The buffer before the loop: every input reads its first record, or
      starts exhausted when it has none. */
  method FillBuffer(inputs: seq<seq<Record>>) returns (cursors: array<nat>, variantContexts: array<Option<Record>>)
    ensures fresh(cursors) && fresh(variantContexts)
    ensures cursors.Length == variantContexts.Length == |inputs|
    ensures cursors[..] == Zeros(|inputs|)
    ensures variantContexts[..] == InitialBuffer(inputs)
  {
    var n := |inputs|;
    variantContexts := new Option<Record>[n];
    cursors := new nat[n];
    for i := 0 to n
      invariant forall j :: 0 <= j < i ==> cursors[j] == 0 && variantContexts[j] == At(inputs[j], 0)
    {
      cursors[i] := 0;
      variantContexts[i] := At(inputs[i], 0);
    }
    assert cursors[..] == Zeros(n);
  }

  /** One iteration of the loop: select the minimum, group the records tied
      with it, build the merged record, and advance. */
  method MergeOne(inputs: seq<seq<Record>>, cursors: array<nat>, variantContexts: array<Option<Record>>,
                  sampleSet: set<string>)
    returns (merged: Record, ghost step: Step)
    requires cursors.Length == variantContexts.Length
    requires ValidCursors(inputs, cursors[..])
    requires variantContexts[..] == Buffer(inputs, cursors[..])
    requires !AllExhausted(variantContexts[..])
    modifies cursors, variantContexts
    ensures First(Buffer(inputs, old(cursors[..]))) == Some(step.first)
    ensures step.group == Group(Buffer(inputs, old(cursors[..])), step.first)
    ensures MergedFrom(merged, step, sampleSet)
    ensures cursors[..] == Advance(inputs, old(cursors[..]), step.first)
    ensures variantContexts[..] == Buffer(inputs, cursors[..])
  {
    ghost var buf := variantContexts[..];
    var first := FindFirstVariantContext(variantContexts[..]);
    IsFirstUnique(buf, first, First(buf));
    var m := first.value;
    var group := CollectGroup(variantContexts[..], m);
    var genotypes := ReconcileGenotypes(group, sampleSet);
    merged := m.(genotypes := genotypes);
    step := Step(m, group);
    AdvanceStreams(inputs, cursors, variantContexts, m);
  }

  /** The whole run: the header pass, then the merge over the sample
      registry it built. */
  method DoWork(headers: seq<Header>, inputs: seq<seq<Record>>, explicitDict: Option<seq<string>>,
                createIndex: bool, isCompatible: Compatibility)
    returns (r: Result<seq<Record>, MungeError>)
    requires |headers| == |inputs|
    ensures r.Success? <==> HeadersAccepted(headers, explicitDict, createIndex, isCompatible)
    ensures r.Failure? ==> (r.error == MissingDictionary <==> MissesDictionary(headers, explicitDict))
    ensures r.Success? ==> IsMerge(r.value, MergeSteps(inputs, Zeros(|inputs|)), SamplesOf(headers))
  {
    var scan := ScanHeaders(headers, explicitDict, createIndex, isCompatible);
    if scan.Failure? {
      return Failure(scan.error);
    }
    var out := MergeVariants(inputs, scan.value.sampleSet);
    r := Success(out);
  }

  // =====================================================================
  // Properties of the merge

  /** Every buffered record is at or after `m`. */
  ghost predicate AllAfter(inputs: seq<seq<Record>>, ks: seq<nat>, m: Record)
    requires ValidCursors(inputs, ks)
  {
    forall i :: 0 <= i < |ks| && ks[i] < |inputs[i]| ==> AtOrBefore(m, inputs[i][ks[i]])
  }

  /** Reading further into sorted inputs never goes back before `m`. */
  lemma AdvanceStaysAfter(inputs: seq<seq<Record>>, ks: seq<nat>, m: Record, first: Record)
    requires ValidCursors(inputs, ks)
    requires forall i :: 0 <= i < |inputs| ==> Sorted(inputs[i])
    requires AllAfter(inputs, ks, m)
    ensures AllAfter(inputs, Advance(inputs, ks, first), m)
  {
    var ks' := Advance(inputs, ks, first);
    forall i | 0 <= i < |ks'| && ks'[i] < |inputs[i]|
      ensures AtOrBefore(m, inputs[i][ks'[i]])
    {
      if ks'[i] != ks[i] {
        assert AtOrBefore(inputs[i][ks[i]], inputs[i][ks'[i]]);
      }
    }
  }

  /** The selected record is one of the buffered ones, so it is at or after
      any `m` all of them are at or after. */
  lemma FirstStaysAfter(inputs: seq<seq<Record>>, ks: seq<nat>, m: Record, first: Record)
    requires ValidCursors(inputs, ks)
    requires AllAfter(inputs, ks, m)
    requires First(Buffer(inputs, ks)) == Some(first)
    ensures AtOrBefore(m, first)
  {
    var buf := Buffer(inputs, ks);
    var i :| LeftmostMinimumAt(buf, i) && buf[i] == Some(first);
    assert inputs[i][ks[i]] == first;
  }

  /** All steps after `m`. */
  ghost predicate StepsAfter(steps: seq<Step>, m: Record) {
    forall k :: 0 <= k < |steps| ==> AtOrBefore(m, steps[k].first)
  }

  lemma ConsStepsAfter(head: Step, rest: seq<Step>, m: Record)
    requires AtOrBefore(m, head.first) && StepsAfter(rest, m)
    ensures StepsAfter([head] + rest, m)
  {
    var steps := [head] + rest;
    forall k | 0 <= k < |steps| ensures AtOrBefore(m, steps[k].first) {
      if k > 0 {
        assert steps[k] == rest[k - 1];
      }
    }
  }

  /** Every step from a state whose records are all at or after `m` selects
      a record at or after `m`. */
  lemma {:induction false} StepsStayAfter(inputs: seq<seq<Record>>, ks: seq<nat>, m: Record)
    requires ValidCursors(inputs, ks)
    requires forall i :: 0 <= i < |inputs| ==> Sorted(inputs[i])
    requires AllAfter(inputs, ks, m)
    ensures StepsAfter(MergeSteps(inputs, ks), m)
    decreases Remaining(inputs, ks)
  {
    var buf := Buffer(inputs, ks);
    if first :| First(buf) == Some(first) {
      FirstStaysAfter(inputs, ks, m, first);
      var ks' := Advance(inputs, ks, first);
      AdvanceConsumesGroup(inputs, ks, first);
      AdvanceStaysAfter(inputs, ks, m, first);
      StepsStayAfter(inputs, ks', m);
      MergeStepsUnfold(inputs, ks, first);
      ConsStepsAfter(Step(first, Group(buf, first)), MergeSteps(inputs, ks'), m);
    }
  }

  /** The selected records of a run of steps are in non-decreasing order. */
  ghost predicate StepsSorted(steps: seq<Step>) {
    forall k, l :: 0 <= k < l < |steps| ==> AtOrBefore(steps[k].first, steps[l].first)
  }

  lemma ConsStepsSorted(head: Step, rest: seq<Step>)
    requires StepsSorted(rest)
    requires forall k :: 0 <= k < |rest| ==> AtOrBefore(head.first, rest[k].first)
    ensures StepsSorted([head] + rest)
  {
    var steps := [head] + rest;
    forall k, l | 0 <= k < l < |steps| ensures AtOrBefore(steps[k].first, steps[l].first) {
      assert steps[l] == rest[l - 1];
      if k > 0 {
        assert steps[k] == rest[k - 1];
      }
    }
  }

  /** For inputs each sorted under the comparator, the selected records come
      out in non-decreasing order. */
  lemma {:induction false} MergeStepsSorted(inputs: seq<seq<Record>>, ks: seq<nat>)
    requires ValidCursors(inputs, ks)
    requires forall i :: 0 <= i < |inputs| ==> Sorted(inputs[i])
    ensures StepsSorted(MergeSteps(inputs, ks))
    decreases Remaining(inputs, ks)
  {
    var buf := Buffer(inputs, ks);
    if first :| First(buf) == Some(first) {
      var ks' := Advance(inputs, ks, first);
      AdvanceConsumesGroup(inputs, ks, first);
      assert AllAfter(inputs, ks, first) by {
        var i :| LeftmostMinimumAt(buf, i) && buf[i] == Some(first);
        forall j | 0 <= j < |ks| && ks[j] < |inputs[j]| ensures AtOrBefore(first, inputs[j][ks[j]]) {
          assert buf[j] == Some(inputs[j][ks[j]]);
        }
      }
      AdvanceStaysAfter(inputs, ks, first, first);
      StepsStayAfter(inputs, ks', first);
      MergeStepsSorted(inputs, ks');
      MergeStepsUnfold(inputs, ks, first);
      ConsStepsSorted(Step(first, Group(buf, first)), MergeSteps(inputs, ks'));
    }
  }

  /** The merged output of sorted inputs is sorted: "sorted according to the
      dictionary and by coordinate". */
  lemma MergeOutputSorted(inputs: seq<seq<Record>>, samples: set<string>, out: seq<Record>)
    requires forall i :: 0 <= i < |inputs| ==> Sorted(inputs[i])
    requires IsMerge(out, MergeSteps(inputs, Zeros(|inputs|)), samples)
    ensures Sorted(out)
  {
    MergeStepsSorted(inputs, Zeros(|inputs|));
    MergedInStepOrder(out, MergeSteps(inputs, Zeros(|inputs|)), samples);
  }

  lemma MergedInStepOrder(out: seq<Record>, steps: seq<Step>, samples: set<string>)
    requires IsMerge(out, steps, samples) && StepsSorted(steps)
    ensures Sorted(out)
  {
    forall k, l | 0 <= k < l < |out| ensures AtOrBefore(out[k], out[l]) {
      MergedLocus(out[k], steps[k], samples);
      MergedLocus(out[l], steps[l], samples);
    }
  }

  /** Total group size over a run of steps. */
  function GroupedRecords(steps: seq<Step>): nat {
    if steps == [] then 0 else |steps[0].group| + GroupedRecords(steps[1..])
  }

  /** Nothing is dropped or repeated: the groups of all iterations together
      hold exactly as many records as are left to read, whether or not the
      inputs are sorted. */
  lemma {:induction false} MergeKeepsEveryRecord(inputs: seq<seq<Record>>, ks: seq<nat>)
    requires ValidCursors(inputs, ks)
    ensures GroupedRecords(MergeSteps(inputs, ks)) == Remaining(inputs, ks)
    decreases Remaining(inputs, ks)
  {
    var buf := Buffer(inputs, ks);
    if first :| First(buf) == Some(first) {
      var ks' := Advance(inputs, ks, first);
      AdvanceConsumesGroup(inputs, ks, first);
      MergeKeepsEveryRecord(inputs, ks');
      var steps := MergeSteps(inputs, ks);
      assert steps == [Step(first, Group(buf, first))] + MergeSteps(inputs, ks');
      assert steps[1..] == MergeSteps(inputs, ks');
    } else {
      assert AllExhausted(buf);
      RemainingExhausted(inputs, ks);
    }
  }

  /** The records not yet read, over all inputs, with their multiplicity. */
  function Unread(inputs: seq<seq<Record>>, ks: seq<nat>): multiset<Record>
    requires ValidCursors(inputs, ks)
  {
    if inputs == [] then multiset{}
    else
      var n := |inputs| - 1;
      Unread(inputs[..n], ks[..n]) + multiset(inputs[n][ks[n]..])
  }

  /** A record is unread exactly when some input holds it at or after that
      input's read position. */
  lemma {:induction false} UnreadMembers(inputs: seq<seq<Record>>, ks: seq<nat>, x: Record)
    requires ValidCursors(inputs, ks)
    ensures x in Unread(inputs, ks) <==>
              exists i, j :: 0 <= i < |inputs| && ks[i] <= j < |inputs[i]| && inputs[i][j] == x
  {
    if inputs != [] {
      var n := |inputs| - 1;
      UnreadMembers(inputs[..n], ks[..n], x);
      if x in Unread(inputs, ks) {
        if x in Unread(inputs[..n], ks[..n]) {
          var i, j :| 0 <= i < n && ks[..n][i] <= j < |inputs[..n][i]| && inputs[..n][i][j] == x;
          assert inputs[i][j] == x;
        } else {
          assert x in inputs[n][ks[n]..];
          var j :| 0 <= j < |inputs[n][ks[n]..]| && inputs[n][ks[n]..][j] == x;
          assert inputs[n][ks[n] + j] == x;
        }
      }
      if exists i, j :: 0 <= i < |inputs| && ks[i] <= j < |inputs[i]| && inputs[i][j] == x {
        var i, j :| 0 <= i < |inputs| && ks[i] <= j < |inputs[i]| && inputs[i][j] == x;
        if i < n {
          assert inputs[..n][i][j] == x && ks[..n][i] == ks[i];
        } else {
          assert inputs[n][ks[n]..][j - ks[n]] == x;
        }
      }
    }
  }

  /** The record input `input` contributes to the group of `first` from
      read position `k`: its current record when tied with `first`. */
  function Tied(input: seq<Record>, k: nat, first: Record): seq<Record> {
    if k < |input| && Compare(input[k], first) == 0 then [input[k]] else []
  }

  /** One input's part of an advance: when its current record is at or
      after `first`, the input reads on exactly when that record is tied
      with `first`, and the record read is the one it adds to the group. */
  lemma InputReadsItsGroupEntry(input: seq<Record>, k: nat, first: Record)
    requires k <= |input|
    requires k < |input| ==> AtOrBefore(first, input[k])
    ensures var k' := if At(input, k).Some? && AtOrBefore(input[k], first) then k + 1 else k;
            multiset(input[k..]) == multiset(input[k'..]) + multiset(Tied(input, k, first))
  {
    if k < |input| {
      assert input[k..] == [input[k]] + input[k + 1..];
    }
  }

  /** The group splits into that of all inputs but the last, and the last
      input's tied record. */
  lemma GroupOfLastInput(inputs: seq<seq<Record>>, ks: seq<nat>, first: Record)
    requires ValidCursors(inputs, ks) && inputs != []
    ensures var n := |inputs| - 1;
            Group(Buffer(inputs, ks), first) ==
              Group(Buffer(inputs[..n], ks[..n]), first) + Tied(inputs[n], ks[n], first)
  {
    var n := |inputs| - 1;
    assert Buffer(inputs, ks)[..n] == Buffer(inputs[..n], ks[..n]);
  }

  /** The advance of all inputs but the last is the advance of the prefix. */
  lemma AdvanceOfPrefix(inputs: seq<seq<Record>>, ks: seq<nat>, first: Record)
    requires ValidCursors(inputs, ks) && inputs != []
    ensures var n := |inputs| - 1;
            ValidCursors(inputs[..n], ks[..n]) &&
            Advance(inputs, ks, first)[..n] == Advance(inputs[..n], ks[..n], first)
  {
    var n := |inputs| - 1;
    assert Advance(inputs, ks, first)[..n] == Advance(inputs[..n], ks[..n], first);
  }

  lemma AllAfterOfPrefix(inputs: seq<seq<Record>>, ks: seq<nat>, m: Record)
    requires ValidCursors(inputs, ks) && inputs != [] && AllAfter(inputs, ks, m)
    ensures var n := |inputs| - 1;
            ValidCursors(inputs[..n], ks[..n]) && AllAfter(inputs[..n], ks[..n], m) &&
            (ks[n] < |inputs[n]| ==> AtOrBefore(m, inputs[n][ks[n]]))
  {
    var n := |inputs| - 1;
    assert forall j :: 0 <= j < n ==> inputs[..n][j] == inputs[j] && ks[..n][j] == ks[j];
  }

  /** When `first` is at or before every buffered record, one advance reads
      exactly the records of its group. */
  lemma {:induction false} AdvanceReadsGroup(inputs: seq<seq<Record>>, ks: seq<nat>, first: Record)
    requires ValidCursors(inputs, ks) && AllAfter(inputs, ks, first)
    ensures Unread(inputs, ks) ==
            Unread(inputs, Advance(inputs, ks, first)) + multiset(Group(Buffer(inputs, ks), first))
  {
    if inputs != [] {
      var n := |inputs| - 1;
      var ks' := Advance(inputs, ks, first);
      var init, initKs := inputs[..n], ks[..n];
      AllAfterOfPrefix(inputs, ks, first);
      AdvanceReadsGroup(init, initKs, first);
      AdvanceOfPrefix(inputs, ks, first);
      GroupOfLastInput(inputs, ks, first);
      InputReadsItsGroupEntry(inputs[n], ks[n], first);
      var rest, tail := Group(Buffer(init, initKs), first), Tied(inputs[n], ks[n], first);
      var last, last' := multiset(inputs[n][ks[n]..]), multiset(inputs[n][ks'[n]..]);
      var before, after := Unread(init, initKs), Unread(init, ks'[..n]);
      assert before == after + multiset(rest);
      assert last == last' + multiset(tail);
      calc {
        Unread(inputs, ks);
        before + last;
        (after + last') + (multiset(rest) + multiset(tail));
        { assert multiset(rest + tail) == multiset(rest) + multiset(tail); }
        Unread(inputs, ks') + multiset(Group(Buffer(inputs, ks), first));
      }
    }
  }

  lemma {:induction false} UnreadExhausted(inputs: seq<seq<Record>>, ks: seq<nat>)
    requires ValidCursors(inputs, ks) && AllExhausted(Buffer(inputs, ks))
    ensures Unread(inputs, ks) == multiset{}
  {
    if inputs != [] {
      var n := |inputs| - 1;
      assert Buffer(inputs, ks)[..n] == Buffer(inputs[..n], ks[..n]);
      UnreadExhausted(inputs[..n], ks[..n]);
      assert Buffer(inputs, ks)[n].None?;
    }
  }

  /** The groups of a run of steps, as one multiset of records. */
  function GroupedMultiset(steps: seq<Step>): multiset<Record> {
    if steps == [] then multiset{} else multiset(steps[0].group) + GroupedMultiset(steps[1..])
  }

  /** A record is grouped exactly when some step's group holds it. */
  lemma {:induction false} GroupedMultisetMembers(steps: seq<Step>, x: Record)
    ensures x in GroupedMultiset(steps) <==> exists k :: 0 <= k < |steps| && x in steps[k].group
  {
    if steps != [] {
      GroupedMultisetMembers(steps[1..], x);
      if exists k :: 0 <= k < |steps| && x in steps[k].group {
        var k :| 0 <= k < |steps| && x in steps[k].group;
        if k > 0 {
          assert x in steps[1..][k - 1].group;
        }
      }
      if exists k :: 0 <= k < |steps| - 1 && x in steps[1..][k].group {
        var k :| 0 <= k < |steps| - 1 && x in steps[1..][k].group;
        assert x in steps[k + 1].group;
      }
    }
  }

  /** Nothing is dropped or repeated: the groups of all iterations hold
      exactly the records not yet read, each as often as it occurs in the
      inputs, whether or not the inputs are sorted. */
  lemma {:induction false} MergeHoldsEveryRecord(inputs: seq<seq<Record>>, ks: seq<nat>)
    requires ValidCursors(inputs, ks)
    ensures GroupedMultiset(MergeSteps(inputs, ks)) == Unread(inputs, ks)
    decreases Remaining(inputs, ks)
  {
    var buf := Buffer(inputs, ks);
    if first :| First(buf) == Some(first) {
      var ks' := Advance(inputs, ks, first);
      AdvanceConsumesGroup(inputs, ks, first);
      var m :| LeftmostMinimumAt(buf, m) && buf[m] == Some(first);
      assert AllAfter(inputs, ks, first) by {
        forall j | 0 <= j < |ks| && ks[j] < |inputs[j]|
          ensures AtOrBefore(first, inputs[j][ks[j]])
        {
          assert buf[j] == Some(inputs[j][ks[j]]);
        }
      }
      AdvanceReadsGroup(inputs, ks, first);
      MergeHoldsEveryRecord(inputs, ks');
      var steps := MergeSteps(inputs, ks);
      assert steps == [Step(first, Group(buf, first))] + MergeSteps(inputs, ks');
      assert steps[1..] == MergeSteps(inputs, ks');
    } else {
      UnreadExhausted(inputs, ks);
    }
  }

  /** Every record an input holds at or after its read position ends up in
      the group of some iteration. */
  lemma EveryUnreadRecordIsGrouped(inputs: seq<seq<Record>>, ks: seq<nat>, i: nat, j: nat)
    requires ValidCursors(inputs, ks) && i < |inputs| && ks[i] <= j < |inputs[i]|
    ensures exists k :: 0 <= k < |MergeSteps(inputs, ks)| && inputs[i][j] in MergeSteps(inputs, ks)[k].group
  {
    UnreadMembers(inputs, ks, inputs[i][j]);
    MergeHoldsEveryRecord(inputs, ks);
    GroupedMultisetMembers(MergeSteps(inputs, ks), inputs[i][j]);
  }

  lemma {:induction false} RemainingExhausted(inputs: seq<seq<Record>>, ks: seq<nat>)
    requires ValidCursors(inputs, ks) && AllExhausted(Buffer(inputs, ks))
    ensures Remaining(inputs, ks) == 0
  {
    if inputs != [] {
      var n := |inputs| - 1;
      assert Buffer(inputs, ks)[..n] == Buffer(inputs[..n], ks[..n]);
      RemainingExhausted(inputs[..n], ks[..n]);
      assert Buffer(inputs, ks)[n].None?;
    }
  }

  /** Merging a single input emits its records one by one, each alone in its
      group, so every genotype it carries is kept. */
  lemma {:induction false} SingleInputSteps(xs: seq<Record>, k: nat)
    requires k <= |xs|
    ensures var steps := MergeSteps([xs], [k]);
            |steps| == |xs| - k &&
            forall j :: 0 <= j < |steps| ==> steps[j] == Step(xs[k + j], [xs[k + j]])
    decreases |xs| - k
  {
    var buf := Buffer([xs], [k]);
    if k < |xs| {
      assert buf == [Some(xs[k])];
      assert LeftmostMinimumAt(buf, 0);
      IsFirstUnique(buf, First(buf), Some(xs[k]));
      assert Group(buf, xs[k]) == [xs[k]] by {
        assert buf[..0] == [];
      }
      assert Advance([xs], [k], xs[k]) == [k + 1];
      SingleInputSteps(xs, k + 1);
    } else {
      assert AllExhausted(buf);
    }
  }

  /** The state the loop reaches when a longer input outlives a shorter one:
      the shorter slot holds the exhausted marker while the other does not,
      and the selection as written then hands that marker to the comparator. */
  lemma ExhaustedStreamBreaksSelection(a: Record, b: Record)
    requires Compare(a, b) < 0
    ensures var inputs := [[a, b], [a]];
            var ks := Advance(inputs, [0, 0], a);
            Buffer(inputs, ks) == [Some(b), None] &&
            FindFirstAsWritten(Buffer(inputs, ks)).Failure? &&
            First(Buffer(inputs, ks)) == Some(b)
  {
    var inputs := [[a, b], [a]];
    var ks := Advance(inputs, [0, 0], a);
    assert ks == [1, 1];
    var buf := Buffer(inputs, ks);
    assert buf == [Some(b), None];
    assert buf[..1] == [Some(b)] && buf[..1][..0] == [];
    assert LeftmostMinimumAt(buf, 0);
    IsFirstUnique(buf, First(buf), Some(b));
  }

  /** When the shorter input comes first, one iteration leaves its slot
      exhausted ahead of the other input's next record. */
  lemma ShorterFirstInputExhausts(a: Record, b: Record)
    requires Compare(a, b) < 0
    ensures var inputs := [[a], [a, b]];
            Buffer(inputs, Advance(inputs, [0, 0], a)) == [None, Some(b)]
  {
    var inputs := [[a], [a, b]];
    assert Advance(inputs, [0, 0], a) == [1, 1];
  }

  /** In that state the selection as written succeeds, because its first
      candidate is the exhausted marker, which it replaces; but the grouping
      then hands the marker to the comparator. The corrected group is the
      one record. */
  lemma ExhaustedStreamBreaksGrouping(b: Record)
    ensures FindFirstAsWritten([None, Some(b)]) == Success(Some(b))
    ensures GroupAsWritten([None, Some(b)], b).Failure?
    ensures Group([None, Some(b)], b) == [b]
  {
    var buf: seq<Option<Record>> := [None, Some(b)];
    assert buf[..1] == [None] && buf[..1][..0] == [];
    assert FindFirstAsWritten(buf[..1]) == Success(None);
    assert GroupAsWritten(buf[..1], b).Failure?;
    assert Group(buf[..1], b) == [];
  }


}
