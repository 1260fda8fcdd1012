/**
 * The deserialised form of one `ClinVarSet` record and the getters that
 * turn it into output fields: the chromosome, position and alleles of the
 * variant on the chosen genome build, the RCV accession, the germline
 * classification and the INFO column.
 */
module ClinVarSetSerde {

  import opened Common
  import opened Text
  import opened Cli

  // ---------------------------------------------------------------------
  // The record's structure
  // ---------------------------------------------------------------------

  datatype SequenceLocation = SequenceLocation(
    assembly: string,
    chr: string,
    accession: string,
    positionVcf: string,
    referenceAlleleVcf: string,
    alternateAlleleVcf: string)

  /** A measure; each of its sequence locations may be missing. */
  datatype Measure = Measure(measureType: string, id: string, sequenceLocation: seq<Option<SequenceLocation>>)

  datatype MeasureSet = MeasureSet(measure: seq<Measure>, acc: string)

  datatype GermlineClassificationDescription = GermlineClassificationDescription(description: string, dateLastEvaluated: string)

  datatype GermlineClassification = GermlineClassification(description: GermlineClassificationDescription)

  datatype Classifications = Classifications(germline: seq<GermlineClassification>)

  datatype ClinVarAccession = ClinVarAccession(rcv: string)

  datatype ReferenceClinVarAssertion = ReferenceClinVarAssertion(
    id: string,
    dateLastUpdated: string,
    dateCreated: string,
    clinvarAccession: ClinVarAccession,
    classifications: Classifications,
    measureSet: MeasureSet)

  datatype ClinVarSet = ClinVarSet(referenceClinvarAssertion: ReferenceClinVarAssertion, title: string)

  // ---------------------------------------------------------------------
  // Choosing a sequence location
  // ---------------------------------------------------------------------

  /** The assembly name a build is matched against. */
  function AssemblyOf(g: Genome): (a: string)
    ensures a == (if g == Hg19 then "GRCh37" else "GRCh38")
  {
    match g
    case Hg19 => "GRCh37"
    case Hg38 => "GRCh38"
  }

  /** The two builds are matched against different assemblies. */
  lemma AssembliesDiffer()
    ensures AssemblyOf(Hg19) != AssemblyOf(Hg38)
  {
    assert AssemblyOf(Hg19)[5] != AssemblyOf(Hg38)[5];
  }

  /** The column a getter reads from the chosen location. */
  datatype Column = Chrom | Pos | RefAllele | AltAllele

  function ColumnOf(loc: SequenceLocation, c: Column): string {
    match c
    case Chrom => loc.chr
    case Pos => loc.positionVcf
    case RefAllele => loc.referenceAlleleVcf
    case AltAllele => loc.alternateAlleleVcf
  }

  /** The sequence locations of the measures, measure by measure, in document order. */
  function Locations(ms: seq<Measure>): seq<Option<SequenceLocation>> {
    if ms == [] then [] else Locations(ms[..|ms| - 1]) + ms[|ms| - 1].sequenceLocation
  }

  /** A present location on the assembly. */
  predicate OnAssembly(x: Option<SequenceLocation>, assembly: string) {
    x.Some? && x.value.assembly == assembly
  }

  /** The last present location on the assembly, if there is one. */
  function Selected(locs: seq<Option<SequenceLocation>>, assembly: string): Option<SequenceLocation>
  {
    if locs == [] then None
    else if OnAssembly(locs[|locs| - 1], assembly) then locs[|locs| - 1]
    else Selected(locs[..|locs| - 1], assembly)
  }

  /** The column of the selected location. */
  function Project(loc: Option<SequenceLocation>, c: Column): Option<string> {
    match loc
    case None => None
    case Some(l) => Some(ColumnOf(l, c))
  }

  /** The locations of the chosen build, as the getters' loops see them. */
  function SelectedFor(cvs: ClinVarSet, g: Genome): Option<SequenceLocation> {
    Selected(Locations(cvs.referenceClinvarAssertion.measureSet.measure), AssemblyOf(g))
  }

  // ---------------------------------------------------------------------
  // Properties of the choice
  // ---------------------------------------------------------------------

  /** One more location: a match on the assembly replaces the choice; anything else keeps it. */
  lemma SelectedAppend(locs: seq<Option<SequenceLocation>>, x: Option<SequenceLocation>, assembly: string)
    ensures Selected(locs + [x], assembly) == if OnAssembly(x, assembly) then x else Selected(locs, assembly)
  {
    assert (locs + [x])[..|locs|] == locs;
  }

  /**
   * The choice is the last location on the assembly: there is one exactly
   * when some location is on it, and then no later location is.
   */
  lemma {:induction false} SelectedIsLastMatch(locs: seq<Option<SequenceLocation>>, assembly: string)
    ensures Selected(locs, assembly).None? <==> forall i :: 0 <= i < |locs| ==> !OnAssembly(locs[i], assembly)
    ensures Selected(locs, assembly).Some? ==> exists i :: 0 <= i < |locs| && IsLastMatch(locs, assembly, i)
  {
    if locs != [] {
      var n := |locs| - 1;
      var front := locs[..n];
      SelectedIsLastMatch(front, assembly);
      if OnAssembly(locs[n], assembly) {
        assert IsLastMatch(locs, assembly, n);
      } else if Selected(front, assembly).Some? {
        var i :| 0 <= i < |front| && IsLastMatch(front, assembly, i);
        assert IsLastMatch(locs, assembly, i);
      } else {
        forall i | 0 <= i < |locs| ensures !OnAssembly(locs[i], assembly) {
          if i < n {
            assert locs[i] == front[i];
          }
        }
      }
    }
  }

  /** `locs[i]` is on the assembly, is the choice, and no later location is on the assembly. */
  ghost predicate IsLastMatch(locs: seq<Option<SequenceLocation>>, assembly: string, i: nat)
    requires i < |locs|
  {
    && OnAssembly(locs[i], assembly)
    && Selected(locs, assembly) == locs[i]
    && forall j :: i < j < |locs| ==> !OnAssembly(locs[j], assembly)
  }

  /** Missing locations, and locations on other assemblies, do not affect the choice wherever they stand. */
  lemma {:induction false} SelectedSkipsOthers(pre: seq<Option<SequenceLocation>>, x: Option<SequenceLocation>, post: seq<Option<SequenceLocation>>, assembly: string)
    requires !OnAssembly(x, assembly)
    ensures Selected(pre + [x] + post, assembly) == Selected(pre + post, assembly)
    decreases |post|
  {
    if post == [] {
      assert pre + [x] + post == pre + [x];
      assert pre + post == pre;
      SelectedAppend(pre, x, assembly);
    } else {
      var n := |post| - 1;
      var last := post[n];
      assert pre + [x] + post == (pre + [x] + post[..n]) + [last];
      assert pre + post == (pre + post[..n]) + [last];
      SelectedAppend(pre + [x] + post[..n], last, assembly);
      SelectedAppend(pre + post[..n], last, assembly);
      SelectedSkipsOthers(pre, x, post[..n], assembly);
    }
  }

  /** A build's choice is always on that build's assembly, so never on the other build's. */
  lemma SelectedOnItsBuild(cvs: ClinVarSet, g: Genome)
    ensures SelectedFor(cvs, g).Some? ==> SelectedFor(cvs, g).value.assembly == AssemblyOf(g)
    ensures SelectedFor(cvs, g).Some? ==> SelectedFor(cvs, g).value.assembly != AssemblyOf(if g == Hg19 then Hg38 else Hg19)
  {
    var locs := Locations(cvs.referenceClinvarAssertion.measureSet.measure);
    SelectedIsLastMatch(locs, AssemblyOf(g));
    AssembliesDiffer();
  }

  lemma LocationsAppend(ms: seq<Measure>, i: nat)
    requires i < |ms|
    ensures Locations(ms[..i + 1]) == Locations(ms[..i]) + ms[i].sequenceLocation
  {
    assert ms[..i + 1][..i] == ms[..i];
  }

  // ---------------------------------------------------------------------
  // The getters
  // ---------------------------------------------------------------------

  /**
   * The loop the four location getters share: every present location of
   * every measure, in order, that is on the build's assembly overwrites the
   * result with its column, so the last one wins.
   */
  method LastOnBuild(cvs: ClinVarSet, g: Genome, c: Column) returns (r: Option<string>)
    ensures r == Project(SelectedFor(cvs, g), c)
  {
    var measures := cvs.referenceClinvarAssertion.measureSet.measure;
    r := None;
    for i := 0 to |measures|
      invariant r == Project(Selected(Locations(measures[..i]), AssemblyOf(g)), c)
    {
      var locs := measures[i].sequenceLocation;
      ghost var before := Locations(measures[..i]);
      assert before + locs[..0] == before;
      for j := 0 to |locs|
        invariant r == Project(Selected(before + locs[..j], AssemblyOf(g)), c)
      {
        TakeOneMore(locs, j);
        ConcatAssoc(before, locs[..j], [locs[j]]);
        SelectedAppend(before + locs[..j], locs[j], AssemblyOf(g));
        if locs[j].Some? {
          var loc := locs[j].value;
          match g {
            case Hg19 =>
              if loc.assembly == "GRCh37" {
                r := Some(ColumnOf(loc, c));
              }
            case Hg38 =>
              if loc.assembly == "GRCh38" {
                r := Some(ColumnOf(loc, c));
              }
          }
        }
      }
      assert locs[..|locs|] == locs;
      LocationsAppend(measures, i);
    }
    assert measures[..|measures|] == measures;
  }

  /** `print_chrom`: the chromosome of the last location on the build's assembly. */
  method PrintChrom(cvs: ClinVarSet, g: Genome) returns (r: Option<string>)
    ensures r == Project(SelectedFor(cvs, g), Chrom)
  {
    r := LastOnBuild(cvs, g, Chrom);
  }

  /** `print_pos`: the VCF position of the last location on the build's assembly. */
  method PrintPos(cvs: ClinVarSet, g: Genome) returns (r: Option<string>)
    ensures r == Project(SelectedFor(cvs, g), Pos)
  {
    r := LastOnBuild(cvs, g, Pos);
  }

  /** `print_ref`: the VCF reference allele of the last location on the build's assembly. */
  method PrintRef(cvs: ClinVarSet, g: Genome) returns (r: Option<string>)
    ensures r == Project(SelectedFor(cvs, g), RefAllele)
  {
    r := LastOnBuild(cvs, g, RefAllele);
  }

  /** `print_alt`: the VCF alternate allele of the last location on the build's assembly. */
  method PrintAlt(cvs: ClinVarSet, g: Genome) returns (r: Option<string>)
    ensures r == Project(SelectedFor(cvs, g), AltAllele)
  {
    r := LastOnBuild(cvs, g, AltAllele);
  }

  /**
   * The four getters agree: either all of them find nothing, or all four
   * read the same location, which is on the build's assembly.
   */
  lemma GettersShareLocation(cvs: ClinVarSet, g: Genome)
    ensures var sel := SelectedFor(cvs, g);
      && (sel.None? <==> Project(sel, Chrom).None? && Project(sel, Pos).None?
                         && Project(sel, RefAllele).None? && Project(sel, AltAllele).None?)
      && (sel.Some? ==>
            && sel.value.assembly == AssemblyOf(g)
            && Project(sel, Chrom) == Some(sel.value.chr)
            && Project(sel, Pos) == Some(sel.value.positionVcf)
            && Project(sel, RefAllele) == Some(sel.value.referenceAlleleVcf)
            && Project(sel, AltAllele) == Some(sel.value.alternateAlleleVcf))
  {
    SelectedOnItsBuild(cvs, g);
  }

  /** `print_rcv`: the RCV accession. */
  function PrintRcv(cvs: ClinVarSet): (r: string)
    ensures r == cvs.referenceClinvarAssertion.clinvarAccession.rcv
  {
    cvs.referenceClinvarAssertion.clinvarAccession.rcv
  }

  /** `print_date_last_evaluated`: the first germline classification's evaluation date. */
  function PrintDateLastEvaluated(cvs: ClinVarSet): (r: string)
    requires |cvs.referenceClinvarAssertion.classifications.germline| > 0
    ensures r == cvs.referenceClinvarAssertion.classifications.germline[0].description.dateLastEvaluated
  {
    cvs.referenceClinvarAssertion.classifications.germline[0].description.dateLastEvaluated
  }

  /** `print_description`: the first germline classification's text. */
  function PrintDescription(cvs: ClinVarSet): (r: string)
    requires |cvs.referenceClinvarAssertion.classifications.germline| > 0
    ensures r == cvs.referenceClinvarAssertion.classifications.germline[0].description.description
  {
    cvs.referenceClinvarAssertion.classifications.germline[0].description.description
  }

  /** Only the first germline classification is read: later ones change neither getter. */
  lemma FirstClassificationOnly(cvs: ClinVarSet, more: seq<GermlineClassification>)
    requires |cvs.referenceClinvarAssertion.classifications.germline| > 0
    ensures var germline := cvs.referenceClinvarAssertion.classifications.germline;
      var cvs' := cvs.(referenceClinvarAssertion := cvs.referenceClinvarAssertion.(
        classifications := Classifications(germline + more)));
      && PrintDescription(cvs') == PrintDescription(cvs)
      && PrintDateLastEvaluated(cvs') == PrintDateLastEvaluated(cvs)
  {
  }

  // ---------------------------------------------------------------------
  // The INFO column
  // ---------------------------------------------------------------------

  /** The classification as written in the INFO column: lower case, spaces as underscores. */
  function Normalize(s: string): (r: string)
    ensures |r| == |s|
    ensures ' ' !in r
    ensures forall i :: 0 <= i < |r| ==> !IsAsciiUpper(r[i])
    ensures forall i :: 0 <= i < |s| ==> r[i] == (if s[i] == ' ' then '_' else AsciiLower(s[i]))
  {
    ReplaceChar(LowerAscii(s), ' ', '_')
  }

  /** Normalising twice is normalising once. */
  lemma NormalizeIdempotent(s: string)
    ensures Normalize(Normalize(s)) == Normalize(s)
  {
    var r := Normalize(s);
    forall i | 0 <= i < |r| ensures Normalize(r)[i] == r[i] {
      assert r[i] != ' ' && !IsAsciiUpper(r[i]);
    }
  }

  /** Normalising adds no character other than lower-case letters and underscores. */
  lemma NormalizeKeeps(s: string, c: char)
    requires c !in s && c != '_' && !('a' <= c <= 'z')
    ensures c !in Normalize(s)
  {
    var r := Normalize(s);
    forall i | 0 <= i < |r| ensures r[i] != c {
      assert s[i] != c;
    }
  }

  const AccessionKey: string := "CLNACC="
  const SignificanceKey: string := "CLNSIG="

  /** `print_info`: the accession and the normalised classification, as `CLNACC=…;CLNSIG=…`. */
  function PrintInfo(cvs: ClinVarSet): (r: string)
    requires |cvs.referenceClinvarAssertion.classifications.germline| > 0
    ensures r == AccessionKey + PrintRcv(cvs) + ";" + SignificanceKey + Normalize(PrintDescription(cvs))
  {
    var fields := [AccessionKey + PrintRcv(cvs), SignificanceKey + Normalize(PrintDescription(cvs))];
    assert fields[1..] == [fields[1]];
    assert Join(fields, ";") == fields[0] + ";" + fields[1];
    ConcatAssoc(AccessionKey + PrintRcv(cvs) + ";", SignificanceKey, Normalize(PrintDescription(cvs)));
    Join(fields, ";")
  }

  /** Reads an INFO column back: two `;`-separated fields with the two keys, in order. */
  function ParseInfo(info: string): (r: Option<(string, string)>)
  {
    var parts := Split(info, ';');
    if |parts| == 2
      && |parts[0]| >= |AccessionKey| && parts[0][..|AccessionKey|] == AccessionKey
      && |parts[1]| >= |SignificanceKey| && parts[1][..|SignificanceKey|] == SignificanceKey
    then Some((parts[0][|AccessionKey|..], parts[1][|SignificanceKey|..]))
    else None
  }

  /**
   * The INFO column gives back the accession and the normalised
   * classification when neither holds a `;`.
   */
  lemma PrintInfoParses(cvs: ClinVarSet)
    requires |cvs.referenceClinvarAssertion.classifications.germline| > 0
    requires ';' !in PrintRcv(cvs) && ';' !in PrintDescription(cvs)
    ensures ParseInfo(PrintInfo(cvs)) == Some((PrintRcv(cvs), Normalize(PrintDescription(cvs))))
  {
    var acc := AccessionKey + PrintRcv(cvs);
    var sig := SignificanceKey + Normalize(PrintDescription(cvs));
    NormalizeKeeps(PrintDescription(cvs), ';');
    assert ';' !in AccessionKey && ';' !in SignificanceKey;
    SplitJoin([acc, sig], ';');
    assert acc[..|AccessionKey|] == AccessionKey && acc[|AccessionKey|..] == PrintRcv(cvs);
    assert sig[..|SignificanceKey|] == SignificanceKey && sig[|SignificanceKey|..] == Normalize(PrintDescription(cvs));
  }
}
