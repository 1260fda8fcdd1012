/**
 * The command line's parsed form: the optional input and output paths and
 * the two genome-build flags, and how the flags choose a build.
 */
module Cli {

  import opened Common

  /** A genome build. */
  datatype Genome = Hg19 | Hg38

  /** The `--hg19` and `--hg38` flags. */
  datatype GenomeOption = GenomeOption(hg19: bool, hg38: bool)

  /** The parsed command line; paths are kept as text. */
  datatype Command = Command(input: Option<string>, output: Option<string>, genome: GenomeOption)

  /** `Command::input`: the input path, if one was given. */
  function Input(c: Command): (r: Option<string>)
    ensures r == c.input
  {
    c.input
  }

  /** `Command::output`: the output path, if one was given. */
  function Output(c: Command): (r: Option<string>)
    ensures r == c.output
  {
    c.output
  }

  /** `Command::genome`: GRCh37 only for `--hg19` alone; GRCh38 otherwise, by default included. */
  function GenomeOf(c: Command): (g: Genome)
    ensures g == Hg19 <==> c.genome.hg19 && !c.genome.hg38
  {
    match c.genome
    case GenomeOption(true, false) => Hg19
    case GenomeOption(false, true) => Hg38
    case _ => Hg38
  }

  /** The four flag settings: no flag and both flags fall back to GRCh38. */
  lemma GenomeCases(input: Option<string>, output: Option<string>)
    ensures GenomeOf(Command(input, output, GenomeOption(true, false))) == Hg19
    ensures GenomeOf(Command(input, output, GenomeOption(false, true))) == Hg38
    ensures GenomeOf(Command(input, output, GenomeOption(false, false))) == Hg38
    ensures GenomeOf(Command(input, output, GenomeOption(true, true))) == Hg38
  {
  }

  /** The accessors give back the paths the command was built with. */
  lemma AccessorsGiveBack(input: Option<string>, output: Option<string>, genome: GenomeOption)
    ensures Input(Command(input, output, genome)) == input
    ensures Output(Command(input, output, genome)) == output
  {
  }

  /** The paths do not affect the build. */
  lemma GenomeIgnoresPaths(c: Command, input: Option<string>, output: Option<string>)
    ensures GenomeOf(c.(input := input, output := output)) == GenomeOf(c)
  {
  }
}
