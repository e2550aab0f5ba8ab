/**
 * The public entry points `Build` and `Load` (src/gofigure.go:27-56) and the
 * `Gofigure` struct (src/gofigure.go:15-25): read, parse, merge and resolve,
 * in that order, returning the first error any stage reports.
 */
module Gofigure {

  import opened Results
  import opened Trees
  import opened Merge
  import opened Placeholders
  import opened Loading

  /** The built configuration. */
  datatype Gofigure = Gofigure(configuration: map<string, Tree>) {
    function Configuration(): map<string, Tree>
    {
      configuration
    }
  }

  /** The merged document `Build` hands to the resolver when reading and parsing succeed. */
  ghost function MergedSpec(getContents: string -> Result<Bytes>, unmarshal: Bytes -> Result<Document>,
                            dirname: string, configFiles: seq<string>, order: seq<string>): Document
    requires IsEnumeration(order, LowerNames(configFiles))
    requires ReadSpec(getContents, dirname, configFiles).Ok?
    requires AllDecode(unmarshal, ReadSpec(getContents, dirname, configFiles).value)
  {
    ReadKeys(getContents, dirname, configFiles);
    MergeInOrder(Parsed(unmarshal, ReadSpec(getContents, dirname, configFiles).value), order)
  }

  /**
   * What `Build` may return: the read error if reading fails; otherwise the
   * parse error if decoding fails; otherwise the resolved merged document, or
   * the error of one failing secret-store lookup.
   */
  ghost predicate BuildOutcome(getContents: string -> Result<Bytes>, unmarshal: Bytes -> Result<Document>,
                               environ: map<string, string>, ssm: string -> Result<string>,
                               dirname: string, configFiles: seq<string>, order: seq<string>,
                               r: Result<Gofigure>)
    requires IsEnumeration(order, LowerNames(configFiles))
  {
    match ReadSpec(getContents, dirname, configFiles)
    case Err(e) => r == Err(e)
    case Ok(blobs) =>
      if !AllDecode(unmarshal, blobs) then
        r.Err? && IsParseError(unmarshal, blobs, r.error)
      else
        var merged := Map(MergedSpec(getContents, unmarshal, dirname, configFiles, order));
        if Succeeds(merged, ssm) then
          r == Ok(Gofigure(Resolved(merged, environ, ssm).entries))
        else
          r.Err? && r.error in Failures(merged, ssm)
  }

  /**
   * `Build`. Go merges the parsed documents in its map iteration order, which
   * is `order` here: an enumeration of the lower-cased file names.
   */
  method Build(getContents: string -> Result<Bytes>, unmarshal: Bytes -> Result<Document>,
               environ: map<string, string>, ssm: string -> Result<string>,
               dirname: string, configFiles: seq<string>, order: seq<string>)
    returns (r: Result<Gofigure>)
    requires IsEnumeration(order, LowerNames(configFiles))
    ensures BuildOutcome(getContents, unmarshal, environ, ssm, dirname, configFiles, order, r)
    ensures r.Ok? <==> && ReadSpec(getContents, dirname, configFiles).Ok?
                       && AllDecode(unmarshal, ReadSpec(getContents, dirname, configFiles).value)
                       && Succeeds(Map(MergedSpec(getContents, unmarshal, dirname, configFiles, order)), ssm)
  {
    var blobs := ReadFiles(getContents, dirname, configFiles);
    if blobs.Err? {
      return Err(blobs.error);
    }

    var configs := ParseBlobs(blobs.value, unmarshal);
    if configs.Err? {
      return Err(configs.error);
    }
    assert configs.value == Parsed(unmarshal, blobs.value);
    ReadKeys(getContents, dirname, configFiles);

    var configWithPlaceholders := MergeConfigs(configs.value, order);
    var config := ReplacePlaceholders(configWithPlaceholders, environ, ssm);
    if config.Err? {
      return Err(config.error);
    }

    return Ok(Gofigure(config.value));
  }

  /**
   * `Load`: `Build`, then the conversion into the caller's structure, which
   * `convert` stands for (a YAML marshal and unmarshal in the source).
   */
  method Load<D>(getContents: string -> Result<Bytes>, unmarshal: Bytes -> Result<Document>,
                 environ: map<string, string>, ssm: string -> Result<string>,
                 convert: map<string, Tree> -> Result<D>,
                 dirname: string, configFiles: seq<string>, order: seq<string>)
    returns (r: Result<D>)
    requires IsEnumeration(order, LowerNames(configFiles))
    ensures exists built :: && BuildOutcome(getContents, unmarshal, environ, ssm, dirname, configFiles, order, built)
                            && r == match built
                                    case Err(e) => Err(e)
                                    case Ok(gofigure) => convert(gofigure.Configuration())
  {
    var gofigure := Build(getContents, unmarshal, environ, ssm, dirname, configFiles, order);
    if gofigure.Err? {
      return Err(gofigure.error);
    }
    r := convert(gofigure.value.Configuration());
  }

  /**
   * Whatever order Go picks for its maps, `Build` either succeeds on the same
   * inputs or fails on them; when it succeeds, or fails reading or parsing, the
   * result is fully determined. Only the choice among several failing
   * secret-store lookups is left open.
   */
  lemma BuildIsDeterminedUpToLookupError(getContents: string -> Result<Bytes>, unmarshal: Bytes -> Result<Document>,
                                         environ: map<string, string>, ssm: string -> Result<string>,
                                         dirname: string, configFiles: seq<string>, order: seq<string>,
                                         r1: Result<Gofigure>, r2: Result<Gofigure>)
    requires IsEnumeration(order, LowerNames(configFiles))
    requires BuildOutcome(getContents, unmarshal, environ, ssm, dirname, configFiles, order, r1)
    requires BuildOutcome(getContents, unmarshal, environ, ssm, dirname, configFiles, order, r2)
    ensures r1.Ok? <==> r2.Ok?
    ensures r1.Ok? ==> r1 == r2
    ensures ReadSpec(getContents, dirname, configFiles).Err? ==> r1 == r2
    ensures (ReadSpec(getContents, dirname, configFiles).Ok? &&
             !AllDecode(unmarshal, ReadSpec(getContents, dirname, configFiles).value)) ==> r1 == r2
  {
    var read := ReadSpec(getContents, dirname, configFiles);
    if read.Ok? && !AllDecode(unmarshal, read.value) {
      ParseErrorIsUnique(unmarshal, read.value, r1.error, r2.error);
    }
  }

  /**
   * Documents with disjoint keys give the same `Build` result in every merge
   * order, provided no secret-store lookup fails.
   */
  lemma DisjointDocumentsBuildAlike(getContents: string -> Result<Bytes>, unmarshal: Bytes -> Result<Document>,
                                    environ: map<string, string>, ssm: string -> Result<string>,
                                    dirname: string, configFiles: seq<string>,
                                    order1: seq<string>, order2: seq<string>,
                                    r1: Result<Gofigure>, r2: Result<Gofigure>)
    requires IsEnumeration(order1, LowerNames(configFiles)) && IsEnumeration(order2, LowerNames(configFiles))
    requires ReadSpec(getContents, dirname, configFiles).Ok?
    requires AllDecode(unmarshal, ReadSpec(getContents, dirname, configFiles).value)
    requires var configs := Parsed(unmarshal, ReadSpec(getContents, dirname, configFiles).value);
             forall n, m :: n in configs && m in configs && n != m ==> configs[n].Keys !! configs[m].Keys
    requires BuildOutcome(getContents, unmarshal, environ, ssm, dirname, configFiles, order1, r1)
    requires BuildOutcome(getContents, unmarshal, environ, ssm, dirname, configFiles, order2, r2)
    requires r1.Ok?
    ensures r1 == r2
  {
    ReadKeys(getContents, dirname, configFiles);
    var configs := Parsed(unmarshal, ReadSpec(getContents, dirname, configFiles).value);
    DisjointMergeIsOrderIndependent(configs, order1, order2);
  }
}
