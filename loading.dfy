/**
 * `readFiles` (src/gofigure.go:58-71) and `parseBlobs` (src/gofigure.go:73-94).
 *
 * The file service's `GetContents` is the parameter `getContents`, and
 * `yaml.Unmarshal` into a fresh map is the parameter `unmarshal`; both are
 * partial, reporting failure as an `Err`.
 */
module Loading {

  import opened Results
  import opened Trees
  import opened Strings

  /** File contents keyed by lower-cased file name. */
  type Blobs = map<string, Bytes>

  /** The keys `readFiles` stores the files under. */
  function LowerNames(configFiles: seq<string>): set<string>
  {
    set f | f in configFiles :: Lower(f)
  }

  // ---------------------------------------------------------------------------
  // readFiles

  /** What `readFiles` returns after fetching `configFiles` one after another. */
  function ReadSpec(getContents: string -> Result<Bytes>, dirname: string, configFiles: seq<string>): Result<Blobs>
    decreases |configFiles|
  {
    if configFiles == [] then Ok(map[])
    else
      var last := |configFiles| - 1;
      match ReadSpec(getContents, dirname, configFiles[..last])
      case Err(e) => Err(e)
      case Ok(blobs) =>
        match getContents(Path(dirname, configFiles[last]))
        case Err(e) => Err(e)
        case Ok(file) => Ok(blobs[Lower(configFiles[last]) := file])
  }

  /** `readFiles`: the loop returns at the first fetch that fails. */
  method ReadFiles(getContents: string -> Result<Bytes>, dirname: string, configFiles: seq<string>)
    returns (r: Result<Blobs>)
    ensures r == ReadSpec(getContents, dirname, configFiles)
  {
    var blobs: Blobs := map[];
    for i := 0 to |configFiles|
      invariant ReadSpec(getContents, dirname, configFiles[..i]) == Ok(blobs)
    {
      var filename := configFiles[i];
      var file := getContents(Path(dirname, filename));
      assert configFiles[..i + 1][..i] == configFiles[..i];
      if file.Err? {
        ReadErrorSticks(getContents, dirname, configFiles, i + 1);
        return Err(file.error);
      }
      blobs := blobs[Lower(filename) := file.value];
    }
    assert configFiles[..|configFiles|] == configFiles;
    return Ok(blobs);
  }

  /** Once a prefix of the files has failed, reading the rest changes nothing. */
  lemma {:induction false} ReadErrorSticks(getContents: string -> Result<Bytes>, dirname: string, configFiles: seq<string>, i: nat)
    requires i <= |configFiles|
    requires ReadSpec(getContents, dirname, configFiles[..i]).Err?
    ensures ReadSpec(getContents, dirname, configFiles) == ReadSpec(getContents, dirname, configFiles[..i])
    decreases |configFiles|
  {
    if i < |configFiles| {
      var last := |configFiles| - 1;
      assert configFiles[..last][..i] == configFiles[..i];
      ReadErrorSticks(getContents, dirname, configFiles[..last], i);
    } else {
      assert configFiles[..i] == configFiles;
    }
  }

  /** Reading succeeds exactly when every fetch succeeds. */
  lemma {:induction false} ReadSucceedsIff(getContents: string -> Result<Bytes>, dirname: string, configFiles: seq<string>)
    ensures ReadSpec(getContents, dirname, configFiles).Ok? <==>
            forall i :: 0 <= i < |configFiles| ==> getContents(Path(dirname, configFiles[i])).Ok?
    decreases |configFiles|
  {
    if configFiles != [] {
      var last := |configFiles| - 1;
      var prefix := configFiles[..last];
      ReadSucceedsIff(getContents, dirname, prefix);
      assert forall i :: 0 <= i < last ==> prefix[i] == configFiles[i];
    }
  }

  /** A failed read reports the error of the first fetch that failed. */
  lemma {:induction false} ReadReportsFirstFailure(getContents: string -> Result<Bytes>, dirname: string, configFiles: seq<string>)
    requires ReadSpec(getContents, dirname, configFiles).Err?
    ensures exists i :: && 0 <= i < |configFiles|
                        && getContents(Path(dirname, configFiles[i])) == Err(ReadSpec(getContents, dirname, configFiles).error)
                        && forall j :: 0 <= j < i ==> getContents(Path(dirname, configFiles[j])).Ok?
    decreases |configFiles|
  {
    var last := |configFiles| - 1;
    var prefix := configFiles[..last];
    assert forall i :: 0 <= i < last ==> prefix[i] == configFiles[i];
    if ReadSpec(getContents, dirname, prefix).Err? {
      ReadReportsFirstFailure(getContents, dirname, prefix);
      var i :| && 0 <= i < |prefix|
               && getContents(Path(dirname, prefix[i])) == Err(ReadSpec(getContents, dirname, prefix).error)
               && forall j :: 0 <= j < i ==> getContents(Path(dirname, prefix[j])).Ok?;
      assert getContents(Path(dirname, configFiles[i])) == Err(ReadSpec(getContents, dirname, configFiles).error);
    } else {
      ReadSucceedsIff(getContents, dirname, prefix);
      assert getContents(Path(dirname, configFiles[last])) == Err(ReadSpec(getContents, dirname, configFiles).error);
    }
  }

  /** A successful read has one key per lower-cased file name, and no other. */
  lemma {:induction false} ReadKeys(getContents: string -> Result<Bytes>, dirname: string, configFiles: seq<string>)
    requires ReadSpec(getContents, dirname, configFiles).Ok?
    ensures ReadSpec(getContents, dirname, configFiles).value.Keys == LowerNames(configFiles)
    decreases |configFiles|
  {
    if configFiles != [] {
      var last := |configFiles| - 1;
      var prefix := configFiles[..last];
      ReadKeys(getContents, dirname, prefix);
      assert configFiles == prefix + [configFiles[last]];
      assert LowerNames(configFiles) == LowerNames(prefix) + {Lower(configFiles[last])};
    }
  }

  /**
   * Each key holds the contents fetched from `dirname/filename` for the last
   * file whose lower-cased name is that key.
   */
  lemma {:induction false} ReadValues(getContents: string -> Result<Bytes>, dirname: string, configFiles: seq<string>, i: int)
    requires ReadSpec(getContents, dirname, configFiles).Ok?
    requires 0 <= i < |configFiles|
    requires forall j :: i < j < |configFiles| ==> Lower(configFiles[j]) != Lower(configFiles[i])
    ensures getContents(Path(dirname, configFiles[i])).Ok?
    ensures Lower(configFiles[i]) in ReadSpec(getContents, dirname, configFiles).value
    ensures ReadSpec(getContents, dirname, configFiles).value[Lower(configFiles[i])]
            == getContents(Path(dirname, configFiles[i])).value
    decreases |configFiles|
  {
    ReadSucceedsIff(getContents, dirname, configFiles);
    var last := |configFiles| - 1;
    if i < last {
      var prefix := configFiles[..last];
      assert prefix[i] == configFiles[i];
      assert forall j :: i < j < |prefix| ==> prefix[j] == configFiles[j];
      ReadValues(getContents, dirname, prefix, i);
    }
  }

  // ---------------------------------------------------------------------------
  // parseBlobs

  /** Every blob decodes. */
  predicate AllDecode(unmarshal: Bytes -> Result<Document>, blobs: Blobs)
  {
    forall k :: k in blobs ==> unmarshal(blobs[k]).Ok?
  }

  /** The decoded documents, under the blobs' own keys. */
  function Parsed(unmarshal: Bytes -> Result<Document>, blobs: Blobs): (configs: map<string, Document>)
    requires AllDecode(unmarshal, blobs)
    ensures configs.Keys == blobs.Keys
  {
    map k | k in blobs :: unmarshal(blobs[k]).value
  }

  /**
   * `e` is the error `parseBlobs` reports: keys are decoded in descending
   * order, so it is the error of the greatest key that fails to decode.
   */
  ghost predicate IsParseError(unmarshal: Bytes -> Result<Document>, blobs: Blobs, e: Error)
  {
    exists g :: && g in blobs && unmarshal(blobs[g]) == Err(e)
                && forall k :: k in blobs && Less(g, k) ==> unmarshal(blobs[k]).Ok?
  }

  /** `parseBlobs`: collects the keys, sorts them in reverse, decodes each in turn. */
  method ParseBlobs(blobs: Blobs, unmarshal: Bytes -> Result<Document>)
    returns (r: Result<map<string, Document>>)
    ensures r.Ok? <==> forall k :: k in blobs ==> unmarshal(blobs[k]).Ok?
    ensures r.Ok? ==> r.value.Keys == blobs.Keys
    ensures r.Ok? ==> forall k :: k in blobs ==> r.value[k] == unmarshal(blobs[k]).value
    ensures r.Err? ==> exists g :: && g in blobs && unmarshal(blobs[g]) == Err(r.error)
                                   && forall k :: k in blobs && Less(g, k) ==> unmarshal(blobs[k]).Ok?
  {
    var keys := CollectKeys(blobs);
    keys := ReverseSort(keys);
    r := DecodeKeys(blobs, keys, unmarshal);
    if r.Err? {
      var i :| && 0 <= i < |keys| && unmarshal(blobs[keys[i]]) == Err(r.error)
               && forall j :: 0 <= j < i ==> unmarshal(blobs[keys[j]]).Ok?;
      forall k | k in blobs && Less(keys[i], k) ensures unmarshal(blobs[k]).Ok? {
        EarlierInDescending(keys, i, k);
        var j :| 0 <= j < i && keys[..i][j] == k;
      }
    }
  }

  /** The second loop of `parseBlobs`: decodes the blobs in the order of `keys`. */
  method DecodeKeys(blobs: Blobs, keys: seq<string>, unmarshal: Bytes -> Result<Document>)
    returns (r: Result<map<string, Document>>)
    requires forall k :: k in keys ==> k in blobs
    ensures r.Ok? <==> forall i :: 0 <= i < |keys| ==> unmarshal(blobs[keys[i]]).Ok?
    ensures r.Ok? ==> forall k :: k in r.value <==> k in keys
    ensures r.Ok? ==> forall k :: k in r.value ==> r.value[k] == unmarshal(blobs[k]).value
    ensures r.Err? ==> exists i :: && 0 <= i < |keys| && unmarshal(blobs[keys[i]]) == Err(r.error)
                                   && forall j :: 0 <= j < i ==> unmarshal(blobs[keys[j]]).Ok?
  {
    var configs: map<string, Document> := map[];
    for i := 0 to |keys|
      invariant forall k :: k in configs <==> k in keys[..i]
      invariant forall j :: 0 <= j < i ==> unmarshal(blobs[keys[j]]).Ok?
      invariant forall k :: k in configs ==> configs[k] == unmarshal(blobs[k]).value
    {
      var key := keys[i];
      var contents := unmarshal(blobs[key]);
      if contents.Err? {
        return Err(contents.error);
      }
      configs := configs[key := contents.value];
      assert keys[..i + 1] == keys[..i] + [key];
    }
    assert keys[..|keys|] == keys;
    return Ok(configs);
  }

  /** The first loop of `parseBlobs`: the map's keys, in Go's iteration order. */
  method CollectKeys<V>(blobs: map<string, V>) returns (keys: seq<string>)
    ensures forall k :: k in keys <==> k in blobs
    ensures forall i, j :: 0 <= i < j < |keys| ==> keys[i] != keys[j]
  {
    keys := [];
    var pending := blobs.Keys;
    while pending != {}
      invariant pending <= blobs.Keys
      invariant forall k :: k in keys <==> k in blobs && k !in pending
      invariant forall i, j :: 0 <= i < j < |keys| ==> keys[i] != keys[j]
      decreases pending
    {
      var key :| key in pending;
      keys := keys + [key];
      pending := pending - {key};
    }
  }

  /** In a descending sequence everything greater than `s[i]` comes before index `i`. */
  lemma EarlierInDescending(s: seq<string>, i: int, k: string)
    requires Descending(s) && 0 <= i < |s|
    requires k in s && Less(s[i], k)
    ensures k in s[..i]
  {
    var j :| 0 <= j < |s| && s[j] == k;
    if j < i {
      assert s[..i][j] == k;
    } else if j == i {
      LessIrreflexive(k);
    }
  }

  /**
   * The reverse sort makes the reported error independent of Go's map order:
   * only one key can be the greatest failing one.
   */
  lemma ParseErrorIsUnique(unmarshal: Bytes -> Result<Document>, blobs: Blobs, e1: Error, e2: Error)
    requires IsParseError(unmarshal, blobs, e1) && IsParseError(unmarshal, blobs, e2)
    ensures e1 == e2
  {
    var g1 :| && g1 in blobs && unmarshal(blobs[g1]) == Err(e1)
              && forall k :: k in blobs && Less(g1, k) ==> unmarshal(blobs[k]).Ok?;
    var g2 :| && g2 in blobs && unmarshal(blobs[g2]) == Err(e2)
              && forall k :: k in blobs && Less(g2, k) ==> unmarshal(blobs[k]).Ok?;
    if g1 != g2 {
      LessTotal(g1, g2);
    }
  }
}
