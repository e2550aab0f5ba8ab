/**
 * `replacePlaceholders` (src/gofigure.go:106-145): rebuilds the merged tree key
 * by key. A nested map is rebuilt recursively; a string leaf that contains
 * `ssm:` is replaced by the secret store's value for the text after the first
 * `ssm:`; otherwise a leaf that contains `env:` is replaced by the environment
 * variable named by the text after the first `env:`; any other leaf is kept.
 * A failing secret-store lookup anywhere aborts the whole call.
 *
 * The secret store (`loadSSMParameter`) is the parameter `ssm`, and the process
 * environment read by `os.Getenv` is the parameter `environ`.
 */
module Placeholders {

  import opened Results
  import opened Trees
  import opened Strings

  const SsmPrefix: string := "ssm:"
  const EnvPrefix: string := "env:"

  /** `os.Getenv`: an unset variable reads as the empty string. */
  function Getenv(environ: map<string, string>, name: string): (value: string)
    ensures name in environ ==> value == environ[name]
    ensures name !in environ ==> value == ""
  {
    if name in environ then environ[name] else ""
  }

  /** `i` is where the leftmost occurrence of `pat` in `s` starts. */
  ghost predicate FirstAt(s: string, pat: string, i: int)
  {
    OccursAt(s, pat, i) && forall j :: 0 <= j < i ==> !OccursAt(s, pat, j)
  }

  /** Where a string leaf is sent, and under which name. */
  datatype Lookup = Ssm(name: string) | Env(name: string) | Literal

  /**
   * The dispatch of src/gofigure.go:124-141: `ssm:` is looked for first, then
   * `env:`; the name is everything after the leftmost occurrence.
   */
  function Classify(param: string): (l: Lookup)
    ensures l.Ssm? <==> Contains(param, SsmPrefix)
    ensures l.Env? <==> !Contains(param, SsmPrefix) && Contains(param, EnvPrefix)
    ensures l.Ssm? ==> exists i :: FirstAt(param, SsmPrefix, i) && l.name == param[i + |SsmPrefix|..]
    ensures l.Env? ==> exists i :: FirstAt(param, EnvPrefix, i) && l.name == param[i + |EnvPrefix|..]
  {
    match FindFirst(param, SsmPrefix)
    case Some(i) =>
      assert FirstAt(param, SsmPrefix, i);
      Ssm(param[i + |SsmPrefix|..])
    case None =>
      match FindFirst(param, EnvPrefix)
      case Some(i) =>
        assert FirstAt(param, EnvPrefix, i);
        Env(param[i + |EnvPrefix|..])
      case None => Literal
  }

  /** The value a string leaf resolves to, or the secret store's error. */
  function ResolveLeaf(param: string, environ: map<string, string>, ssm: string -> Result<string>): (r: Result<string>)
    ensures Contains(param, SsmPrefix) ==>
              exists i :: FirstAt(param, SsmPrefix, i) && r == ssm(param[i + |SsmPrefix|..])
    ensures !Contains(param, SsmPrefix) && Contains(param, EnvPrefix) ==>
              exists i :: FirstAt(param, EnvPrefix, i) && r == Ok(Getenv(environ, param[i + |EnvPrefix|..]))
    ensures !Contains(param, SsmPrefix) && !Contains(param, EnvPrefix) ==> r == Ok(param)
  {
    match Classify(param)
    case Ssm(name) => ssm(name)
    case Env(name) => Ok(Getenv(environ, name))
    case Literal => Ok(param)
  }

  /** Only a secret-store lookup can fail. */
  predicate LeafFails(param: string, ssm: string -> Result<string>)
  {
    Classify(param).Ssm? && ssm(Classify(param).name).Err?
  }

  // ---------------------------------------------------------------------------
  // The resolved tree, as a specification

  /** No leaf anywhere in `t` makes a failing secret-store lookup. */
  predicate Succeeds(t: Tree, ssm: string -> Result<string>)
  {
    match t
    case Str(s) => !LeafFails(s, ssm)
    case Map(m) => forall k :: k in m ==> Succeeds(m[k], ssm)
  }

  /** The tree with every leaf replaced by what it resolves to. */
  function Resolved(t: Tree, environ: map<string, string>, ssm: string -> Result<string>): Tree
    requires Succeeds(t, ssm)
  {
    match t
    case Str(s) => Str(ResolveLeaf(s, environ, ssm).value)
    case Map(m) => Map(map k | k in m :: Resolved(m[k], environ, ssm))
  }

  /** The errors of all failing lookups in `t`, at any depth. */
  function Failures(t: Tree, ssm: string -> Result<string>): set<Error>
  {
    match t
    case Str(s) => if LeafFails(s, ssm) then {ssm(Classify(s).name).error} else {}
    case Map(m) => set k, e | k in m && e in Failures(m[k], ssm) :: e
  }

  /**
   * `replacePlaceholders`. Go ranges over the map in an unspecified order, so
   * when several lookups fail the error returned is that of any one of them.
   */
  method ReplacePlaceholders(config: map<string, Tree>, environ: map<string, string>, ssm: string -> Result<string>)
    returns (r: Result<map<string, Tree>>)
    ensures r.Ok? <==> Succeeds(Map(config), ssm)
    ensures r.Ok? ==> Succeeds(Map(config), ssm) && Map(r.value) == Resolved(Map(config), environ, ssm)
    ensures r.Err? ==> r.error in Failures(Map(config), ssm)
    decreases Map(config)
  {
    var mapped: map<string, Tree> := map[];
    var pending := config.Keys;
    while pending != {}
      invariant pending <= config.Keys
      invariant mapped.Keys == config.Keys - pending
      invariant forall k :: k in mapped ==> Succeeds(config[k], ssm) && mapped[k] == Resolved(config[k], environ, ssm)
      decreases pending
    {
      var key :| key in pending;
      var value := config[key];
      match value {
        case Map(unboxedMap) =>
          var inner := ReplacePlaceholders(unboxedMap, environ, ssm);
          if inner.Err? {
            ChildFailure(config, key, inner.error, ssm);
            return Err(inner.error);
          }
          mapped := mapped[key := Map(inner.value)];
        case Str(param) =>
          var resolved := ReplaceParam(param, environ, ssm);
          if resolved.Err? {
            ChildFailure(config, key, resolved.error, ssm);
            return Err(resolved.error);
          }
          mapped := mapped[key := Str(resolved.value)];
      }
      pending := pending - {key};
    }
    assert mapped == map k | k in config :: Resolved(config[k], environ, ssm);
    r := Ok(mapped);
  }

  /** The string-leaf branch of the loop body of `replacePlaceholders`. */
  method ReplaceParam(param: string, environ: map<string, string>, ssm: string -> Result<string>)
    returns (r: Result<string>)
    ensures r == ResolveLeaf(param, environ, ssm)
    ensures r.Err? <==> LeafFails(param, ssm)
    ensures r.Err? ==> Failures(Str(param), ssm) == {r.error}
  {
    var ssmIndex := FindFirst(param, SsmPrefix);
    if ssmIndex.Some? {
      var ssmParamName := param[ssmIndex.value + |SsmPrefix|..];
      var ssmParameter := ssm(ssmParamName);
      if ssmParameter.Err? {
        return Err(ssmParameter.error);
      }
      return Ok(ssmParameter.value);
    }
    var envIndex := FindFirst(param, EnvPrefix);
    if envIndex.Some? {
      var envParamName := param[envIndex.value + |EnvPrefix|..];
      return Ok(Getenv(environ, envParamName));
    }
    return Ok(param);
  }

  /** An error of one entry is an error of the map holding it. */
  lemma ChildFailure(config: map<string, Tree>, key: string, e: Error, ssm: string -> Result<string>)
    requires key in config && e in Failures(config[key], ssm)
    ensures !Succeeds(Map(config), ssm) && e in Failures(Map(config), ssm)
  {
    FailuresExactlyWhenNotSucceeds(config[key], ssm);
  }

  // ---------------------------------------------------------------------------
  // Properties of the resolver

  /** `t` and `u` are both string leaves, or maps with the same keys and alike values. */
  predicate SameShape(t: Tree, u: Tree)
  {
    match t
    case Str(_) => u.Str?
    case Map(m) => u.Map? && u.entries.Keys == m.Keys && forall k :: k in m ==> SameShape(m[k], u.entries[k])
  }

  /** Resolution keeps every map's keys and turns string leaves into string leaves. */
  lemma {:induction false} ResolvedSameShape(t: Tree, environ: map<string, string>, ssm: string -> Result<string>)
    requires Succeeds(t, ssm)
    ensures SameShape(t, Resolved(t, environ, ssm))
  {
    match t
    case Str(_) =>
    case Map(m) =>
      forall k | k in m ensures SameShape(m[k], Resolved(t, environ, ssm).entries[k]) {
        ResolvedSameShape(m[k], environ, ssm);
      }
  }

  /** Every leaf of `t` is literal: it holds neither `ssm:` nor `env:`. */
  predicate NoPlaceholders(t: Tree)
  {
    match t
    case Str(s) => Classify(s).Literal?
    case Map(m) => forall k :: k in m ==> NoPlaceholders(m[k])
  }

  /** A tree without placeholders resolves, without any lookup, to itself. */
  lemma {:induction false} LiteralTreeUnchanged(t: Tree, environ: map<string, string>, ssm: string -> Result<string>)
    requires NoPlaceholders(t)
    ensures Succeeds(t, ssm) && Resolved(t, environ, ssm) == t
  {
    match t
    case Str(_) =>
    case Map(m) =>
      forall k | k in m ensures Succeeds(m[k], ssm) && Resolved(m[k], environ, ssm) == m[k] {
        LiteralTreeUnchanged(m[k], environ, ssm);
      }
      assert Succeeds(t, ssm);
      assert (map k | k in m :: Resolved(m[k], environ, ssm)) == m;
  }

  /** The leaf at `path` in the resolved tree is what the input's leaf there resolves to. */
  lemma {:induction false} ResolvedAt(t: Tree, path: seq<string>, environ: map<string, string>, ssm: string -> Result<string>)
    requires Succeeds(t, ssm)
    requires At(t, path).Some? && At(t, path).value.Str?
    ensures !LeafFails(At(t, path).value.s, ssm)
    ensures At(Resolved(t, environ, ssm), path) == Some(Str(ResolveLeaf(At(t, path).value.s, environ, ssm).value))
    decreases |path|
  {
    if path != [] {
      ResolvedAt(t.entries[path[0]], path[1..], environ, ssm);
    }
  }

  /** The leaf at `path` makes a failing secret-store lookup. */
  predicate FailingLeafAt(t: Tree, path: seq<string>, ssm: string -> Result<string>)
  {
    At(t, path).Some? && At(t, path).value.Str? && LeafFails(At(t, path).value.s, ssm)
  }

  /** A failing lookup at any depth makes the whole resolution fail with that error. */
  lemma {:induction false} DeepFailureAborts(t: Tree, path: seq<string>, ssm: string -> Result<string>)
    requires FailingLeafAt(t, path, ssm)
    ensures !Succeeds(t, ssm)
    ensures ssm(Classify(At(t, path).value.s).name).error in Failures(t, ssm)
    decreases |path|
  {
    if path != [] {
      DeepFailureAborts(t.entries[path[0]], path[1..], ssm);
    }
  }

  /** Every reported error comes from a failing lookup at some leaf. */
  lemma {:induction false} FailureComesFromLeaf(t: Tree, e: Error, ssm: string -> Result<string>)
    requires e in Failures(t, ssm)
    ensures exists path :: FailingLeafAt(t, path, ssm) && ssm(Classify(At(t, path).value.s).name).error == e
  {
    match t
    case Str(_) =>
      assert FailingLeafAt(t, [], ssm);
    case Map(m) =>
      var k :| k in m && e in Failures(m[k], ssm);
      FailureComesFromLeaf(m[k], e, ssm);
      var path :| FailingLeafAt(m[k], path, ssm) && ssm(Classify(At(m[k], path).value.s).name).error == e;
      assert At(t, [k] + path) == At(m[k], path);
  }

  /** A failing tree always has an error to report, and a succeeding tree has none. */
  lemma {:induction false} FailuresExactlyWhenNotSucceeds(t: Tree, ssm: string -> Result<string>)
    ensures Succeeds(t, ssm) <==> Failures(t, ssm) == {}
  {
    match t
    case Str(_) =>
    case Map(m) =>
      if Succeeds(t, ssm) {
        forall k | k in m ensures Failures(m[k], ssm) == {} {
          FailuresExactlyWhenNotSucceeds(m[k], ssm);
        }
      } else {
        var k :| k in m && !Succeeds(m[k], ssm);
        FailuresExactlyWhenNotSucceeds(m[k], ssm);
        var e :| e in Failures(m[k], ssm);
        assert e in Failures(t, ssm);
      }
  }

  /** Resolution fails exactly when some leaf, at any depth, makes a failing lookup. */
  lemma FailsIffSomeLeafFails(t: Tree, ssm: string -> Result<string>)
    ensures !Succeeds(t, ssm) <==> exists path :: FailingLeafAt(t, path, ssm)
  {
    if !Succeeds(t, ssm) {
      FailuresExactlyWhenNotSucceeds(t, ssm);
      var e :| e in Failures(t, ssm);
      FailureComesFromLeaf(t, e, ssm);
    }
    if exists path :: FailingLeafAt(t, path, ssm) {
      var path :| FailingLeafAt(t, path, ssm);
      DeepFailureAborts(t, path, ssm);
    }
  }

  // ---------------------------------------------------------------------------
  // Leaf dispatch on the source's own test values

  /** An environment reference never fails; an unset variable gives "". */
  lemma EnvLookupNeverFails(param: string, environ: map<string, string>, ssm: string -> Result<string>)
    requires Classify(param).Env?
    ensures !LeafFails(param, ssm)
    ensures ResolveLeaf(param, environ, ssm) == Ok(Getenv(environ, Classify(param).name))
    ensures Classify(param).name !in environ ==> ResolveLeaf(param, environ, ssm) == Ok("")
  {
  }

  lemma SsmTestValueDispatch(environ: map<string, string>, ssm: string -> Result<string>)
    ensures Classify("ssm:/dev/unittesting/foo/bar") == Ssm("/dev/unittesting/foo/bar")
    ensures ResolveLeaf("ssm:/dev/unittesting/foo/bar", environ, ssm) == ssm("/dev/unittesting/foo/bar")
  {
    var s := "ssm:/dev/unittesting/foo/bar";
    assert OccursAt(s, SsmPrefix, 0);
  }

  lemma EnvTestValueDispatch(environ: map<string, string>, ssm: string -> Result<string>)
    ensures Classify("env:GOFIG_UNITEST") == Env("GOFIG_UNITEST")
    ensures "GOFIG_UNITEST" in environ ==> ResolveLeaf("env:GOFIG_UNITEST", environ, ssm) == Ok(environ["GOFIG_UNITEST"])
    ensures "GOFIG_UNITEST" !in environ ==> ResolveLeaf("env:GOFIG_UNITEST", environ, ssm) == Ok("")
  {
    var s := "env:GOFIG_UNITEST";
    assert OccursAt(s, EnvPrefix, 0);
    NoOccurrenceWithoutFirstChar(s, SsmPrefix);
  }

  /** `ssm:` wins over an earlier `env:`, and the name follows the first `ssm:`. */
  lemma SsmTakesPrecedence(ssm: string -> Result<string>)
    ensures Classify("env:ssm:x") == Ssm("x")
  {
    var s := "env:ssm:x";
    assert OccursAt(s, SsmPrefix, 4);
    NoOccurrenceWithoutFirstChar(s[..4], SsmPrefix);
    forall j | 0 <= j < 4 ensures !OccursAt(s, SsmPrefix, j) {
      assert s[j] == s[..4][j];
    }
  }

  /** The prefix is not anchored: a reference in the middle of a leaf is resolved too. */
  lemma UnanchoredMatch()
    ensures Classify("my env:HOME") == Env("HOME")
  {
    var s := "my env:HOME";
    assert OccursAt(s, EnvPrefix, 3);
    NoOccurrenceWithoutFirstChar(s[..3], EnvPrefix);
    forall j | 0 <= j < 3 ensures !OccursAt(s, EnvPrefix, j) {
      assert s[j] == s[..3][j];
    }
    NoOccurrenceWithoutFirstChar(s, SsmPrefix);
  }

  /** A pattern cannot start at a character other than its first one. */
  lemma NoOccurrenceWithoutFirstChar(s: string, pat: string)
    requires pat != [] && pat[0] !in s
    ensures forall i :: 0 <= i < |s| ==> !OccursAt(s, pat, i)
  {
  }
}
