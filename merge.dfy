/**
 * `mergeConfigs` (src/gofigure.go:96-104): folds the parsed documents into one
 * map. For every top-level key the value of a document visited later replaces
 * the earlier value whole; nothing below the top level is merged.
 *
 * Go visits the documents by ranging over a map, in an order the language
 * leaves unspecified. The model takes that order as a parameter, `order`, and
 * proves separately what holds for every order and what holds for a given one.
 */
module Merge {

  import opened Trees
  import opened Strings
  import Loading

  /** `order` lists every name of `names` exactly once: one run of `range`. */
  predicate IsEnumeration(order: seq<string>, names: set<string>)
  {
    && (forall i, j :: 0 <= i < j < |order| ==> order[i] != order[j])
    && (forall i :: 0 <= i < |order| ==> order[i] in names)
    && (forall n :: n in names ==> n in order)
  }

  /** The fold `mergeConfigs` performs when it visits the documents in `order`. */
  function MergeInOrder(configs: map<string, Document>, order: seq<string>): Document
    requires forall n :: n in order ==> n in configs
  {
    if order == [] then map[]
    else MergeInOrder(configs, order[..|order| - 1]) + configs[order[|order| - 1]]
  }

  /** `mergeConfigs`, visiting the documents in `order`. */
  method MergeConfigs(configs: map<string, Document>, order: seq<string>) returns (config: Document)
    requires IsEnumeration(order, configs.Keys)
    ensures config == MergeInOrder(configs, order)
    ensures forall k :: k in config <==> exists n :: n in configs && k in configs[n]
    ensures forall k :: k in config ==> exists n :: n in configs && k in configs[n] && config[k] == configs[n][k]
  {
    config := map[];
    for i := 0 to |order|
      invariant config == MergeInOrder(configs, order[..i])
    {
      var configFile := configs[order[i]];
      var pending := configFile.Keys;
      ghost var before := config;
      while pending != {}
        invariant pending <= configFile.Keys
        invariant config == before + map k | k in configFile.Keys - pending :: configFile[k]
        decreases pending
      {
        var key :| key in pending;
        config := config[key := configFile[key]];
        pending := pending - {key};
      }
      assert (map k | k in configFile.Keys - {} :: configFile[k]) == configFile;
      assert order[..i + 1][..i] == order[..i];
    }
    assert order[..|order|] == order;
    MergedKeySet(configs, order);
    MergedValueFromSomeDocument(configs, order);
  }

  // ---------------------------------------------------------------------------
  // Facts about one given order

  /** A key is in the result exactly when some visited document has it. */
  lemma {:induction false} MergeKeys(configs: map<string, Document>, order: seq<string>, k: string)
    requires forall n :: n in order ==> n in configs
    ensures k in MergeInOrder(configs, order) <==> exists i :: 0 <= i < |order| && k in configs[order[i]]
    decreases |order|
  {
    if order != [] {
      var prefix := order[..|order| - 1];
      MergeKeys(configs, prefix, k);
      if exists i :: 0 <= i < |order| && k in configs[order[i]] {
        var i :| 0 <= i < |order| && k in configs[order[i]];
        if i < |order| - 1 {
          assert prefix[i] == order[i];
        }
      }
    }
  }

  /** Last writer wins: the value comes from the last document that has the key. */
  lemma {:induction false} MergeLastWriterWins(configs: map<string, Document>, order: seq<string>, i: int, k: string)
    requires forall n :: n in order ==> n in configs
    requires 0 <= i < |order| && k in configs[order[i]]
    requires forall j :: i < j < |order| ==> k !in configs[order[j]]
    ensures k in MergeInOrder(configs, order)
    ensures MergeInOrder(configs, order)[k] == configs[order[i]][k]
    decreases |order|
  {
    if i < |order| - 1 {
      var prefix := order[..|order| - 1];
      assert prefix[i] == order[i];
      MergeLastWriterWins(configs, prefix, i, k);
    }
  }

  /** Every value of the result is the whole value the last owner of its key holds. */
  lemma {:induction false} MergeProvenance(configs: map<string, Document>, order: seq<string>, k: string)
    requires forall n :: n in order ==> n in configs
    requires k in MergeInOrder(configs, order)
    ensures exists i :: && 0 <= i < |order| && k in configs[order[i]]
                        && MergeInOrder(configs, order)[k] == configs[order[i]][k]
                        && forall j :: i < j < |order| ==> k !in configs[order[j]]
    decreases |order|
  {
    var last := |order| - 1;
    if k !in configs[order[last]] {
      var prefix := order[..last];
      MergeProvenance(configs, prefix, k);
      var i :| && 0 <= i < |prefix| && k in configs[prefix[i]]
               && MergeInOrder(configs, prefix)[k] == configs[prefix[i]][k]
               && forall j :: i < j < |prefix| ==> k !in configs[prefix[j]];
      assert prefix[i] == order[i];
      forall j | i < j < |order| ensures k !in configs[order[j]] {
        if j < last {
          assert prefix[j] == order[j];
        }
      }
    }
  }

  // ---------------------------------------------------------------------------
  // Facts that hold whatever order Go picks

  /** The result's keys are exactly the union of the documents' top-level keys. */
  lemma MergedKeySet(configs: map<string, Document>, order: seq<string>)
    requires IsEnumeration(order, configs.Keys)
    ensures forall k :: k in MergeInOrder(configs, order) <==> exists n :: n in configs && k in configs[n]
  {
    forall k ensures k in MergeInOrder(configs, order) <==> exists n :: n in configs && k in configs[n] {
      MergeKeys(configs, order, k);
      if exists n :: n in configs && k in configs[n] {
        var n :| n in configs && k in configs[n];
        var i :| 0 <= i < |order| && order[i] == n;
      }
    }
  }

  /** Each result value is the entire value some input document holds at that key. */
  lemma MergedValueFromSomeDocument(configs: map<string, Document>, order: seq<string>)
    requires IsEnumeration(order, configs.Keys)
    ensures forall k :: k in MergeInOrder(configs, order) ==>
              exists n :: n in configs && k in configs[n] && MergeInOrder(configs, order)[k] == configs[n][k]
  {
    forall k | k in MergeInOrder(configs, order)
      ensures exists n :: n in configs && k in configs[n] && MergeInOrder(configs, order)[k] == configs[n][k]
    {
      MergeProvenance(configs, order, k);
      var i :| 0 <= i < |order| && k in configs[order[i]] && MergeInOrder(configs, order)[k] == configs[order[i]][k];
      assert order[i] in configs;
    }
  }

  /** A key that only one document holds keeps that document's value. */
  lemma SoleOwnerKeepsValue(configs: map<string, Document>, order: seq<string>, n: string, k: string)
    requires IsEnumeration(order, configs.Keys)
    requires n in configs && k in configs[n]
    requires forall m :: m in configs && m != n ==> k !in configs[m]
    ensures k in MergeInOrder(configs, order) && MergeInOrder(configs, order)[k] == configs[n][k]
  {
    var i :| 0 <= i < |order| && order[i] == n;
    forall j | i < j < |order| ensures k !in configs[order[j]] {
      assert order[j] != order[i];
    }
    MergeLastWriterWins(configs, order, i, k);
  }

  /** Documents with pairwise disjoint keys merge to the same map in every order. */
  lemma DisjointMergeIsOrderIndependent(configs: map<string, Document>, order1: seq<string>, order2: seq<string>)
    requires IsEnumeration(order1, configs.Keys) && IsEnumeration(order2, configs.Keys)
    requires forall n, m :: n in configs && m in configs && n != m ==> configs[n].Keys !! configs[m].Keys
    ensures MergeInOrder(configs, order1) == MergeInOrder(configs, order2)
  {
    var r1, r2 := MergeInOrder(configs, order1), MergeInOrder(configs, order2);
    MergedKeySet(configs, order1);
    MergedKeySet(configs, order2);
    forall k | k in r1 ensures r1[k] == r2[k] {
      var n :| n in configs && k in configs[n];
      forall m | m in configs && m != n ensures k !in configs[m] {
        assert configs[n].Keys !! configs[m].Keys;
      }
      SoleOwnerKeepsValue(configs, order1, n, k);
      SoleOwnerKeepsValue(configs, order2, n, k);
    }
  }

  // ---------------------------------------------------------------------------
  // The merge in reverse-sorted order

  /**
   * Visiting the documents in descending name order, a key gets the value of
   * the smallest name that holds it, because that document comes last.
   */
  lemma SortedMergeSmallestNameWins(configs: map<string, Document>, order: seq<string>, n: string, k: string)
    requires IsEnumeration(order, configs.Keys) && Descending(order)
    requires n in configs && k in configs[n]
    requires forall m :: m in configs && k in configs[m] && m != n ==> Less(n, m)
    ensures k in MergeInOrder(configs, order) && MergeInOrder(configs, order)[k] == configs[n][k]
  {
    var i :| 0 <= i < |order| && order[i] == n;
    forall j | i < j < |order| ensures k !in configs[order[j]] {
      assert order[j] != n && !Less(order[i], order[j]);
    }
    MergeLastWriterWins(configs, order, i, k);
  }

  /**
   * `mergeConfigs` as the reverse sort in `parseBlobs` evidently meant it: the
   * documents are visited in descending name order, so for each key the
   * document with the smallest name wins (`config.dev.yml` over `config.yml`).
   */
  method MergeSortedConfigs(configs: map<string, Document>) returns (config: Document)
    ensures forall k :: k in config <==> exists n :: n in configs && k in configs[n]
    ensures forall n, k :: n in configs && k in configs[n] &&
                           (forall m :: m in configs && k in configs[m] && m != n ==> Less(n, m)) ==>
                             k in config && config[k] == configs[n][k]
  {
    var names := Loading.CollectKeys(configs);
    var order := ReverseSort(names);
    PermutationKeepsDistinct(names, order);
    config := MergeConfigs(configs, order);
    forall n, k | n in configs && k in configs[n] &&
                  (forall m :: m in configs && k in configs[m] && m != n ==> Less(n, m))
      ensures k in config && config[k] == configs[n][k]
    {
      SortedMergeSmallestNameWins(configs, order, n, k);
    }
  }

  /** With the sorted order the source's test files give the dev value every time. */
  lemma SortedMergeLetsDevWin()
    ensures var configs := map["config.yml" := map["db" := Str("local")],
                               "config.dev.yml" := map["db" := Str("dev")]];
            forall order :: IsEnumeration(order, configs.Keys) && Descending(order) ==>
              "db" in MergeInOrder(configs, order) && MergeInOrder(configs, order)["db"] == Str("dev")
  {
    var configs := map["config.yml" := map["db" := Str("local")],
                       "config.dev.yml" := map["db" := Str("dev")]];
    var dev, base := "config.dev.yml", "config.yml";
    assert dev[..7] == base[..7];
    LessAfterCommonPrefix(dev, base, 7);
    assert dev[7..] == "dev.yml" && base[7..] == "yml";
    forall order | IsEnumeration(order, configs.Keys) && Descending(order)
      ensures "db" in MergeInOrder(configs, order) && MergeInOrder(configs, order)["db"] == Str("dev")
    {
      SortedMergeSmallestNameWins(configs, order, dev, "db");
    }
  }

  // ---------------------------------------------------------------------------
  // What the fold does on the override case exercised by the source's tests

  /**
   * With conflicting keys the winner depends on the visiting order: the same
   * two files give different results under the two possible orders.
   */
  lemma OverrideDependsOnOrder()
    ensures var configs := map["config.yml" := map["db" := Str("local")],
                               "config.dev.yml" := map["db" := Str("dev")]];
            && IsEnumeration(["config.yml", "config.dev.yml"], configs.Keys)
            && IsEnumeration(["config.dev.yml", "config.yml"], configs.Keys)
            && MergeInOrder(configs, ["config.yml", "config.dev.yml"])["db"] == Str("dev")
            && MergeInOrder(configs, ["config.dev.yml", "config.yml"])["db"] == Str("local")
  {
    var configs := map["config.yml" := map["db" := Str("local")],
                       "config.dev.yml" := map["db" := Str("dev")]];
    var o1, o2 := ["config.yml", "config.dev.yml"], ["config.dev.yml", "config.yml"];
    assert o1[..1] == ["config.yml"] && o2[..1] == ["config.dev.yml"];
  }

  /**
   * No deep merge: a later document's nested map replaces the earlier nested
   * map whole, so sibling keys of the earlier one are dropped.
   */
  lemma NestedMapsAreReplacedWhole()
    ensures var base := map["db" := Map(map["user" := Str("a"), "pass" := Str("env:DB_PASS")])];
            var override := map["db" := Map(map["user" := Str("b")])];
            var configs := map["base" := base, "override" := override];
            MergeInOrder(configs, ["base", "override"]) == map["db" := Map(map["user" := Str("b")])]
  {
    var base := map["db" := Map(map["user" := Str("a"), "pass" := Str("env:DB_PASS")])];
    var override := map["db" := Map(map["user" := Str("b")])];
    var configs := map["base" := base, "override" := override];
    var o := ["base", "override"];
    assert o[..1] == ["base"] && o[..1][..0] == [];
    assert MergeInOrder(configs, o[..1]) == map[] + base;
    assert MergeInOrder(configs, o) == MergeInOrder(configs, o[..1]) + override;
    assert (map[] + base) + override == override;
  }
}
