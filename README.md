# gofigure in Dafny

A model of the configuration pipeline of gofigure (`src/gofigure.go`). `Build` runs four stages in order:

1. It reads a list of configuration files from a file service. Each file is stored under its lower-cased name.
2. It decodes every file into a YAML document.
3. It merges the documents key by key at the top level, so a later document wins.
4. It walks the merged tree and replaces every string leaf that holds an `ssm:` reference with a value from the AWS SSM parameter store, and every leaf that holds an `env:` reference with the value of an environment variable.

The first error from any stage is returned unchanged. `Load` does the same and then converts the tree into the caller's structure.

The model follows the Go code stage by stage. Each stage is a method with the loop the source has. Each method is proved against a specification function, and lemmas about that function state what the stage promises.

| file | module | models |
|---|---|---|
| `results.dfy` | `Results` | `Error`, `Option`, `Result` |
| `trees.dfy` | `Trees` | the decoded value `Tree` (a string leaf or a nested map), bytes, paths into a tree |
| `strings.dfy` | `Strings` | `fmt.Sprintf("%v/%v")`, `strings.ToLower`, Go's string order, the reverse sort, the leftmost-match search of the two regular expressions |
| `merge.dfy` | `Merge` | `mergeConfigs` |
| `placeholders.dfy` | `Placeholders` | `replacePlaceholders` |
| `loading.dfy` | `Loading` | `readFiles`, `parseBlobs` |
| `gofigure.dfy` | `Gofigure` | the `Gofigure` struct, `Build`, `Load` |

The collaborators the code calls are parameters:
- the file service's `GetContents` is `getContents: string -> Result<Bytes>`;
- `yaml.Unmarshal` is `unmarshal: Bytes -> Result<Document>`;
- `loadSSMParameter` is `ssm: string -> Result<string>`;
- the process environment (`os.Getenv`) is `environ: map<string, string>`, where a missing name reads as `""`;
- `convertToDestination` is `convert: map<string, Tree> -> Result<D>`.

Go ranges over maps in an unspecified order, and that order matters here:
- In `mergeConfigs` it decides which document wins a conflicting key. The model takes the order as a parameter `order`, which must list each parsed document's name exactly once.
- In `replacePlaceholders` and in the first loop of `parseBlobs`, the model picks the next key with `:|`. The contracts then hold for every order.

Where the code behaves differently from what its tests or a reader might expect, the model follows the code:
- The code does not merge nested maps. A later document's value for a top-level key replaces the earlier value whole. Merging `{db: {user: a, pass: env:DB_PASS}}` with a later `{db: {user: b}}` drops `pass`, as `Merge.NestedMapsAreReplacedWhole` shows.
- The merge order is Go's map iteration order, not the order the files were given. `parseBlobs` reverse-sorts the keys, but it then stores the documents in a map, so the sorted order is lost before `mergeConfigs` ranges over them. `Merge.OverrideDependsOnOrder` shows that both winners are possible. See "## Findings".
- The prefixes are not anchored. `(^|\A)?` is an optional group, so `ssm:` and `env:` match anywhere in the string. `ssm:` is checked first, so `env:ssm:x` goes to the secret store with the name `x`.
- A failing lookup returns the store's error unchanged. It carries no key path.

The reverse sort does have one observable effect. When several files fail to decode, it decides which error comes back: the error of the greatest failing key. `Loading.ParseErrorIsUnique` proves that this choice does not depend on map order.

## Model

| member | source | states |
|---|---|---|
| Merge.MergeConfigs | src/gofigure.go:96-104 | visiting the documents in `order` gives the last-writer-wins fold `MergeInOrder`; a key is in the result iff some document has it; each value is the whole value some document holds at that key |
| Merge.MergeKeys | src/gofigure.go:98-101 | for a given order, a key is in the result iff some visited document has it |
| Merge.MergeLastWriterWins | src/gofigure.go:98-101 | for a given order, the value at a key is the one from the last document that has the key |
| Merge.MergeProvenance | src/gofigure.go:98-101 | every result value comes from a document that has the key, and no later document has it |
| Merge.MergedKeySet | src/gofigure.go:96-104 | for every visiting order, the result's key set is the union of the documents' top-level key sets |
| Merge.MergedValueFromSomeDocument | src/gofigure.go:98-101 | for every visiting order, each result value is the entire value some document holds at that key (no deep merge) |
| Merge.SoleOwnerKeepsValue | src/gofigure.go:98-101 | a key held by only one document keeps that document's value in every order |
| Merge.DisjointMergeIsOrderIndependent | src/gofigure.go:98-101 | documents with pairwise disjoint keys merge to the same map in any two orders |
| Merge.OverrideDependsOnOrder | src/gofigure.go:98-101 | with `config.yml` and `config.dev.yml` both setting `db`, one visiting order yields the dev value and the other the base value |
| Merge.NestedMapsAreReplacedWhole | src/gofigure.go:99-100 | a later nested map replaces an earlier one whole; the earlier sibling `pass` disappears |
| Placeholders.ReplacePlaceholders | src/gofigure.go:106-145 | succeeds iff no leaf at any depth makes a failing secret-store lookup; on success the result is the tree with every leaf resolved; on failure the error is one failing lookup's error |
| Placeholders.ReplaceParam | src/gofigure.go:122-141 | a leaf resolves as the dispatch prescribes; it fails iff it makes a secret-store lookup that fails, and then that lookup's error is the only failure |
| Placeholders.Classify | src/gofigure.go:124-139 | a leaf goes to the secret store iff it contains `ssm:`; it reads the environment iff it contains `env:` but not `ssm:`; the name is the text after the leftmost occurrence |
| Placeholders.ResolveLeaf | src/gofigure.go:124-141 | with `ssm:`: the store's answer for the text after the first `ssm:`; else with `env:`: the variable named after the first `env:`; else the leaf itself |
| Placeholders.ChildFailure | src/gofigure.go:114-117 | an error inside a nested map makes the enclosing map fail with the same error |
| Placeholders.ResolvedSameShape | src/gofigure.go:110-141 | resolution keeps every map's key set and turns string leaves into string leaves, at every depth |
| Placeholders.LiteralTreeUnchanged | src/gofigure.go:141 | a tree with no `ssm:` or `env:` leaf resolves without failure to itself |
| Placeholders.ResolvedAt | src/gofigure.go:110-141 | the leaf at any path of the resolved tree is what the input's leaf at that path resolves to |
| Placeholders.DeepFailureAborts | src/gofigure.go:114-129 | a failing lookup at any depth makes the whole resolution fail, with that lookup's error among the possible errors |
| Placeholders.FailureComesFromLeaf | src/gofigure.go:114-129 | every reportable error is the error of some failing leaf at some path |
| Placeholders.FailuresExactlyWhenNotSucceeds | src/gofigure.go:110-144 | a tree has an error to report iff its resolution does not succeed |
| Placeholders.FailsIffSomeLeafFails | src/gofigure.go:110-144 | resolution fails iff some leaf at some path makes a failing lookup |
| Placeholders.EnvLookupNeverFails | src/gofigure.go:134-138 | an environment reference never fails; an unset variable resolves to the empty string |
| Placeholders.SsmTakesPrecedence | src/gofigure.go:124-132 | `env:ssm:x` goes to the secret store with name `x` |
| Placeholders.UnanchoredMatch | src/gofigure.go:107-108 | `my env:HOME` is an environment reference to `HOME`: the match is not anchored |
| Placeholders.SsmTestValueDispatch | src/gofigure_test.go:188-208 | `ssm:/dev/unittesting/foo/bar` asks the store for `/dev/unittesting/foo/bar` and resolves to its answer |
| Placeholders.EnvTestValueDispatch | src/gofigure_test.go:210-231 | `env:GOFIG_UNITEST` resolves to that variable's value, or to `""` when it is unset |
| Loading.ReadFiles | src/gofigure.go:58-71 | fetching the files in order and stopping at the first failure yields exactly `ReadSpec` |
| Loading.ReadErrorSticks | src/gofigure.go:62-65 | once a prefix of the files fails to read, the whole read fails with that error |
| Loading.ReadSucceedsIff | src/gofigure.go:60-70 | reading succeeds iff every fetch of `dirname/filename` succeeds |
| Loading.ReadReportsFirstFailure | src/gofigure.go:60-65 | a failed read reports the error of the first fetch that failed, all earlier fetches having succeeded |
| Loading.ReadKeys | src/gofigure.go:67 | the keys of a successful read are exactly the lower-cased file names |
| Loading.ReadValues | src/gofigure.go:62-67 | each key holds the contents fetched from `dirname/filename` for the last file with that lower-cased name |
| Loading.ParseBlobs | src/gofigure.go:73-94 | succeeds iff every blob decodes, keeping exactly the blob keys with each decoded value; otherwise returns the error of the greatest key that fails to decode |
| Loading.CollectKeys | src/gofigure.go:75-78 | the collected keys are exactly the map's keys, each once |
| Loading.DecodeKeys | src/gofigure.go:82-91 | decoding in the given key order succeeds iff every key decodes; otherwise it reports the first failing key's error |
| Loading.ParseErrorIsUnique | src/gofigure.go:80-88 | the parse error is the same whatever order the keys were collected in |
| Strings.ReverseSort | src/gofigure.go:80 | the keys come back in descending Go string order, as a permutation of the input |
| Strings.SortDescending | src/gofigure.go:80 | the result is in descending order and has the same multiset of elements |
| Strings.FindFirst | src/gofigure.go:124 | finds a position iff the pattern occurs; the position is where its leftmost occurrence starts |
| Strings.Lower | src/gofigure.go:67 | the result has the input's length and no ASCII capital; every other character is kept, and each capital becomes its lower-case letter |
| Strings.LowerIdempotent | src/gofigure.go:67 | lower-casing an already lower-cased name changes nothing, so a stored key is its own lower-cased form |
| Strings.LessIrreflexive | src/gofigure.go:80 | no string sorts before itself in Go's string order |
| Strings.LessTransitive | src/gofigure.go:80 | Go's string order is transitive |
| Strings.LessTotal | src/gofigure.go:80 | of two different strings, one sorts before the other |
| Strings.LessAsymmetric | src/gofigure.go:80 | two strings never sort before each other both ways |
| Placeholders.Getenv | src/gofigure.go:136 | a set variable reads as its value; an unset variable reads as the empty string |
| Merge.SortedMergeSmallestNameWins | src/gofigure.go:80-101 | when the documents are visited in descending name order, a key gets the value of the smallest name that holds it |
| Merge.MergeSortedConfigs | src/gofigure.go:80-101 | merging in reverse-sorted order keeps the union of the keys, and gives each key the value of the smallest document name holding it |
| Merge.SortedMergeLetsDevWin | src/gofigure_test.go:148-186 | in every descending visiting order, `config.dev.yml`'s `db` overrides `config.yml`'s, as the test expects |
| Strings.Path | src/gofigure.go:62 | the path is `dirname`, then `/`, then `filename` |
| Gofigure.Build | src/gofigure.go:37-56 | a read error is returned as is; otherwise a parse error is the greatest failing key's; otherwise the result is the merged document resolved, or one failing lookup's error; it succeeds iff every stage does |
| Gofigure.Load | src/gofigure.go:27-35 | returns `Build`'s error, or the conversion of `Build`'s configuration |
| Gofigure.BuildIsDeterminedUpToLookupError | src/gofigure.go:37-56 | for a fixed merge order, any two outcomes `Build` allows agree on success; on success and on read or parse errors they are equal |
| Gofigure.DisjointDocumentsBuildAlike | src/gofigure.go:48 | when the documents have disjoint keys, a successful `Build` gives the same configuration whatever merge order Go picks |

## Findings

| source | as written | input that shows it | evidently intended | confidence | as-written member | corrected member |
|---|---|---|---|---|---|---|
| src/gofigure.go:80-98 | `parseBlobs` sorts the keys in reverse and then stores the documents in a Go map, which `mergeConfigs` ranges over in arbitrary order, so the sort does not decide which document wins | `config.yml` and `config.dev.yml` both setting `db`: either value can come out | the documents are merged in descending name order, so `config.dev.yml` overrides `config.yml`, as src/gofigure_test.go:134-145 and 148-186 expect | medium, not executed | Merge.OverrideDependsOnOrder | Merge.MergeSortedConfigs |

`Merge.SortedMergeSmallestNameWins` and `Merge.SortedMergeLetsDevWin` state the intended property of the corrected merge. `Gofigure.Build` keeps the merge order as a parameter, because it models the code as written. Any order fixed by the corrected merge is one of the orders `Build` allows.

## Left out

- `loadSSMParameter` (src/gofigure.go:147-164) is the parameter `ssm`. This leaves out the AWS session, the fixed region `ap-southeast-2`, decryption and the network. The session error that it ignores is left out too.
- `os.Getenv` is the map `environ`, and an unset variable reads as `""`.
- `yaml.Unmarshal` is the parameter `unmarshal`. `yaml.Marshal` and `yaml.Unmarshal` into the destination (`convertToDestination`, src/gofigure.go:166-177) are the single parameter `convert`.
- The regular expression engine is modelled as a search for the leftmost occurrence of the literal `ssm:` or `env:`. That is what the two patterns match, because their anchor group is optional.
- Strings.Lower: lower-cases ASCII letters only. `strings.ToLower` also maps other Unicode letters.
- Strings.Less: compares characters, not UTF-8 bytes. The two orders agree on valid UTF-8.
- Strings.SortDescending: is an insertion sort. Only its result is modelled, not the algorithm `sort.Sort` uses.
- YAML values other than strings and string-keyed maps are left out. The Go resolver panics on any other leaf at its type assertion (src/gofigure.go:111, 122), so `Tree` has none.
- The `*map` indirection and the `interface{}` keys are left out. The nested results the Go code stores as `*map[string]interface{}` are plain nested maps here.
- `Gofigure.Gofigure.Configuration` returns the stored map. It has no contract beyond that.
- Go's map iteration order is not a random process here. It is the parameter `order` in the merge and a `:|` choice elsewhere, and the contracts hold for every choice.
- Placeholders.ReplacePlaceholders: when several lookups fail, the contract says only that the error is one of theirs. Which one Go returns depends on its map order.
