# configblender: a verified model

configblender turns a recipe (an ordered stack of layers and a merge policy) into a config tree, and
into an explain tree that says which layer produced each leaf. This project models that engine and the
pieces around it, and proves what each of them promises over all inputs and all runs.

| file | models |
|---|---|
| `Text.dfy` | splitting and joining at a character, the byte order of strings, sorted key listings |
| `Values.dfy`, `Recipe.dfy` | config values, explain trees, key paths; layers, merge rules, policy lookup |
| `Merge.dfy`, `MergeLaws.dfy` | the recursive merge of one patch and its explain tree; when merges regroup or repeat |
| `Layers.dfy`, `Resolve.dfy` | any number of layers: mirror invariant, last writer, lists; the resolution loop |
| `Lookup.dfy` | dotted paths and lookups |
| `Annotate.dfy`, `ReadBack.dfy` | the annotated view; reading its lines and its text back |
| `Convert.dfy` | config values to Starlark values and back |
| `Diff.dfy` | the line diff of the web interface |
| `VersionKeys.dfy`, `Store.dfy`, `StoreLog.dfy` | the versioned recipe store and the logs it refines |
| `Fetcher.dfy` | the Git clone cache under concurrent calls |
| `Session.dfy` | session cookies |

Code that loops or updates state is a method or a class here, proved equal to a function of its inputs
or of the old state; the theorems are lemmas about those functions. Loops over Go maps take their keys
in an arbitrary order, so their contracts hold for every visiting order.

What comes from outside is a parameter: `fmt`'s `%v` rendering, `yaml.Marshal` of a scalar, a dynamic
layer's script (any partial function of the accumulated config), parsed layer content, the current
time, whether a bbolt update transaction commits, what a Git remote lists, the contents of a commit's
files, and the signature of a cookie payload. Library promises that are built in: bbolt update
transactions are serialised and all-or-nothing and its cursors follow byte order; a Git fetch sets the
remote-tracking ref of every listed branch, removes none, leaves HEAD and the local heads alone, and
adds every commit reachable from the listed refs; JSON storage round trips are the identity.

Four results delimit where a property holds. Regrouping merges is not associative in general:
`MergeLaws.RegroupingFails` gives a map, a scalar and a map at one key (`MergeLaws.SquashingFails` as
three layers), and `MergeLaws.RegroupingExactly` says for all inputs when it holds. The store's version
counter is a Go int: by `StoreLog.EveryRunIsLogs` the buckets stay one log per name if and only if no
log ever reaches 2^63 entries, and `StoreLog.CounterOverflow` shows what the put that reaches them does.
The raw ref is documented as the fallback for HEAD as well as for tags and hashes, but a fetch does not
move HEAD: `Fetcher.HeadGoesStale` is a run whose second call for HEAD starts after the default branch
moved and still gets the commit from before, and `Fetcher.HeadIsFrozen` says after every run when a HEAD
source is still where the first clone put it and when it is current. Hashes and tags do well in the
fallback: `Fetcher.HashIsItself`, `Fetcher.TagIsLastSeen`. The annotated view is documented as the config
and its explain tree folded into one: by `ReadBack.ViewReadsBack` it reads back as these two if and only
if no key is empty, and `ReadBack.EmptyKeyLeavesNoTrace` gives the trees that print alike.

## Model

| member | source | states |
|---|---|---|
| Recipe.FirstRuleDecides | recipe/types.go:68-75 | of several rules for one path the first decides |
| Recipe.UnlistedPathReplaces | recipe/types.go:41-46 | a path without a rule is replaced |
| Merge.MergeValue | resolve/merge.go:23-57 | for every visiting order of both map loops the result is the key-by-key merge and the matching explain tree; terminates on the patch |
| Merge.CopyBase | resolve/merge.go:26-33 | the first map loop copies every base entry with its explain node, nil where there is none |
| Merge.MergeKeys | resolve/merge.go:34-40 | the second map loop merges each patch key over the base's own entry and leaves the other keys alone |
| Merge.UnionLists | resolve/merge.go:67-85 | the two loops with their shared `seen` set compute the deduplicated concatenation |
| Merge.AddAll | resolve/merge.go:70-83 | one loop adds exactly the elements whose rendering is new, and records all renderings |
| Merge.DedupKeepsFirstOccurrences | resolve/merge.go:64-85 | union keeps exactly the elements that no earlier one renders like, in order |
| Merge.DedupAbsorbs | resolve/merge.go:67-85 | deduplicating either operand of a union first makes no difference |
| MergeLaws.RegroupingExactly | resolve/merge.go:23-57 | merging a, b, c from the left equals merging a with (b merged with c) if and only if no value of another kind in b shields part of a that c would not absorb |
| MergeLaws.AbsorbedExactly | resolve/merge.go:23-57 | nothing of a survives under c if and only if c overrides each of its leaves and each list element is overridden or already leads the union |
| MergeLaws.NormalisedPatch | resolve/merge.go:23-57 | a patch and the same patch merged over nothing have the same effect |
| MergeLaws.MergeIsAssociative | resolve/merge.go:23-57 | trees that agree on map, list or other at shared paths merge associatively under every policy |
| MergeLaws.RegroupingFails | resolve/merge.go:23-57 | map, scalar, map at one key is the counterexample without that agreement |
| MergeLaws.SquashingLast | resolve/resolve.go:41-72 | the last two layers may be replaced by their merge without changing the config if and only if they regroup over the layers before |
| MergeLaws.SquashingAnywhere | resolve/resolve.go:41-72 | such a pair may be replaced by its merge anywhere in a sequence of contributions |
| MergeLaws.SquashingFails | resolve/resolve.go:41-72 | three layers with a map, a scalar and a map at one key, whose last two may not be so replaced |
| MergeLaws.RemergingConfig | resolve/merge.go:42-55 | merging the same patch again leaves the config unchanged if and only if no append rule governs a non-empty list in it |
| MergeLaws.RemergingExplain | resolve/merge.go:23-57 | merging it again under the same provenance never changes the explain tree |
| Layers.MirrorInvariant | resolve/resolve.go:38-76 | after any number of layers the explain tree has exactly the config's shape and every leaf is the provenance of a merged layer |
| Layers.MergeKeepsMirror | resolve/merge.go:16-22 | one merge keeps the mirror, also when a map replaces a leaf or a leaf a map |
| Layers.MergedAt | resolve/merge.go:23-57 | the node at any key path after a merge, from the base's and the patch's nodes there |
| Layers.ExplainedAt | resolve/merge.go:23-57 | a patch leaf is attributed to the patch's layer, an untouched path keeps its attribution |
| Layers.LastWriter | resolve/resolve.go:41-72 | a key path is a leaf attributed to a provenance if and only if the last undisturbed layer to write a leaf there carries it |
| Layers.LeafHasOneWriter | resolve/resolve.go:41-72 | every final leaf has exactly one last writer, and only leaves have one |
| Layers.LastOpener | resolve/resolve.go:41-72 | a path below the root is a map if and only if some layer opened one and no later layer put a non-map on the path |
| Layers.LastWriterValue | resolve/merge.go:49-56 | scalars, nulls and lists no rule combines are exactly what the last writer wrote |
| Layers.ListPresence | resolve/merge.go:42-51 | there is a list at a path if and only if some layer since the last reset has one |
| Layers.AppendAccumulates | resolve/merge.go:46-48 | at an append path the list is the concatenation, in layer order, of all lists since the last reset |
| Layers.UnionAccumulates | resolve/merge.go:44-45 | at a union path it is the first-occurrence deduplication of that concatenation |
| Resolve.Resolve | resolve/resolve.go:37-77 | the loop folds the complete run of the layers, or reports which kind of failure the first failing layer has, with its name |
| Resolve.RunIsTheLayers | resolve/resolve.go:41-70 | a run stops only at unparsable content, a failing script or an unknown type; before that a document contributes itself, an empty one nothing, a script its value on the config so far, each under its layer's name and source |
| Resolve.DocumentsResolve | resolve/resolve.go:41-70 | a recipe of static documents resolves, and its run is exactly these documents with their layers' names and sources |
| Resolve.ResolvedLeafNamesItsLayer | resolve/resolve.go:65-72 | in a recipe's result a leaf names the layer that wrote it last, with its source when there is one |
| Lookup.LookupPath | internal/cli/resolve.go:193-207 | lookup in a config is the descent along the split path |
| Lookup.LookupExplain | internal/cli/resolve.go:193-207 | the same for an explain tree |
| Values.AtIsDescent | internal/cli/resolve.go:193-207 | the node at a key path is the end of the descent through one map entry per key, and is missing if and only if there is no such descent |
| Values.ExplainAtIsDescent | internal/cli/resolve.go:193-207 | the same for an explain tree |
| Lookup.LookupsAgree | cmd/configblender/main.go:215 | after a local resolution a path is found in the config if and only if it is found in the explain tree, with mirroring nodes |
| Lookup.PathSplitsBack | resolve/merge.go:9-14 | splitting a node's policy path gives back its keys if and only if they are dot-free and the first of several is not empty |
| Lookup.PathsAddressNodes | resolve/merge.go:9-14 | such nodes have distinct policy paths and looking a path up reaches its node |
| Annotate.WriteAnnotated | internal/cli/annotate.go:27-63 | the recursive walk prints exactly the specified lines, keys sorted |
| Annotate.FormatAnnotated | internal/cli/annotate.go:21-25 | the text of those lines without trailing newlines |
| Annotate.DecodedProvenance | internal/cli/annotate.go:81-101 | a JSON-decoded provenance is read back as itself |
| Annotate.DecodedViewIsTheSame | internal/cli/annotate.go:65-79 | for mirroring trees the view is the same for local and decoded explain trees |
| Annotate.DecodedLookup | internal/cli/annotate.go:65-69 | every config path is found in the decoded explain tree; the only further paths there go from a leaf into its provenance |
| Annotate.AnnotatedViewNamesLastWriters | internal/cli/annotate.go:14-20 | every scalar line and list header carries the provenance of its last writer, in both representations, for the whole tree and for the node at any key path |
| ReadBack.ViewReadsBack | internal/cli/annotate.go:14-63 | read by indent, key and order, the lines give back the config and its explain tree, if and only if no key of the config is empty |
| ReadBack.ResolvedViewReadsBack | internal/cli/annotate.go:14-20 | the same for every part of a resolved recipe, local or decoded |
| ReadBack.EmptyKeyLeavesNoTrace | internal/cli/annotate.go:33-37 | a map under an empty key prints as if its entries stood in its place |
| ReadBack.ProvenanceFound | internal/cli/annotate.go:81-101 | which explain nodes give a comment, and what is missing from a decoded source shows as nil |
| ReadBack.CommentReadsBack | internal/cli/annotate.go:65-79 | a comment reads back as its provenance when its names leave the separators where they belong |
| ReadBack.LineReadsBack | internal/cli/annotate.go:27-63 | a legible line's text reads back as its indent, key, rendered value and provenance |
| ReadBack.TextReadsBack | internal/cli/annotate.go:21-63 | the trimmed text of legible one-line lines splits into them, in order, and each reads back |
| Convert.GoToStarlark | resolve/convert.go:12-51 | succeeds if and only if every node is supported, with a picture of the tree, whatever order map entries are visited in; the only failure is an unsupported Go type |
| Convert.PicturesAreOfSupported | resolve/convert.go:12-51 | only supported trees have a picture, so the conversion refuses no tree that has one |
| Convert.StarlarkToGo | resolve/convert.go:55-98 | succeeds if and only if every int fits, every key is a string and every type is known, with the converted value; otherwise reports the first fault in element order |
| Convert.FirstFault | resolve/convert.go:71-94 | the reported fault is that of an element before which there is none |
| Convert.FaultHasCulprit | resolve/convert.go:55-98 | behind a reported fault there is an int outside int64, a dict with a key that is no string, or a value of an unknown type |
| Convert.ConvertibleIsFaultless | resolve/convert.go:55-98 | a value has no fault if and only if it is convertible |
| Convert.ThereAndBack | resolve/convert.go:53-54 | any picture of a tree converts back to the tree with ints widened to int64 |
| Convert.WidenedAt | resolve/convert.go:20-23 | widening turns the ints into int64 values and changes nothing else, at every key path |
| Convert.BackAndThere | resolve/convert.go:53-54 | a convertible Starlark value is a picture of its supported Go value |
| Convert.StarlarkSurvives | resolve/convert.go:53-54 | a Starlark value survives the trip through Go up to dict order |
| Diff.FillTable | webui/src/lib/diff.ts:13-19 | every cell is the longest common subsequence length of the two suffixes |
| Diff.Walk | webui/src/lib/diff.ts:21-36 | the greedy walk emits a canonical partial script, loses no common line, and is completed by the greedy script of what is left |
| Diff.DiffLines | webui/src/lib/diff.ts:8-46 | the script rebuilds both texts, keeps the longest common subsequence, costs no more than any script, is canonical, and is the first of the cheapest ones |
| Diff.GreedyIsFirst | webui/src/lib/diff.ts:24-35 | among the scripts that keep most, the greedy one keeps or else deletes as early as possible |
| Diff.LcsIsUpperBound | webui/src/lib/diff.ts:17 | no common subsequence is longer than the recurrence says |
| Diff.LcsIsReached | webui/src/lib/diff.ts:17 | some common subsequence is that long |
| Diff.KeptIsCommon | webui/src/lib/diff.ts:24-44 | the kept lines of any script are a common subsequence, each saving two operations |
| Diff.KeepingMostIsCheapest | webui/src/lib/diff.ts:24-44 | a script that keeps a longest common subsequence has fewest additions and fewest deletions |
| Diff.DeletionsFirst | webui/src/lib/diff.ts:29-35 | in a canonical script every run between kept lines is deletions then additions |
| VersionKeys.VersionKeyBack | recipedb/store.go:94-102 | decoding inverts encoding for every Go int |
| VersionKeys.BigEndianEmbedsOrder | recipedb/store.go:94-98 | byte order of equally long encodings is numeric order |
| VersionKeys.VersionKeysEmbedOrder | recipedb/store.go:94-98 | version keys sort as versions do, negative ones after all others |
| Store.Store.Put | recipedb/store.go:106-134 | rejects an empty name; otherwise writes both buckets under the next version, or nothing when the transaction aborts |
| Store.Store.Get | recipedb/store.go:137-150 | the latest bucket's spec or not found |
| Store.Store.GetVersion | recipedb/store.go:154-171 | the history bucket's spec at the version's key or not found |
| Store.Store.ListVersions | recipedb/store.go:175-195 | the decoded versions in cursor order or not found |
| Store.Store.Rollback | recipedb/store.go:200-206 | reads in one transaction and puts in another, with any writes of other callers in between |
| Store.Store.Delete | recipedb/store.go:211-222 | removes the name from both buckets, or nothing when the transaction aborts |
| Store.Store.List | recipedb/store.go:225-237 | the stored names, each once, in byte order |
| Text.BeforeAtFirstDifference | recipedb/store.go:225-237 | byte order: a proper prefix comes first, otherwise the first difference decides |
| StoreLog.PutAppends | recipedb/store.go:115-133 | a put appends to the log of the spec's own name and touches no other log |
| StoreLog.DeleteClears | recipedb/store.go:211-222 | a delete clears one log and touches no other |
| StoreLog.CursorOrder | recipedb/store.go:124-127 | the cursor visits a log's versions in the order 1..n |
| StoreLog.NextVersionIsOneMore | recipedb/store.go:124-127 | the next version is the number of versions so far plus one, if and only if a Go int can still count it |
| StoreLog.VersionIsEntry | recipedb/store.go:152-171 | version v is readable if and only if 1 <= v <= n, and is the log's entry v |
| StoreLog.ListedVersions | recipedb/store.go:173-195 | listed versions are 1, 2, ..., n |
| StoreLog.StepSimulates | recipedb/store.go:106-222 | every transaction, committed or aborted, keeps the buckets in step with the logs |
| StoreLog.EveryRunIsLogs | recipedb/store.go:12-17 | an interleaving of puts, deletes and two-transaction rollbacks behaves throughout as one log per name, a rollback appending the spec it read to the name it was called with, if and only if no log ever reaches 2^63 entries |
| StoreLog.ShortRunsAreCountable | recipedb/store.go:124-127 | no log gets there in fewer than 2^63 transactions |
| StoreLog.ReadsAfterRun | recipedb/store.go:136-195 | what Get, GetVersion and ListVersions return after any run whose logs a Go int can count; a name is stored and has versions if and only if its log is not empty |
| StoreLog.HistoryOnlyGrows | recipedb/store.go:12-15 | a version that can be read under a name still can, the same, until a committed delete of the name |
| StoreLog.PutIsRead | recipedb/store.go:104-134 | after a committed put the spec is the latest and one more version with the put's time, older versions and other names read as before |
| StoreLog.DeleteIsRead | recipedb/store.go:208-222 | after a committed delete nothing of the name is left, other names read as before |
| StoreLog.UpdatesAreSteps | recipedb/store.go:106-222 | the updates of other callers are a run of their transactions, in order |
| StoreLog.RollbackIsTwoSteps | recipedb/store.go:197-206 | a rollback with other callers' updates in between is a run of two transactions; when it commits, the spec it read is the latest |
| StoreLog.CounterOverflow | recipedb/store.go:124-127 | the put after the largest Go int wraps to a key above all others, and the bucket is no log's any more |
| Fetcher.Fetcher.Repo | gitsource/fetcher.go:97-127 | clones on the first call, fetches into the cached clone afterwards, changes nothing on failure |
| Fetcher.Fetcher.Content | gitsource/fetcher.go:65-95 | requires a ref, then gives the text of the file at the resolved commit of the clone as other callers may have left it, or the error; a branch is read at the commit of the last listing of its remote, whoever fetched it |
| Fetcher.OtherRefsFallBack | gitsource/fetcher.go:141-157 | what a ref that no listing has as a branch resolves to, for every sequence of listings: HEAD, a commit hash, a tag, or not found |
| Fetcher.RawRefIsFrozen | gitsource/fetcher.go:137-151 | after any run the raw ref of the default branch, unless a tag or hash is spelled so, names the commit at clone time, while the resolved revision follows the last listing that has the branch |
| Fetcher.HeadIsFrozen | gitsource/fetcher.go:141-155 | after any run a HEAD source is at the default branch's commit of the first clone if and only if the last listing to have a branch called HEAD, if any, has that commit there; it is current if and only if the default branch is now at that branch's commit or, without one, where it was at the first clone |
| Fetcher.HeadGoesStale | gitsource/fetcher.go:141-155 | a run in which a call for HEAD starts after the default branch moved and gets the commit from before |
| Fetcher.HashIsItself | gitsource/fetcher.go:21-23 | a commit hash once fetched resolves to itself after any further run, if and only if no branch of that very name was last listed elsewhere |
| Fetcher.TagIsLastSeen | gitsource/fetcher.go:141-157 | after any run any other ref is the tag of that name in the last listing that has one, and not found if and only if none has |
| Fetcher.InstallKeepsInvariant | gitsource/fetcher.go:97-127 | a clone or fetch under the mutex brings a clone up to its listing and none back |
| Fetcher.ResolveKeepsInvariant | gitsource/fetcher.go:143-157 | resolving a branch after one's own fetch gives a commit of the call's own time |
| Fetcher.EveryRunKeepsInvariant | gitsource/fetcher.go:42-127 | the mutex and freshness invariant over every run of remote moves and concurrent calls |
| Fetcher.CloneIsItsListings | gitsource/fetcher.go:97-127 | after any run each cached clone is the first of its listings cloned and the others fetched into it in order |
| Fetcher.TrackingIsLastSeen | gitsource/fetcher.go:110-116 | after any run a branch, deleted or not, resolves through its tracking ref if and only if some installed listing had it, to its commit in the last one that did |
| Fetcher.ContentIsFresh | gitsource/fetcher.go:143-157 | a branch the remote had whenever it could be reached during a call resolves to a commit it pointed at between the call's start and return |
| Session.ParsePrinted | internal/centralserver/session.go:42-53 | parsing inverts printing on every int64 |
| Session.PrintedInDecimal | internal/centralserver/session.go:42 | a printed number has its decimal digits and no leading zero |
| Session.AcceptedExactly | internal/centralserver/session.go:41-64 | accepted values are exactly the printed int64 expiry times after now, each with a dot and its own signature |
| Session.SignIsInjective | internal/centralserver/session.go:41-47 | two expiry times never share a cookie |
| Session.IssuedUntilExpiry | internal/centralserver/session.go:15-64 | an issued value names the time 604800 seconds later, is signed for it, and is valid exactly until then |

## Left out

- Aliasing: config trees, patches and explain trees are values, so sharing of nested Go maps and slices between results and inputs is not represented; none of the modelled code writes to a map or slice it did not create.
- YAML and JSON parsing and printing: layers start from parsed content, and stored specs are read back as written.
- Starlark execution, its step limit and timeout: a dynamic layer is any partial function of the accumulated config; cyclic Starlark values are not represented.
- ReadBack.TextReadsBack: for lines whose values contain no '#', whose keys contain neither ':' nor '#' and begin with neither a space nor '-', and whose provenance has '@', ':' and '(' only as separators (the repository is free); other lines are printed but may read ambiguously.
- Annotate.WriteAnnotated: the strings.Builder is kept as the sequence of lines printed to it instead of one growing text.
- Store.Store.Put: failures inside a transaction are one flag, since each of them aborts the whole transaction.
- Fetcher.ContentIsFresh: bounds the commit's age only for branches present whenever the remote could be reached during the call; a fetch does not remove the tracking ref of a deleted one, and `Fetcher.TrackingIsLastSeen` says what it keeps resolving to.
- Git's other spellings of a raw revision (full or partial ref names, abbreviated hashes, `~` and `^`): the raw fallback knows HEAD, full commit hashes, tags and local heads, in this order, which is Git's. A remote whose HEAD names no branch is cloned without a local head.
- Fetcher.Fetcher.Content: the mutex itself is part of the event model of the same module, not of the class.
- Session: the cookie key derivation and HMAC are one uninterpreted function; constant-time comparison is equality.
- Session.IssuedUntilExpiry: needs the expiry to fit an int64.
- The HTTP server and client, the Kubernetes controller, Git credentials, metrics, command-line flags and the web interface's components: input and output plumbing.
