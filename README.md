# allowlist: the IP allowlist engine, in Dafny

This project models the IP allowlist of `ip/ip.go` in qingtao/allowlist and proves properties of the model.

A configuration is a list of strings. Each string is either a CIDR block (`127.0.0.1/8`) or a single address (`::1`). `option.NewList` turns the list into a `List` in four steps:

1. **Classify and de-duplicate.** Each entry is tried as a CIDR, then as an address. An entry that is neither is dropped silently. Nets and addresses go into two maps keyed by their canonical text, so duplicates collapse.
2. **Merge the nets.** Each net is compared with the nets accepted so far. Two nets conflict when either one contains the other's base address. At the first conflict, the candidate takes that slot if its mask reports fewer ones (`Mask.Size()`); otherwise it is dropped. A net with no conflict is appended.
3. **Filter the addresses.** An address the list already allows is dropped.
4. **Sort.** Both slices are sorted by `compare`: shorter byte slices first, then bytes in lexicographic order.

`ContainsIP` and `ContainsString` then answer membership queries.

The modules:

- `Wrappers`: `Option`.
- `GoNet`: the parts of Go's `net` package the code relies on:
  - 4- and 16-byte addresses;
  - `To4`, `To16` and `IP.Equal`;
  - the network number and mask of a net, and `IPNet.Contains`.

  Bytes are `bv8`, so masking is the same `&` the library applies.
- `Order`: the `compare` closure, both as the predicate `Less` and as the method `Compare` that runs its loop. It also holds a verified insertion sort standing in for `sort.Slice`.
- `Normalize`: the steps of `NewList` as functions of the entries, with the lemmas about them.
  - The merge comes twice: `MergedAsWritten` compares `Mask.Size()` as line 99 does, and `Merged` compares the prefix `IPNet.Contains` applies (see "## Findings"). The two store the same nets whenever no net is IPv4-mapped (`MergedAsWrittenAgrees`).
  - The map iteration order is an argument: a sequence listing each key once. Every lemma holds for every such order.
  - It also holds the counterexamples behind the findings below.
- `Allowlist`:
  - the `List` class, with its fields `IPs` and `IPNets`;
  - its methods `Sort`, `ContainsIP` and `ContainsString`;
  - the loops of `NewList`, which change the list in place as the Go code does;
  - `LoadArray`.

  Each method is proved against the `Normalize` functions; the merge loop against `MergedAsWritten`.
- `Clusters`: the nets may form groups (`Clusters.Grouped`): conflict is reflexive, symmetric and transitive on them, and two conflicting nets with the same effective prefix are the same net. When they do, the result of the corrected merge does not depend on map order: it keeps the broadest net of each group, each once (`Clusters.MergedKeepsBroadest`). The merge as written does the same when no net is IPv4-mapped (`Clusters.MergedAsWrittenKeepsBroadest`). With one address per key, the filter keeps each uncovered address once, in every order.
- `Examples`: the vectors of `ip/ip_test.go`.
  - `loadArray` on the seven-entry array is proved for every map order.
  - Two `ContainsString` queries are proved on the list from the test.

A few points where the code decides, and the model follows the code:

- **Map keys.** The key of an address is its 16-byte form, because `IP.String()` depends on nothing else. The key of a net is its network number and effective prefix, which is what `IPNet.String()` prints. As a result, `10.0.0.0/8` and `::ffff:10.0.0.0/104` share a key, and the later entry wins.
- **No disjointness guarantee.** The merge only looks at the first conflicting slot, so the accepted nets are not always pairwise disjoint. `Normalize.MergeMayLeaveOverlap` gives an input where they overlap. What the corrected merge does keep, in every order, is the set of covered addresses. The merge as written keeps that set whenever no net is IPv4-mapped, and can lose part of it otherwise (see "## Findings").
- **Order of the test's expected addresses.** The test lists the expected addresses as 192.168.1.200 then `::1`, but it sorts that list before comparing. Sorted, it is `::1` then 192.168.1.200, which is what `Examples.ReadArray` states.

## Model

| member | source | states |
|---|---|---|
| Order.Compare | ip/ip.go:19-36 | The answer is `Less(ip1, ip2)`: a shorter slice is less; for slices of one length the early-exit byte loop yields lexicographic order. |
| Order.CompareIsStrictTotalOrder | ip/ip.go:19-36 | `compare` is irreflexive, asymmetric, transitive, and total on distinct slices. |
| Order.FirstDifferenceDecides | ip/ip.go:27-33 | For slices of one length, the first byte where they differ alone decides `compare`. |
| Order.SortBy | ip/ip.go:37-43 | The result is a permutation of the input, ordered by `compare` on each element's key. |
| Allowlist.List.Sort | ip/ip.go:18-44 | `IPs` and `IPNets` are permutations of their old contents. `IPs` is ordered by `compare`, and `IPNets` by `compare` on the base addresses. |
| Allowlist.List.ContainsIP | ip/ip.go:47-59 | True exactly when a stored address is `Equal` to the query or a stored net contains it. It changes nothing. |
| Allowlist.List.ContainsString | ip/ip.go:62-68 | False when the text is not an address. Otherwise the answer of `ContainsIP` on the parsed address. |
| GoNet.EqualIffSameTo16 | ip/ip.go:48-50 | Two parsed addresses are `Equal` exactly when their 16-byte forms, and so their keys, coincide. |
| GoNet.ContainsRespectsEqual | ip/ip.go:53-57 | A net contains an address exactly when it contains every address `Equal` to it. |
| GoNet.NetworkIsCanonical | ip/ip.go:90 | A net and the network number it is filed under contain the same addresses and have the same effective prefix. |
| GoNet.OverlapIffBaseContained | ip/ip.go:96 | The conflict test is exactly overlap: two nets share an address iff one contains the other's base. |
| GoNet.Nested | ip/ip.go:96-101 | When two nets conflict, the one with the longer prefix lies entirely inside the other. |
| Allowlist.CollectEntries | ip/ip.go:80-92 | The loop leaves `ipNets` and `ips` equal to `NetsOf` and `IPsOf` of the entries: CIDR first, else address, else dropped, with a later entry overwriting an equal key. |
| Normalize.NetsClassifiedOnce | ip/ip.go:81-90 | Every value of `ipNets` is a valid net filed under its own key and parsed from some entry. Every entry parsed as a CIDR has its key in the map. |
| Normalize.AddressesClassifiedOnce | ip/ip.go:81-88 | Every value of `ips` is a valid address filed under its own key, and only an entry that fails as a CIDR yields one. Every such entry has its key in the map. |
| Normalize.AddressesDistinct | ip/ip.go:84-88 | No two addresses of `ips` are `Equal`: `Equal` addresses share their key. |
| Normalize.DuplicatedBatch | ip/ip.go:88-90 | Repeating the whole configuration changes neither map: duplicates collapse. |
| Normalize.NetsOfCover | ip/ip.go:89-90 | Keeping one net per key loses nothing: the nets of `ipNets` cover exactly what the CIDR entries cover. |
| Normalize.IPsOfHave | ip/ip.go:84-88 | Keeping one address per key loses nothing: the addresses of `ips` are `Equal` to exactly what the address entries are `Equal` to. |
| Normalize.FirstConflict | ip/ip.go:95-96 | The result is the first slot that conflicts with the candidate, or None when no slot does. |
| Allowlist.FirstConflictSlot | ip/ip.go:95-104 | The inner loop stops at the first slot conflicting with the candidate, or runs through when none does. |
| Normalize.Insert | ip/ip.go:95-105 | One outer iteration with the corrected comparison: the list grows by at most one, and every slot holds either the candidate or its old net. |
| Normalize.InsertAsWritten | ip/ip.go:95-105 | One outer iteration as written: the list grows by at most one, and every slot holds either the candidate or its old net. |
| Normalize.InsertAsWrittenChangesFirstConflictOnly | ip/ip.go:95-103 | With no conflict the candidate is appended. Otherwise only the first conflicting slot can change, and it holds whichever net reports strictly fewer ones in `Mask.Size()` (the old net on a tie). |
| Normalize.InsertChangesFirstConflictOnly | ip/ip.go:95-103 | The same for the corrected comparison: the slot holds whichever net has the strictly shorter effective prefix. |
| Allowlist.MergeStep | ip/ip.go:94-105 | One iteration of the outer loop: `IPNets` goes from the as-written merge of the keys visited so far to that of one key more, comparing `Mask.Size()` as line 99 does. `IPs` is unchanged. |
| Allowlist.MergeNets | ip/ip.go:93-106 | The loop, comparing `Mask.Size()` as line 99 does, leaves `IPNets` equal to `MergedAsWritten` of the map in the visiting order. `IPs` is unchanged. |
| Normalize.MergedAsWrittenFromInput | ip/ip.go:93-106 | Every net the loop stores is one of the visited input nets, and there are no more stored nets than visited keys. |
| Normalize.MergedAsWrittenNoLonger | ip/ip.go:93-106 | `len(IPNets)` is at most the number of distinct input nets. |
| Normalize.MergedAsWrittenSound | ip/ip.go:93-106 | The merge never widens the allowlist: an address in a stored net is in a visited input net. |
| Normalize.MergedAsWrittenAgrees | ip/ip.go:93-106 | When no input net is IPv4-mapped, the merge as written stores exactly what the corrected merge stores, slot for slot, in every order. |
| Normalize.MergedAsWrittenKeepsCoverage | ip/ip.go:93-106 | When no input net is IPv4-mapped, the stored nets cover exactly what the input nets cover. |
| Normalize.MergedFromInput | ip/ip.go:93-106 | For the corrected merge: every stored net is a visited input net, and there are no more than visited keys. |
| Normalize.MergedKeepsCoverage | ip/ip.go:93-106 | For the corrected merge, in every case: the stored nets cover exactly what the input nets cover. |
| Normalize.MergedNoLonger | ip/ip.go:93-106 | For the corrected merge: at most as many nets as distinct input nets. |
| Normalize.MergeMayLeaveOverlap | ip/ip.go:93-106 | A concrete input and order for which two stored nets overlap, under both the merge as written and the corrected merge: `continue L1` leaves the second conflicting slot alone. |
| Clusters.MergedKeepsBroadest | ip/ip.go:93-106 | For the corrected merge: when the input nets form groups (`Grouped`), every order keeps exactly the broadest net of each group, each once. |
| Clusters.MergedAsWrittenKeepsBroadest | ip/ip.go:93-106 | For the merge as written: when the input nets form groups (`Grouped`) and none is IPv4-mapped, every order keeps exactly the broadest net of each group, each once. |
| Allowlist.FilterAddresses | ip/ip.go:107-112 | The loop leaves `IPs` equal to `Kept` of the map in the visiting order, against the merged nets. `IPNets` is unchanged. |
| Normalize.KeptSpec | ip/ip.go:107-112 | No kept address lies in a net. The kept addresses and the nets cover exactly what the nets and the visited addresses cover. |
| Clusters.KeptUncovered | ip/ip.go:107-112 | With pairwise non-`Equal` addresses, the kept addresses are exactly the visited addresses outside every net, each once. |
| Clusters.NewListKeepsUncovered | ip/ip.go:107-112 | For every configuration and every order of the `ips` keys, the filter keeps exactly the listed addresses outside every net, each once. |
| Normalize.NewListCoverage | ip/ip.go:78-112 | Before the sort, for any map orders: no kept address lies in a kept net. The list allows nothing the configuration does not, and it allows every listed address. When no CIDR entry is IPv4-mapped, it allows exactly what the configuration allows. |
| Normalize.CorrectedNewListCoverage | ip/ip.go:78-112 | With the corrected comparison, for every configuration and any map orders, the list allows exactly what the configuration allows. |
| Allowlist.NewList | ip/ip.go:78-115 | The list holds the as-written merge of the nets and the filtered addresses, each sorted. No stored address lies in a stored net. `ContainsIP` is true only for allowed addresses, and for every listed address. When no CIDR entry is IPv4-mapped, it is true exactly for addresses listed or inside a listed net. |
| Allowlist.LoadArray | ip/ip.go:139-141 | `NewList` on the array, with the same guarantees. |
| Normalize.AsWrittenLosesCoverage | ip/ip.go:96-101 | With the comparison as written, `::ffff:10.0.0.0/104` loses its slot to `10.1.0.0/16` in either order, and 10.2.0.0 stops being allowed. |
| Normalize.CorrectedKeepsWiderNet | ip/ip.go:96-101 | Comparing effective prefixes, the wider net keeps the slot in either order. |
| Normalize.AsWrittenAgreesWithoutMappedNets | ip/ip.go:97-99 | For one insertion step: without IPv4-mapped nets, the comparison as written and the corrected one give the same list. |
| Examples.ReadArrayMerged | ip/ip_test.go:158-183 | For the test's seven entries, every order of the four nets merges to 127.0.0.0/8 and 192.168.1.0/28, once each. |
| Examples.ReadArrayAsWritten | ip/ip_test.go:158-183 | None of the test's four nets is IPv4-mapped, so in every order the merge as written stores what the corrected merge stores. |
| Examples.ReadArrayKept | ip/ip_test.go:158-183 | For those entries, every order of the three addresses keeps `::1` and 192.168.1.200, once each. |
| Examples.ReadArray | ip/ip_test.go:155-194 | `loadArray` on the test's array gives the nets 127.0.0.0/8 and 192.168.1.0/28 and the addresses `::1` and 192.168.1.200, in that order, for every map order. |
| Examples.ContainsStringVectors | ip/ip_test.go:198-256 | On the test's list, "192.168.1.200" is allowed. "192.168.1", which does not parse, is not. |

## Left out

- `loadFile` (ip/ip.go:117-124) reads a file, which is I/O.
- `loadBytes` (ip/ip.go:126-137) decodes TOML through the go-toml library, which is foreign code. Its empty-input branch only returns nil.
- `arrayToOption` only wraps the array. `LoadArray` takes the entries directly.
- Text parsing and printing are not modelled: `net.ParseCIDR`, `net.ParseIP` and `String()`.
  - An entry is given as the pair of what the two parsers return.
  - A map key is given as the value `String()` is a function of.
  - `ContainsString` takes the result of `net.ParseIP`.
- Go's `net` package is not part of this model. `GoNet` states the behaviour the code relies on.
- `sort.Slice` is not modelled; a verified insertion sort stands in. Its contract is the one `sort.Slice` gives: a permutation, ordered by `compare`. `sort.Slice` is not stable, and the model does not fix the order of elements with equal keys beyond `SortedBy`.
- Map iteration order is not modelled as randomised. It is an explicit argument, and every lemma quantifies over it.
- A net's mask is kept as its number of leading ones, with the same length as its base.
  - The test's expected nets write their bases as 16-byte `net.IPv4` values with 4-byte masks. go-cmp compares `net.IP` through its `Equal` method, so the 4-byte bases of `Examples` denote the same values.
- The labelled `continue L1` is the `Some` branch of `Allowlist.MergeStep`, after `Allowlist.FirstConflictSlot` returns the first conflicting slot.
- InsertChangesFirstConflictOnly: states the slot rule for the corrected comparison (effective prefix). The rule line 99 applies (`Mask.Size()`) is `InsertAsWrittenChangesFirstConflictOnly`.
- MergedKeepsCoverage: holds for the corrected merge in every case. For the merge as written it holds only when no net is IPv4-mapped (`MergedAsWrittenKeepsCoverage`). Otherwise only the direction `MergedAsWrittenSound` holds, because line 99 can drop the wider net (`AsWrittenLosesCoverage`).
- MergedKeepsBroadest: holds for the corrected merge. For the merge as written it is proved only when no net is IPv4-mapped (`MergedAsWrittenKeepsBroadest`).
- NewListCoverage: "allows exactly what the configuration allows" is stated only when no CIDR entry is IPv4-mapped, because line 99 as written can lose coverage otherwise. In every case it states that nothing outside the configuration is allowed, and that every listed address is.
- NewList: the same restriction as `NewListCoverage`, for the same reason.
- LoadArray: the same restriction as `NewListCoverage`, for the same reason.
- No pairwise-disjointness property of `IPNets` is stated, because the code does not guarantee one (see `Normalize.MergeMayLeaveOverlap`).

## Findings

| source | as written | input that shows it | evidently intended | confidence | as-written member | corrected member |
|---|---|---|---|---|---|---|
| ip/ip.go:97-99 | The merge compares `Mask.Size()` of the two masks. For a net parsed from an IPv4-mapped IPv6 CIDR, that is the 16-byte count (e.g. 104), while `Contains` uses the 4-byte prefix (8). | `::ffff:10.0.0.0/104` with `10.1.0.0/16`, in either order: the /16 is kept, the wider net is dropped, and 10.2.0.0 is no longer allowed. | Keep the net with the shorter prefix as `Contains` applies it, so the merge never loses coverage. | not executed | Normalize.AsWrittenLosesCoverage | Normalize.CorrectedKeepsWiderNet |

The list methods run line 99 as written: `Allowlist.MergeNets` is proved against `MergedAsWritten`. The corrected comparison (`Normalize.Broader`, used by `Insert` and `Merged`) is the intended behaviour. `Normalize.MergedKeepsCoverage` and `Normalize.CorrectedNewListCoverage` prove that it never loses coverage. `Normalize.MergedAsWrittenAgrees` proves that the two merges store the same nets, in every order, whenever no net is IPv4-mapped. `Examples.ReadArrayAsWritten` applies this to the test's nets.
