# Proofs about wazy's WIT resolver, WASI preview 1 host functions and http-wasm handler

This project models three parts of wazy, a WebAssembly runtime for Go, and
proves what they guarantee.

1. **The WIT resolver** (`component/wit`, `component/typetable.go`). Parsed
   packages are sorted, checked, elaborated into worlds and lowered into
   signatures. `Toposort` and `PackageSort` are the two sorts and
   `CheckedPackages` the check of a package. `RankedScopes` proves that
   accepted packages have ranks by which every later lookup goes down, so that
   nothing after them needs a termination argument of its own; `Acceptance`,
   over `Circles`, says which packages these are by what is written in them.
   `ForeignUses` looks for what packages use of one another and `Scopes` holds
   the lookups. `WorldItems`, `WorldResolver` and `WorldRanks` collect a
   world's imports and exports, its includes resolved first; `Elaboration`,
   `ElaborationLaws` and `ElaborationOrder` are the world elaboration.
   `Lowering`, `TypeTables` and `TypeBuilder` are the memoised lowering of
   types, `Meanings` says what it has to give, `Validation` is the passes that
   try it on everything, and `Semver` and `PackageNames` the order of versions
   and package names.
2. **WASI preview 1** (`imports/wasi_snapshot_preview1`). `Readdir` with
   `DirentCaches` is `fd_readdir`, `Readv` is `fd_pread`, `Paths` with `DotDot`
   the resolution of a guest's path, `Polling`, `PollScripts`, `PollOneoff`,
   `PollLaws` and `PollRecords` are `poll_oneoff`, and `Args` is `args_get` and
   `environ_get`. Guest memory is an array of bytes that these methods write in
   place.
3. **The http-wasm handler** (`imports/http_handler`). `RequestStates` is the
   state kept for one request, `HttpHandler` a state machine in which any
   number of requests interleave, and `Bodies` the reading of a body piece by
   piece.

Where the source updates things in place, the model is a class or a method with
loops, proved to compute a function of the old state; the theorems are about
those functions. Where it recurses and returns values, the model is functions.

`dafny verify dfyconfig.toml` checks the whole project.

## What the proofs found

* `maxPollInterval` does not bound the sleeps of `pollBlocking`, although its
  comment says so: the interval doubles while it is below 50 ms and so settles
  at 64 ms, from the seventh sleep on. `PollLaws.CallPassesLimitIff` says of the
  call exactly when it sleeps for longer than the limit, and
  `PollLaws.LongSleepIsReached` gives subscription records and answers for which
  it sleeps for 64 ms.
* A clock that is already due can be waited for. A timeout from 2^63 on is read
  as negative, and `timeout-time.Since(start)` wraps to a large positive wait
  when it falls below -2^63. `PollLaws.DueClockIsWaitedForIff` says of the call
  exactly when this happens, and `PollLaws.OverdueClockIsWaitedFor` gives the
  subscription records for it.
* A path such as `f/.` with `f` a file is accepted and resolved to `f`, where a
  lookup one component at a time fails with ENOTDIR; only a trailing slash is
  put back after cleaning. `DotDot.ResolvedFindsTheSame` says that a "." after a
  file is the only way in which the resolved path finds something else, and
  `DotDot.DotAfterFileIsFound` is the path itself.
* `comparePackageNames` answers -1 for two equal names without a version,
  whichever comes first; the source notes that these do not occur. It answers 0
  for different names whose versions differ only in leading zeros of build
  metadata, such as `1.0.0+1` and `1.0.0+01`, so that their order is left open.
  `PackageNames.NamesCompareIff` says exactly when each happens.
* With 2^30 arguments or more, the size of the offset table wraps in 32 bits and
  the loop indexes past it. `Args.WriteOffsetsAndNullTerminatedValues` says
  exactly when, `Args.WrappedTablePanics` that 2^30 empty values pass every check
  before, and `Args.PanicsOnWrappedTable` is the call with them.

## Model

| member | source | states |
|---|---|---|
| `DepGraphs.GreedyIsLexLeast` | component/wit/check.go:664-676 | taking the least node that can come next, each time, gives the lexicographically least of all dependency-respecting orders |
| `DepGraphs.StuckReachesCycle` | component/wit/check.go:680-684 | nodes that all wait on one another lead to a cycle |
| `Toposort.IndexKeys` | component/wit/check.go:637-640 | every key is mapped to its last position |
| `Toposort.ReverseAll` | component/wit/check.go:641-656 | without an unknown dependency, the reverse lists hold each key as often as it names the dependency; else the first unknown one is returned |
| `Toposort.CountDown` | component/wit/check.go:671-675 | each dependent's count drops by the times it is listed, and those that reach zero join the ready set |
| `Toposort.Drain` | component/wit/check.go:657-676 | the keys drained form a greedy order after which no key is available, and the counts left are the dependencies not drained |
| `Toposort.CycleName` | component/wit/check.go:680-684 | both index searches succeed when keys are left over, and the dependency named leads to a cycle |
| `Toposort.Sort` | component/wit/check.go:636-685 | succeeds iff every dependency is a key and the graph is acyclic; the result is the lexicographically least order by key position; "does not exist" names the first unknown dependency, "depends on itself" one that leads to a cycle |
| `PackageSort.IndexPackages` | component/wit/resolve.go:154-160 | succeeds iff no name is given twice, and then maps each name to its package |
| `PackageSort.Sorter.Visit` | component/wit/resolve.go:166-187 | without a cycle the package ends last, after every given package it names, the marks are as before and the list only grows; a name reported is on a cycle; it terminates although the root is never marked |
| `PackageSort.Sorter.VisitDep` | component/wit/resolve.go:171-182 | a dependency is visited while marked and unmarked after; one already marked closes a cycle |
| `PackageSort.Sorter.VisitGiven` | component/wit/resolve.go:176-180 | visiting a dependency that is given places it and cannot place the package that names it |
| `PackageSort.ClosesCycle` | component/wit/resolve.go:172-174 | a name met while marked is that of a package on a cycle |
| `PackageSort.SortPackages` | component/wit/resolve.go:153-193 | succeeds iff names are distinct and the graph over the given packages is acyclic; the result holds each package once, after those it names, whatever order they are visited in |
| `CheckedPackages.CheckTypes` | component/wit/check.go:518-593 | accepts a scope's entries iff every use of the package itself names a type of one of its interfaces, no name is taken twice, every name referred to is known and the references are acyclic |
| `CheckedPackages.CheckUses` | component/wit/check.go:577-593 | accepts uses iff each names a type of an interface and takes an alias no other use has |
| `CheckedPackages.CheckItem` | component/wit/check.go:426-1028 | accepts an interface, or a world with its inline interfaces, iff all their scopes are good, includes name worlds and imports and exports name interfaces |
| `CheckedPackages.CheckPackage` | component/wit/check.go:17-333 | accepts a package iff the names of its interfaces and worlds are distinct, each can come after what it uses or includes, and each is good |
| `CheckedPackages.CheckAll` | component/wit/check.go:17-40 | the check of every package and the sort of all accept exactly the packages `Accepted` describes |
| `Acceptance.ScopeOkIff` | component/wit/check.go:518-593 | a scope is accepted iff a name is taken once, but that a use may take over the name of a type before it, its local uses name something of an interface, and its types mention only its names and none of them itself, however far the mentions go; uses and resources mention nothing |
| `Acceptance.ItemOkIff` | component/wit/check.go:426-1028 | an interface or a world is good iff its scopes are, its local includes name worlds and its local imports and exports name interfaces |
| `Acceptance.PackageOkIff` | component/wit/check.go:242-310 | a package is accepted iff the names of its items are distinct, each names only items of it in its uses or includes, none needs itself, and each is good |
| `Acceptance.AcceptedIff` | component/wit/check.go:17-40 | packages are accepted iff their names are distinct, each is good, and none refers to itself, be it through uses, includes, imports or exports of other packages |
| `Acceptance.AcceptAll` | component/wit/check.go:17-40 | the checks and the sort together accept what is good, as written, and nothing else |
| `Circles.SortsIff` | component/wit/check.go:636-685 | keys sort iff all they are linked to are keys and no names go round in a circle |
| `CheckedPackages.PathIsDep` | component/wit/check.go:184-205 | every package a use, an include, an import or an export names is a dependency of its package |
| `CheckedPackages.NameListNames` | component/wit/check.go:602-632 | the names a type is sorted by are exactly those it refers to |
| `RankedScopes.KeptTypeWasSorted` | component/wit/check.go:525-551 | a type the resolver declares is one that was sorted, by the names it refers to, even where a use has taken a name over |
| `RankedScopes.TypesAre` | component/wit/resolve.go:391-425 | a scope's types are those defined last under their names, where a kept type takes a name and any use takes it away |
| `RankedScopes.UsesAre` | component/wit/resolve.go:442-462 | a scope's uses are the last kept ones of their aliases, and each leads to the type it names in the interface its path names, unless that is left out |
| `RankedScopes.ScopeNames` | component/wit/resolve.go:344-346 | interfaces are named with their package, inline ones by their own name and copies by their label |
| `RankedScopes.UseGoesDown` | component/wit/resolve.go:442-462 | what a use names belongs to a package sorted earlier, or ranks earlier in its own package: an interface where it was sorted, a world and its inline interfaces above all interfaces |
| `RankedScopes.SortsRankScopes` | component/wit/resolve.go:1064-1123 | on accepted packages every use and every reference in a type goes down by package, then item, then type position, in the scopes of interfaces, worlds, inline interfaces and labelled copies |
| `RankedScopes.SortsRankInterfaces` | component/wit/resolve.go:794-809 | on accepted packages the interfaces a world can reach, inline and labelled ones included, form an acyclic graph, as elaboration needs |
| `RankedScopes.WorldsAreReady` | component/wit/resolve.go:482-554 | so every world of accepted packages meets what elaboration requires |
| `RankedScopes.UsedIfacesAreTheUses` | component/wit/resolve.go:794-809 | a scope's dependencies are listed unless a kept use names an interface left out; each is listed once, and every kept use's is |
| `RankedScopes.OnlyGatesExclude` | component/wit/resolve.go:1079-1096 | on accepted packages whose foreign uses were found, when no feature gate leaves anything out, every name the check has seen is found: an exclusion error is always the work of a gate |
| `RankedScopes.UseIsThere` | component/wit/resolve.go:279-325 | once the check of local uses and the search for foreign ones succeed, and no gate leaves anything out, every use has something to name |
| `ForeignUses.FindTarget` | component/wit/resolve.go:286-307 | what a path into another package names, by the two maps, is the one interface there is for it, or none |
| `ForeignUses.FindForeign` | component/wit/resolve.go:279-325 | looking at every package succeeds iff every kept use of another package finds its interface and its type, in all scopes made of the packages: the hypothesis `ForeignFound` |
| `ForeignUses.ForeignOkIff` | component/wit/resolve.go:286-323 | a kept use of another package passes iff some package of that name has the interface, kept, and it declares the type unless that is hidden |
| `RankedScopes.SplitQualified` | component/wit/resolve.go:1054-1060 | splitting a qualified name gives back its package and interface, so that no two interfaces share one |
| `RankedScopes.QualifyIs` | component/wit/resolve.go:1054-1060 | the interface's name goes between the package's and its version |
| `Scopes.LookupType` | component/wit/resolve.go:1079-1096 | ends at a definition, never at another use, in the scope itself or one ranked below it, or with an exclusion error |
| `Scopes.FoundIffUsesLead` | component/wit/resolve.go:1079-1096 | a type is found at exactly the definition that following its uses, scope by scope, leads to |
| `Scopes.FindType` | component/wit/resolve.go:1079-1096 | the loop over scopes terminates and finds what the recursive lookup finds |
| `Scopes.LookupResource` | component/wit/resolve.go:1064-1074 | ends at a definition that aliases no other type, or with an exclusion error |
| `Scopes.ResourceFoundIffLed` | component/wit/resolve.go:1064-1074 | a resource is found at exactly the definition, itself no alias, that following uses and aliases leads to |
| `Scopes.FindResource` | component/wit/resolve.go:1064-1074 | the loop over aliases terminates and finds what the recursive lookup finds |
| `Elaboration.CollectLabels` | component/wit/resolve.go:687-692 | each interface keeps the last label the world's items give it |
| `Elaboration.LabelIsLast` | component/wit/resolve.go:687-692 | an interface has a label iff some item gives it one, and then the last that does decides |
| `Elaboration.CollectDeclared` | component/wit/resolve.go:734-739 | the interfaces the world's exports name |
| `Elaboration.Elaborator.PlaceImport` | component/wit/resolve.go:696-715 | the closure that updates the shared lists and sets computes the function the theorems are about |
| `Elaboration.Elaborator.PlaceExport` | component/wit/resolve.go:742-775 | likewise for exports, with the three sets deciding between import, export and conflict |
| `Elaboration.ElaborateWorld` | component/wit/resolve.go:685-790 | both passes in place give what the function `Elaborate` gives, errors included |
| `ElaborationLaws.ImportPassExact` | component/wit/resolve.go:695-732 | after the import pass the imports are well placed and are exactly what the world's uses and imports reach; it fails only on an interface whose dependencies a gate hides |
| `ElaborationLaws.ExportPlaces` | component/wit/resolve.go:740-775 | placing one interface keeps the lists right and adds only what it reaches; an "incompatible" answer means a real conflict |
| `ElaborationLaws.SettledExact` | component/wit/resolve.go:733-787 | once all exports are placed, exactly the interfaces an export reaches through an unexported one are required as imports, and there is no conflict |
| `ElaborationLaws.ElaborateSucceedsIff` | component/wit/resolve.go:733-787 | elaboration succeeds iff all that is reached can be read and no exported interface reaches another exported one through one the world does not export; "incompatible ways" is reported only for the latter |
| `ElaborationLaws.OrderIrrelevant` | component/wit/resolve.go:733-787 | success does not depend on the order in which imports and exports are listed |
| `ElaborationLaws.ElaborateGives` | component/wit/resolve.go:685-790 | imports are closed under dependencies, each placed later than its own; exported dependencies come earlier; every unexported dependency of an export is imported; nothing repeats; nothing unreachable is added; funcs keep their order |
| `ElaborationLaws.ElaborateKeeps` | component/wit/resolve.go:685-790 | every import the world had is kept, and the exports are a permutation of those declared |
| `ElaborationOrder.ItemsComeInStages` | component/wit/resolve.go:685-790 | imports and exports come in stages, in the world's order: what the first uses reach, then what the first imports reach besides, and the first exports with what they reach through exported ones, before any other |
| `WorldItems.CheckKeys` | component/wit/check.go:953-999 | accepts a world's imports and exports iff no interface is imported or exported twice and no name is taken twice |
| `WorldItems.KeysApartIff` | component/wit/check.go:953-999 | in other words: no interface twice by its path, no name twice, and no import under the name of a type or a resource's func |
| `WorldItems.AddOk` | component/wit/resolve.go:623-640 | an item an include brings gets in once: an interface already there is merged, and a name that is free cannot be that of an interface already there |
| `WorldItems.BringAllOk` | component/wit/resolve.go:850-856 | all items of an included list get in, renamed, and nothing else does; what was there stays, and no interface comes to be listed twice |
| `WorldItems.BringAllSucceedsIff` | component/wit/resolve.go:642-651 | bringing a list in fails iff a name it brings, after renaming, is taken or comes twice |
| `WorldItems.FreshIff` | component/wit/resolve.go:642-651 | the names brought are free iff no func and no interface a world named, once renamed, has a name that is taken or that another has |
| `WorldItems.BroughtKeys` | component/wit/resolve.go:623-640 | the names taken are always those of the types and of the funcs and interfaces a world named |
| `WorldItems.ImportsAreNeeded` | component/wit/resolve.go:685-732 | what elaboration adds is used by the world or something it lists depends on it, and all that the world uses is imported |
| `WorldItems.ElaborationKeepsLists` | component/wit/resolve.go:685-790 | lists collected in this way meet what `ElaborateKeeps` requires, so elaboration loses nothing, and its result can be included again |
| `WorldResolver.AddOwn` | component/wit/resolve.go:578-618 | a world's own imports and exports make exactly their items, none twice; fails iff one names an interface left out |
| `WorldResolver.IncludeWorld` | component/wit/resolve.go:811-858 | an include brings the types, imports and exports of its world, renamed, and nothing else; fails iff a name is taken or comes twice |
| `WorldResolver.Resolver.ResolveWorld` | component/wit/resolve.go:482-554 | resolving a world resolves all it includes; every world resolved has its own types, funcs and items and all that its includes bring; it exports nothing else, and imports nothing else but what it uses and what something listed depends on, each placed after what it depends on and none twice; an error is that of a world reached through includes |
| `WorldResolver.InterfacesSpread` | component/wit/resolve.go:811-858 | an interface named by its path gets through any chain of includes, whatever they rename |
| `WorldRanks.IncludeGoesDown` | component/wit/check.go:280-299 | the world an include names belongs to a package sorted earlier or was sorted earlier in its own |
| `WorldRanks.SortsRankWorlds` | component/wit/resolve.go:482-487 | on accepted packages no chain of includes comes back to its world, so that resolving a world ends |
| `WorldRanks.TableIsOk` | component/wit/resolve.go:217-273 | the interfaces of accepted packages are as resolving worlds needs them: no cycle, and uses lead to interfaces that paths can name |
| `ElaborationLaws.ElaborateAgain` | component/wit/resolve.go:685-790 | elaborating an elaborated world gives the same lists in the same order |
| `Lowering.ExpandIsRender` | component/wit/types.go:77-229 | lowering a type is unfolding it to resource keys and then putting the mode's tags in; a type that cannot be unfolded fails in every mode |
| `Lowering.RenderSucceedsIff` | component/wit/types.go:94-104 | a probe lowers every unfolded type; a signature exactly those whose resources all have tags and that hold no fixed-length list of none |
| `Lowering.ProbeComplete` | component/wit/resolve.go:122-143 | a type the probe accepts can fail in a signature only for a reached resource with no tag or a zero-length list; what a signature accepts the probe accepts |
| `Lowering.HasBorrowIff` | component/wit/resolve.go:1100-1123 | the check on a result sees a borrow exactly when the lowered tree holds one |
| `Meanings.ExpandIffMeans` | component/wit/types.go:77-229 | lowering gives a tree iff the type means it: names lead through uses to definitions, handles through uses and aliases to resources, and each handle carries the tag given for that resource; shapes and parts are kept, a zero-length list is any list to a probe and nothing to a signature, and a map is keyed by a primitive that is no float |
| `TypeTables.TypeTable.Add` | component/typetable.go:42-49 | a primitive is returned inline and adds nothing; any other descriptor takes the next slot |
| `TypeTables.TypeTable.Resolver` | component/typetable.go:53-60 | a slot resolves iff its index is in range, and to the descriptor stored there |
| `TypeTables.ResolveStable` | component/typetable.go:42-60 | a reference keeps its meaning as slots are added |
| `TypeTables.TableGrows` | component/typetable.go:42-49 | a slot that refers only to earlier slots keeps every index in slot k below k, so that resolution ends and stays in range |
| `TypeTables.ResolveNew` | component/typetable.go:63-181 | a new slot stands for its shape over what its parts stand for |
| `TypeBuilder.Builder.Ref` | component/wit/types.go:77-133 | the reference returned resolves to the tree plain expansion gives, or the same error is returned; a definition or handle already remembered gives its slot again and changes nothing; memo, names and table stay right |
| `TypeBuilder.Builder.CompoundRef` | component/wit/types.go:77-133 | a type written inline is lowered over its parts in order, with the first part's error |
| `TypeBuilder.Builder.Opt` | component/wit/types.go:136-145 | an absent type stays absent; a present one as for `Ref` |
| `TypeBuilder.Builder.NamedRef` | component/wit/types.go:148-198 | a named type is lowered once per table: what is remembered is returned with nothing added, and what is returned is remembered and stands for its expansion |
| `TypeBuilder.Builder.HandleRef` | component/wit/types.go:202-229 | the slot of a handle holds the tag given for the resource that uses and aliases lead to; it is remembered by resource and kind and given again with nothing added |
| `TypeBuilder.Builder.Remember` | component/wit/types.go:233-240 | a slot is named after the first name it is reached by, and only slots of named types are |
| `TypeBuilder.Builder.LowerFunc` | component/wit/types.go:42-74 | the params mean the types declared, after a borrow of its resource called self for a method, and the result the one declared, or an owned handle of its resource for a constructor; types that name one thing share a slot; it fails iff something written means nothing |
| `TypeBuilder.SignatureSucceedsIff` | component/wit/wit.go:293-300 | a func that passed the probe gets a signature iff every resource it reaches has a tag and it holds no zero-length list |
| `Validation.Validate` | component/wit/resolve.go:122-143 | succeeds iff every used name is found, every type and every func lowers without tags, and no result declared has a borrow in it |
| `Validation.ValidIff` | component/wit/resolve.go:122-143 | validation succeeds iff every used name leads to a definition, every type and every func means something, and no result declared means a tree with a borrow in it |
| `Validation.ValidatedHasSignature` | component/wit/resolve.go:122-143 | once this has succeeded, every func has a signature iff its resources have tags and it holds no zero-length list, and its result lowers to one without a borrow |
| `Semver.CompareIdents` | component/wit/gate.go:210-234 | the index loop compares as the recursive definition does |
| `Semver.TrimmedOrderIsNumeric` | component/wit/gate.go:216-222 | comparing trimmed digit strings by length and then as text is comparing the unbounded numbers they denote |
| `Semver.ValueIsDecimal` | component/wit/gate.go:166-181 | digits are read in base ten, one after another |
| `Semver.CompareIsPrecedence` | component/wit/gate.go:189-205 | the comparison is negative, zero or positive as section 11 of Semantic Versioning 2.0.0 ranks the versions, with build metadata deciding only between versions of equal precedence |
| `Semver.CompareIsPreorder` | component/wit/gate.go:189-205 | the comparison is reflexive, antisymmetric in sign and transitive on all versions |
| `Semver.ParseSemver` | component/wit/gate.go:166-181 | the text of a checked version is read back as the numbers and identifiers it was written from |
| `PackageNames.NamesCompareIff` | component/wit/resolve.go:197-216 | swapping two package names swaps the answer, except for equal names without a version; names compare equal iff namespace, name and precedence agree and build identifiers are equal as numbers |
| `PackageNames.CompareNames` | component/wit/resolve.go:197-216 | the comparison of two names as text, cut at '@' and ':', is that of the names they denote |
| `PackageNames.VersionsCompareEqualIff` | component/wit/gate.go:189-234 | two checked versions compare equal iff they are the same text but for leading zeros in the build metadata |
| `PackageNames.DifferentNamesCompareEqual` | component/wit/resolve.go:197-216 | a:b@1.0.0+1 and a:b@1.0.0+01 are different and compare equal |
| `PackageNames.NamesTransitive` | component/wit/resolve.go:197-216 | the order of package names is transitive |
| `PackageNames.NameTextsOrder` | component/wit/resolve.go:197-216 | by namespace, then by name, then by version, none before any: by the numbers, a pre-release before none, and by identifiers, the build's last |
| `PackageNames.ShownAs` | component/wit/gate.go:166-181 | a name is written ns:name@1.2.3-pre+build |
| `DirentCaches.DirentCache.Read` | internal/sys/fs.go:185-260 | succeeds exactly where the window allows and then returns the listing's entries from the position on, up to the number asked for |
| `DirentCaches.DirentCache.ReadFirst` | internal/sys/fs.go:185-260 | the first read puts the dot entries first |
| `DirentCaches.DirentCache.ReadOn` | internal/sys/fs.go:185-260 | a read from inside the window drops what is before it and reads only what is missing |
| `Readdir.MaxDirents` | imports/wasi_snapshot_preview1/fs.go:998-1042 | the 32-bit counting loop finds the entries that fit, the bytes they take and how much of a cut entry is written |
| `Readdir.FitFacts` | imports/wasi_snapshot_preview1/fs.go:998-1042 | what fits is within the room; an entry is cut only when it does not fit whole |
| `Readdir.WriteDirents` | imports/wasi_snapshot_preview1/fs.go:1047-1082 | memory holds the packed entries and the cut header at the buffer, and is otherwise unchanged |
| `Readdir.FdReaddir` | imports/wasi_snapshot_preview1/fs.go:914-990 | when it succeeds and what it then writes; EINVAL iff the buffer is shorter than a header; ENOENT iff the cookie cannot be read from |
| `Readdir.Answer` | imports/wasi_snapshot_preview1/fs.go:958-989 | the packing and the used count are written iff both lie in memory, EFAULT otherwise |
| `Readdir.EndOfDirectory` | imports/wasi_snapshot_preview1/fs.go:937-990 | a buffer reported as not full means that fewer entries came back than were asked for, because that many never fit |
| `Readdir.DecodePacked` | imports/wasi_snapshot_preview1/fs.go:1076-1082 | packed entries decode to themselves with their successors' positions |
| `Readdir.DecodeReply` | imports/wasi_snapshot_preview1/fs.go:1047-1073 | a guest decodes exactly the whole entries of a reply and never a cut one, whatever its buffer held before |
| `Readdir.OneCall` | imports/wasi_snapshot_preview1/fs.go:914-990 | one call gives the next entries in order, at least one unless the directory has ended |
| `Readdir.ReplyIs` | imports/wasi_snapshot_preview1/fs.go:937-1073 | a reply holds as many entries as fit and the header of the next if there is room for that; it reports its length iff all that is left fits, and a full buffer otherwise |
| `Readdir.EnoughIsAsked` | imports/wasi_snapshot_preview1/fs.go:937-942 | the entries asked for are enough: more would make no difference to the reply |
| `Readdir.ReadDirectory` | imports/wasi_snapshot_preview1/fs.go:914-990 | a guest that calls fd_readdir from cookie 0 and resumes after the last entry it read whole gets every entry once, in order, and stops, for any memory and any buffer that holds a header and the longest name |
| `Readdir.AfterReply` | imports/wasi_snapshot_preview1/fs.go:971-989 | after a call the guest's buffer holds what was packed over what it held, and its count the bytes used |
| `Readv.Preader.Read` | imports/wasi_snapshot_preview1/fs.go:794-802 | the offset advances by the bytes read, which are the file's at the old offset; no bytes ask nothing of the file |
| `Readv.ListedAreRead` | imports/wasi_snapshot_preview1/fs.go:845-849 | the vectors a guest writes, each its address and then its length, are the ones that are read |
| `Readv.CapacityFits` | imports/wasi_snapshot_preview1/fs.go:840-886 | vectors that keep apart leave room in memory for their table, so that the 32-bit count cannot wrap |
| `Readv.ReadInto` | imports/wasi_snapshot_preview1/fs.go:847-870 | one vector, wherever it lies, is filled, skipped when empty, or ends the call as its read says |
| `Readv.StepFills` | imports/wasi_snapshot_preview1/fs.go:847-870 | reading into a vector that keeps apart carries the delivery on, or decides the call |
| `Readv.Readv` | imports/wasi_snapshot_preview1/fs.go:840-886 | what the loop does for any vectors, overlapping ones included; for vectors that keep apart, the first not filled decides the outcome, and on success their addresses in order hold the file's bytes from the offset on and nothing else has changed |
| `Readv.ScatteredIsOneRead` | imports/wasi_snapshot_preview1/fs.go:840-872 | for a file that reads all it can, the count is that of one read of the whole capacity; it fails iff a vector outside memory is reached |
| `Readv.FdPread` | imports/wasi_snapshot_preview1/fs.go:808-838 | EBADF without a file, EFAULT without a table or a place for the count; otherwise the vectored read's error, or its count, and for vectors that the guest wrote and that keep apart a scattered read into them |
| `Paths.CleanIsValid` | imports/wasi_snapshot_preview1/fs.go:1775-1783 | a cleaned path is valid iff the path is relative and never stands above its start, and then has the names the path reduces to |
| `Paths.ReduceDrops` | imports/wasi_snapshot_preview1/fs.go:1775-1777 | a name with its "..", a "." and an empty part can be dropped anywhere, as path.Clean documents |
| `Paths.ReduceDropsFirst` | imports/wasi_snapshot_preview1/fs.go:1775-1777 | a rooted path loses the ".." it begins with, as path.Clean documents |
| `Paths.ReduceKeeps` | imports/wasi_snapshot_preview1/fs.go:1775-1777 | a path none of the rules applies to is left as it is |
| `DotDot.DotDotParentsAreDirs` | imports/wasi_snapshot_preview1/fs.go:1810-1837 | never pops an empty stack; succeeds iff a lookup one component at a time gets past every "..", although verified prefixes are not looked up again; otherwise gives the error that lookup gives; ends with the cleaned path's names |
| `DotDot.StatUnder` | imports/wasi_snapshot_preview1/fs.go:1821-1823 | looking up the base and the joined names is going down from the base's directory |
| `DotDot.CleanedFindsTheSame` | imports/wasi_snapshot_preview1/fs.go:1801-1807 | after the walk, the cleaned names find what the component lookup finds, but for a file with "" or "." after it |
| `DotDot.ResolvedFindsTheSame` | imports/wasi_snapshot_preview1/fs.go:1773-1789 | looking up the path atDir returns, with its slash put back, finds what a lookup one component at a time finds, error for error, except exactly for a file with a "." after it |
| `DotDot.DotAfterFileIsFound` | imports/wasi_snapshot_preview1/fs.go:1773-1789 | the path "f/." with f a file is accepted and found, and the component lookup fails |
| `DotDot.StatIsLookup` | imports/wasi_snapshot_preview1/fs.go:1821-1823 | what the filesystem finds at a path is what the component lookup finds |
| `DotDot.WalkFailsIff` | imports/wasi_snapshot_preview1/fs.go:1821-1823 | going down fails with ENOENT iff a directory lacks the next name and with ENOTDIR iff a file is not the end |
| `DotDot.AtDir` | imports/wasi_snapshot_preview1/fs.go:1764-1808 | EPERM iff the path is absolute or ever stands above the directory, EBADF without the descriptor, ENOTDIR for a file; otherwise succeeds iff every ".." can be followed, with the cleaned names, and what is then found is what a component lookup finds but for a "." after a file |
| `Polling.PollMillisIs` | imports/wasi_snapshot_preview1/poll.go:356-368 | the poll waits iff nothing is written and no clock is due, for the time left rounded up by less than a millisecond |
| `Polling.PickedIs` | imports/wasi_snapshot_preview1/poll.go:113-175 | exactly the subscriptions of a kind are set aside, each once, in order |
| `Polling.EarliestIs` | imports/wasi_snapshot_preview1/poll.go:135-138 | the timeout is no later than any clock, and is one of them if there is any |
| `Polling.RecordReadsBack` | imports/wasi_snapshot_preview1/poll.go:412-418 | the k-th 32 bytes of the array are the record of the k-th event |
| `PollOneoff.WriteEvent` | imports/wasi_snapshot_preview1/poll.go:412-418 | one more event stands right after those written, the rest of the array zero and the rest of memory unchanged |
| `PollScripts.IntervalExceeds` | imports/wasi_snapshot_preview1/poll.go:308-349 | the interval that limits a sleep stays below twice the limit and passes it at the seventh sleep |
| `PollScripts.SleepPassesLimitIff` | imports/wasi_snapshot_preview1/poll.go:326-339 | the sleep after a round is longer than the limit iff it is the seventh or later and no clock cuts it short |
| `PollScripts.PollPassesLimitIff` | imports/wasi_snapshot_preview1/poll.go:307-340 | polling files sleeps for longer than the limit iff nothing is told before, they are looked at in rounds, and the seventh or a later one is not the last and leaves that time |
| `PollLaws.CallPassesLimitIff` | imports/wasi_snapshot_preview1/poll.go:307-349 | the same of the whole call |
| `PollLaws.LongSleepIsReached` | imports/wasi_snapshot_preview1/poll.go:342-349 | two subscription records and seven looks for which the call sleeps for 64 ms |
| `PollScripts.FailureOfIs` | imports/wasi_snapshot_preview1/poll.go:316-325 | the code a poll fails with is that of the first failing answer, and there is none iff no answer fails |
| `PollScripts.SleepsAreBounded` | imports/wasi_snapshot_preview1/poll.go:326-339 | every sleep between rounds is for some time and no longer than its interval |
| `PollScripts.PollWaitsIff` | imports/wasi_snapshot_preview1/poll.go:229-341 | polling files waits iff nothing is told, a file can be polled, there is no clock or time is left, and the first of any rounds is not the last; never once an event is written |
| `PollOneoff.ReportAll` | imports/wasi_snapshot_preview1/poll.go:254-289 | an event is written for each file that is ready or unsupported; it fails iff an answer fails, with the first such code |
| `PollOneoff.TellUnpollable` | imports/wasi_snapshot_preview1/poll.go:234-252 | each file that cannot be polled is told so, the others are listed in order |
| `PollOneoff.PollRounds` | imports/wasi_snapshot_preview1/poll.go:307-340 | the first round with an event, a failure or no time left ends the call with that outcome; the sleeps before it are exactly those of the intervals and the time left; with no such round it is still waiting |
| `PollOneoff.PollBlocking` | imports/wasi_snapshot_preview1/poll.go:229-341 | the outcome, the events and every wait are those the host's deciding answers give: of the one poll, or of the last round |
| `PollOneoff.ReadSubs` | imports/wasi_snapshot_preview1/poll.go:113-175 | the first refused subscription ends the call; otherwise each is told at once or set aside, and the timeout is the earliest clock's |
| `PollOneoff.FirstRefusalIs` | imports/wasi_snapshot_preview1/poll.go:113-175 | the error of a refused call is that of the first refused subscription |
| `PollOneoff.TellDue` | imports/wasi_snapshot_preview1/poll.go:198-207 | exactly the clocks whose time is up are told |
| `PollOneoff.PollOneoff` | imports/wasi_snapshot_preview1/poll.go:53-215 | the reply is EINVAL, EFAULT, the first refusal's error, the first failing answer's, still waiting, or success, exactly as subscriptions and answers decide; the waits are exactly `WaitsFor`; on success the guest's array holds the reported events with no gaps and the count is theirs; memory is untouched before the arrays are known to fit, and the events are cleared before the count's place is looked at |
| `PollLaws.EventsAreDistinct` | imports/wasi_snapshot_preview1/poll.go:106-215 | the events are for pairwise different subscriptions, so at most nsubscriptions |
| `PollLaws.NothingDueIsLeftOut` | imports/wasi_snapshot_preview1/poll.go:106-215 | whatever can be told at once, cannot be polled, or is due is reported |
| `PollLaws.SomethingIsTold` | imports/wasi_snapshot_preview1/poll.go:194-207 | with a clock, or with no file deferred, at least one event is reported |
| `PollLaws.ClocksAreDue` | imports/wasi_snapshot_preview1/poll.go:194-207 | a clock is reported only if the elapsed time reached it, or if it is the earliest and only clocks are reported |
| `PollLaws.FilesAreAnswered` | imports/wasi_snapshot_preview1/poll.go:254-340 | a polled file is reported only as the host answered for it |
| `PollLaws.ReportedIffAnswered` | imports/wasi_snapshot_preview1/poll.go:254-262 | a file is reported iff the host answers that it is ready or cannot be polled |
| `PollLaws.ToldIff` | imports/wasi_snapshot_preview1/poll.go:106-215 | every subscription is told exactly what it should be: at once, that its file cannot be polled, what its file answers, or that its time is up; the earliest clocks are up when nothing else can have ended the call |
| `PollLaws.EventsAreInOrder` | imports/wasi_snapshot_preview1/poll.go:106-215 | first what is told at once, then the files that cannot be polled, then those that were, then the clocks, each as the guest listed them |
| `PollLaws.EndsIff` | imports/wasi_snapshot_preview1/poll.go:307-340 | a round is the last iff there was an event before it, the host says something of a file, or the time is up |
| `PollLaws.BatchDecides` | imports/wasi_snapshot_preview1/poll.go:268-289 | several files polled at once: exactly those the poll says are ready are told, all are when it cannot be made, and its failure is the call's |
| `PollLaws.SingleDecides` | imports/wasi_snapshot_preview1/poll.go:291-305 | one file is told what its poll says, and its failure is the call's |
| `PollLaws.RoundDecides` | imports/wasi_snapshot_preview1/poll.go:307-340 | in rounds, the first look at which a file is ready, cannot be polled or fails decides, unless an event or the clock ends the call before |
| `PollRecords.ClockIsRead` | imports/wasi_snapshot_preview1/poll.go:372-397 | a clock's record gives its signed timeout; an absolute time is ENOTSUP and an unknown flag EINVAL |
| `PollRecords.FdIsRead` | imports/wasi_snapshot_preview1/poll.go:139-170 | a descriptor's record: EBADF for a negative one, an unknown tag EINVAL, told at once when there is no such file, when it is to be written or does not block, and waited for otherwise, standard input always |
| `PollRecords.RecordsAreRead` | imports/wasi_snapshot_preview1/poll.go:113-127 | the subscriptions read are the guest's records, one after another |
| `PollRecords.EventSays` | imports/wasi_snapshot_preview1/poll.go:412-418 | the k-th event holds its subscription's user data, its error and its type, and zeros |
| `PollLaws.WaitsAre` | imports/wasi_snapshot_preview1/poll.go:176-192 | with only clocks the wait is exactly for the earliest; nothing is waited for once something is told at once; files polled together, or one alone, are polled once |
| `PollLaws.WaitsIff` | imports/wasi_snapshot_preview1/poll.go:176-192 | the call waits iff nothing is told at once, a file can be polled, and there is no clock or time left to the earliest; or, with no file, iff the earliest clock is not due; never once an event is written |
| `PollLaws.StillWaitingIff` | imports/wasi_snapshot_preview1/poll.go:307-340 | the call is still waiting iff its files are looked at in rounds and none of them is the last, and then nothing is told |
| `PollLaws.DueClockIsWaitedForIff` | imports/wasi_snapshot_preview1/poll.go:178-184 | a clock that is due when the files are polled is waited for iff the time left wraps in 64 bits, nothing is told before, a file can be polled and the first look is not the last |
| `PollLaws.OverdueClockIsWaitedFor` | imports/wasi_snapshot_preview1/poll.go:372-397 | two subscription records for which the call polls for the longest time there is, with the clock due |
| `Args.NullTerminatedByteCount` | internal/sys/sys.go:202-227 | the size of the values with their NULs iff it is within the limit and no value holds a NUL |
| `Args.WriteOffsetsAndNullTerminatedValues` | imports/wasi_snapshot_preview1/wasi.go:232-267 | fails iff an area is not in memory, and changes nothing then; panics iff the table's size wraps in 32 bits; otherwise writes each offset and value over what is there, which for areas that do not overlap is the whole layout |
| `Args.WrappedTablePanics` | imports/wasi_snapshot_preview1/wasi.go:232-245 | 2^30 empty values are within the size limit and fit in memory with a table whose size has wrapped |
| `Args.PanicsOnWrappedTable` | imports/wasi_snapshot_preview1/wasi.go:232-267 | with those values the call panics |
| `Args.OneByOneLaysOut` | imports/wasi_snapshot_preview1/wasi.go:246-265 | written one by one to areas that do not overlap, all offsets and values stand |
| `Args.AreaIsFilled` | imports/wasi_snapshot_preview1/wasi.go:246-265 | the string area is filled exactly and nothing outside the two areas changes |
| `Args.ReadsBack` | imports/wasi_snapshot_preview1/wasi.go:232-267 | the NUL-terminated string at the i-th stored offset is value i |
| `RequestStates.RequestState.CloseRequest` | imports/http_handler/state.go:32-44 | the request body's writer and reader are released in that order and forgotten |
| `RequestStates.RequestState.Close` | imports/http_handler/state.go:50-67 | a guest still held is pooled once, every reader and writer is released in order, and all are forgotten |
| `RequestStates.RequestState.BodyOf` | imports/http_handler/middleware.go:522-583 | each body's reader and writer is its own, opened on first use only and only when the call is allowed, and no other is touched |
| `RequestStates.AllowedIff` | imports/http_handler/middleware.go:650-682 | before next everything is allowed; after it nothing that writes the request, its body only if buffered, and what has to do with the response only if that is |
| `RequestStates.ReleaseAllClears` | imports/http_handler/state.go:32-67 | releasing empties exactly the slots named and releases exactly what was in them |
| `RequestStates.ClosedIsEmpty` | imports/http_handler/state.go:50-67 | closing leaves nothing open |
| `HttpHandler.StartIsExclusive` | imports/http_handler/middleware.go:176-199 | a guest taken from the pool, or a new one, is held by no other request |
| `HttpHandler.GuestsStayOk` | imports/http_handler/middleware.go:151-208 | every step keeps guests exclusive and every request's phase in step with its fields |
| `HttpHandler.HandlesStayOk` | imports/http_handler/middleware.go:522-583 | every step keeps the log's openings and releases in step with what the requests hold |
| `HttpHandler.OrderStaysOk` | imports/http_handler/middleware.go:650-682 | no step uses what is released or writes a request after next |
| `HttpHandler.EveryRunIsSafe` | imports/http_handler/middleware.go:151-208 | in every interleaving: no guest is held twice, held while pooled, or pooled twice; a reader or writer is released at most once and not used after; a closed request has released all it opened exactly once; no request is written after next |
| `HttpHandler.EveryCallUsesItsBody` | imports/http_handler/middleware.go:522-583 | at any point of any run, the handle a call uses was opened for the reader or writer of the body it names, of its request, and is still in its place |
| `HttpHandler.CallWrites` | imports/http_handler/middleware.go:320-620 | a call that is let through writes the request, or the response, or nothing, as its kind says |
| `HttpHandler.NextIsAskedFor` | imports/http_handler/middleware.go:151-174 | next is called only for a request whose guest asked for it |
| `HttpHandler.ReturnEnds` | imports/http_handler/middleware.go:158-173 | left alone after the guest returned, a request waits for next with its guest and its request body released, if it asked for next, and is closed with its guest pooled otherwise |
| `HttpHandler.ResponseEnds` | imports/http_handler/middleware.go:201-208 | the response goes to the guest that had the request, and when it is through the request ends closed and its guest pooled |
| `HttpHandler.EnablingAllows` | imports/http_handler/middleware.go:258-270 | features a guest enables count from then on |
| `HttpHandler.CloseEnds` | imports/http_handler/state.go:50-67 | left alone, a closing request ends with the pool, fields and log that the method Close leaves |
| `Bodies.ReadBody` | imports/http_handler/middleware.go:623-648 | fills the buffer unless the body ends first, with the end in the upper word; fails for no limit, a buffer outside memory or a failed read |
| `Bodies.ReadsWholeBody` | imports/http_handler/middleware.go:623-648 | a guest that reads until told of the end gets the whole body once, in order, whatever pieces it comes in |

## Left out

- Error texts and source positions: errors are small datatypes that say which error arises.
- Include renames that rename types (component/wit/resolve.go:955-979): a type's name is always its key in its scope. What an include brings in without them, and copies under a label, are scopes like any other.
- Top-level uses of a file are taken as applied to the paths that name them, so that duplicate names in a file and uses of foreign worlds are not checked here.
- Strong uniqueness of item names, attributes, feature-gate evaluation and resource funcs (component/wit/names.go, component/wit/gate.go:56-155): each is a single scan. A gate's outcome is a field of what it guards.
- Loading and parsing of WIT files, syscalls, and everything else of the runtime.
- Toposort.Sort: the keys are distinct, as both callers make sure; a name met twice in the key list is not modelled.
- PackageSort.SortPackages: the visiting order is any arrangement of the packages rather than the one sort.Slice makes by name, so which of several cycles is reported is not modelled.
- ForeignUses.FindForeign: covers uses of other packages; includes, imports and exports of what is left out in another package are found missing when their world is resolved.
- WorldResolver.IncludeWorld: what a rename makes of a name is a parameter (component/wit/resolve.go:869-911), and a rename that names nothing is not refused.
- WorldResolver.Resolver.ResolveWorld: a type or use of the world itself that its gate leaves out is not refused, nor is a setter without a getter.
- TypeTables.TypeTable.Add: slots are numbered without bound; a table of more than 2^32 slots is not modelled.
- Semver.ParseSemver: takes a version the parser has checked (internal/component/wit/parser.go:813-853), as the source says; any other text is not modelled.
- DirentCaches.DirentCache.Read: the listing is fixed while it is read, and errors of the directory's own seek and read are not modelled.
- Readv.Readv: the file's content is fixed during the call. For vectors that overlap one another or their table only the steps are stated, since the source reads the table while it writes through the vectors.
- DotDot.AtDir: the tree has no symbolic links and does not change, paths are text rather than UTF-8 bytes, and reading the path from memory is not modelled.
- PollOneoff.PollOneoff: the guest's subscriptions, events and count are disjoint in memory; what files and clocks answer is a parameter, and a call that would wait beyond the last round given is reported as still waiting.
- HttpHandler.EveryRunIsSafe: safety only. A guest is not shown to be returned by every request, since a request that goes on to next and is never answered keeps its guest. Whether closing a reader fails is not modelled.
- HandleRequest and HandleResponse (imports/http_handler/middleware.go:151-208) are not methods here: their steps, and the calls a guest makes in between, are the actions of the state machine in HttpHandler, so that those of other requests can come between any two.
- Bodies.ReadBody: a reader asked for bytes gives some, ends or fails; one that keeps giving none is not modelled, as the source would not return.
- fd_write and the other vectored writes: their loop carries on after a short write and so needs a writer that writes everything.
