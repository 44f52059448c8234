# aws-marketplace-cli core, modelled in Dafny

A model of the core of `aws-marketplace-cli`, a command-line tool that keeps an
AWS Marketplace product's listing and container versions as YAML files under
`data/<product>/`. The model covers these parts:

- **Transcoder** (`transcoder.dfy`): `convertToDst`, which turns a local version
  record (`YAMLVersionData`) into the change-set payload (`DstVersionData`). It
  proves which fields reach the payload and that the payload determines exactly
  those fields.
- **Replace** (`replace.dfy`): `bytes.Replace(input, []byte(src), []byte(dst), -1)`
  as the `clone` command uses it. This covers the UTF-8 encoding of the version
  strings, the left-to-right scan, its agreement with the `bytes.Index` loop, and
  the length it produces.
- **FileStore** (`filestore.dfy`): the files under `data/`, as a value (`Disk`)
  and as a class (`FileSystem`) whose methods mirror `os.Stat`,
  `ioutil.ReadFile` and `ioutil.WriteFile`. Both have the "write only if
  changed" step shared by `dump` and `dump-versions`.
- **Catalog** (`catalog.dfy`): the eight product types, `getEntityTypeAndChangeType`,
  `getProductEntityID` over one `ListEntities` answer, and the loop that resolves
  a product name by trying each type in turn.
- **Listing** (`listing.dfy`): `listProducts`. It validates the requested type,
  pages through `ListEntities`, skips a type the catalog rejects as an unknown
  entity type, prints each non-empty type's names sorted, and prints a notice
  when nothing was found.
- **VersionFiles** (`versionfiles.dfy`): `dumpVersions`, which writes one file per
  catalog version, and `cloneProductVersion`, which derives a version file from
  another by text replacement.
- **ProductDump** (`productdump.dfy`): `dumpProduct`, which writes the product
  description without its versions.

Every command that runs step by step is a `method` on a `FileSystem` object, or
over its inputs. Each method is proved equal to a specification function, and
the lemmas state the promised properties about those functions.

Calls to AWS become parameters:
- `listEntities(type)` is the one answer `getProductEntityID` reads.
- `answers(type)` is the finite sequence of answers the pagination loop of
  `listProducts` reads.
- `describe(id)` is `DescribeEntity` followed by `json.Unmarshal`.
- `marshal` is `yaml.Marshal`.

`version.go:157` calls the two-argument `getProductEntityID` of `main.go:140-160`,
not the three-argument one of `product.go:211`. That lookup scans one
`ListEntities` answer for the type `"ContainerProduct"` (`main.go:144`). Its two
"not found" errors do not name the type: one names only the product
(`main.go:151`), and the other is a bare "entity not found" (`main.go:159`).
`Catalog.LookupContainerEntity` models it as the general lookup for
`"ContainerProduct"`, with those two errors replaced by `NoContainerEntities` and
`ContainerEntityNotFound`.

## Model

| member | source | states |
|---|---|---|
| Transcoder.ConvertToDst | version.go:95-133 | the payload carries the record's release notes and title, and exactly one delivery option per local option, in order; each is built from its option's title, short description, usage, compatible services and deployment resources, with the first source's images |
| Transcoder.ConvertOptions | version.go:105-127 | one payload option per local option, in the same order, each with the transcoded fields |
| Transcoder.ConvertResources | version.go:117-122 | one payload resource per recommended deployment resource, in order, with Text as Name and URL as Url |
| Transcoder.RecoverAfterConvert | version.go:95-133 | round trip: every kept field of the local record can be read back from the payload |
| Transcoder.TranscodedUnique | version.go:105-127 | two options that agree on their kept fields give the same payload option |
| Transcoder.ConvertIgnoresDropped | version.go:95-133 | the id, upgrade instructions, creation date, the other sources and the dropped option fields do not affect the payload |
| Transcoder.ConvertDropsExactly | version.go:95-133 | two records give the same payload if and only if they agree on every kept field |
| Transcoder.ConvertWithoutOptions | version.go:104-130 | a record without delivery options converts even with no source, to the version fields and an empty option list |
| Replace.IndexIsFirst | version.go:291 | the scan's search finds the first occurrence of the pattern, and reports -1 exactly when there is none |
| Replace.ReplaceWithoutOccurrence | version.go:291 | text with no occurrence of the source version comes back unchanged |
| Replace.ReplaceAtFirstOccurrence | version.go:291 | the replacement copies up to the first occurrence, emits the destination version, and continues after the occurrence |
| Replace.ReplaceByItself | version.go:291 | replacing a version string by itself leaves the text unchanged |
| Replace.ReplaceLength | version.go:291 | the output length is the input length plus, for each replaced occurrence, the difference in length between the two version strings |
| FileStore.Disk.WriteIfChanged | product.go:291-305 | it writes nothing exactly when the file already holds the data; it fails exactly when the file exists but cannot be read, or when it must be written and the write is refused; otherwise the file then holds the data; no other file changes |
| FileStore.FileSystem.WriteIfChanged | version.go:183-197 | the Stat, ReadFile, compare and WriteFile sequence has the effect and outcome of Disk.WriteIfChanged |
| Catalog.EntityTypeIsVersioned | product.go:312-333 | every product type, named or not, maps to itself followed by "@1.0", with change type "UpdateInformation" |
| Catalog.FirstNamed | product.go:223-227 | the position found holds the name and no earlier summary does; no position means no summary has the name |
| Catalog.LookupEntityFindsFirst | product.go:211-229 | the lookup returns the call's own error, an error for an empty answer, the ID of the first summary named as the product, or "entity not found" when none is |
| Catalog.GetProductEntityID | product.go:211-229 | the scan that returns at the first matching summary gives the result LookupEntityFindsFirst describes |
| Catalog.ContainerLookupRules | main.go:140-160 | the container lookup returns the call's own error, an error naming only the product for an empty answer, the ID of the first summary named as the product, or a bare "entity not found" |
| Catalog.ResolveInPicksEarliest | product.go:259-268 | resolution returns the earliest type whose lookup succeeds, with its ID; it fails exactly when every type fails, and then carries the last type's error |
| Catalog.ResolveInAt | product.go:358-364 | when the lookups before a type fail and the one for that type succeeds, resolution returns that type and its ID |
| Catalog.ResolveProductType | product.go:358-368 | the loop that keeps the last error and breaks at the first success gives the resolution above, wrapped in "could not find product in any supported type" when all fail |
| Strings.ContainsAt | product.go:166 | strings.Contains holds exactly when the piece occurs at some position |
| Strings.SortStrings | product.go:193 | the printed names are sorted and are a permutation of the names listed |
| Strings.SortedPermutationUnique | product.go:193 | a sorted permutation is unique, so sort.Strings gives exactly SortStrings |
| Listing.ConcatHoldsPageNames | product.go:172-187 | a name is collected exactly when some page of the type carries it |
| Listing.ListTypeRules | product.go:162-187 | a failing first call is skipped, with no names, exactly when it is a validation error about the entity type, and is otherwise a listing error; a failing later call is a pagination error; otherwise the names of every page are listed |
| Listing.ListEntityType | product.go:162-187 | the first call, then the loop that appends each page's names and follows the continuation token, gives ListType |
| Listing.CheckRequestedType | product.go:136-149 | "all" selects the eight types, a valid type only itself, and any other string is an invalid-type error |
| Listing.PrintedSortsEachGroup | product.go:189-197 | the printed groups keep the types and their order, and each type's names are printed as their sorted permutation |
| Listing.RunGroupsAreListings | product.go:155-198 | every printed group belongs to a selected type whose listing succeeded with names, and holds exactly those names |
| Listing.RunPrintsInOrder | product.go:155-198 | the loop prints one group for every type before the one that stops it (or every type, when none fails) that listed names, in type order, and nothing else |
| Listing.CollectedMembers | product.go:189-197 | a group is printed exactly when some type in the range listed names, and it holds that type and its names |
| Listing.RunStopsAtFirstError | product.go:155-198 | the loop stops at the first type whose listing fails, with that error, and runs to the end exactly when no listing fails |
| Listing.RunEmpty | product.go:151-198 | nothing is printed and nothing fails exactly when every selected type lists no name |
| Listing.ListProductsRules | product.go:136-206 | an invalid type fails before any call; a valid type's output depends on its own answers alone; the notice appears exactly when nothing was printed and nothing failed, and names the requested type unless it is "all" |
| Listing.ListTypes | product.go:155-198 | the loop over the selected types prints what the specification prints, and returns the error that stops it |
| Listing.ListProductsCommand | product.go:115-209 | the command's groups, notice and error are those of the listProducts specification |
| VersionFiles.DumpLoopFrame | version.go:175-200 | the dump loop changes no file but the versions' own, and no write permission |
| VersionFiles.DumpLoopStopsAtFirstUnchanged | version.go:175-201 | after a successful dump, as the code is written, there is a position such that every earlier version had a stale file and now holds its data, the version at that position is the first whose file was already up to date, and that version's file and every later one are left as they were |
| VersionFiles.DumpLoopFailsExactly | version.go:175-201 | the loop as written fails exactly when some version cannot be marshalled, has an unreadable file, or needs a write that is refused, and every version before it had a stale file; a version already up to date before any such one makes it return success |
| VersionFiles.DumpLoopPassesWhenWritable | version.go:175-201 | when every version marshals and every version file is absent or readable, and writable, the loop returns success |
| VersionFiles.DumpLoopRerunWritesNothing | version.go:183-192 | a second dump with the same versions succeeds and changes nothing |
| VersionFiles.EarlyReturnLeavesLaterVersionStale | version.go:189-192 | with "1.0" up to date and "2.0" stale, the loop as written succeeds and leaves "2.0" stale; the corrected loop updates it |
| VersionFiles.DumpLoopContinuingFrame | version.go:175-200 | the corrected loop changes no file but the versions' own |
| VersionFiles.DumpLoopContinuingWritesAll | version.go:183-197 | with the corrected loop, a successful dump leaves every version's file holding that version's data |
| VersionFiles.DumpLoopContinuingFailsExactly | version.go:175-197 | with the corrected loop, the dump fails exactly when some version cannot be marshalled, has an unreadable file, or needs a write that is refused, wherever it stands in the list |
| VersionFiles.DumpLoopContinuingUpToDate | version.go:183-197 | with the corrected loop, a run over files that already hold their data succeeds and writes nothing |
| VersionFiles.DumpVersions | version.go:149-202 | the container lookup, the description and the write loop have the outcome and effect of the dumpVersions specification |
| VersionFiles.CloneRules | version.go:268-299 | an unreadable destination, other than a missing one, fails without writing, as does an unreadable source; a destination equal to the raw source is left alone; the clone fails exactly in those cases and when a needed write to the destination is refused; otherwise the destination ends up holding the rewritten source; no other file changes |
| VersionFiles.CloneTwice | version.go:268-299 | after a successful clone, a second clone succeeds and changes nothing |
| VersionFiles.CloneSkipsRawCopy | version.go:272-281 | a destination that is a byte copy of the source, "1" cloned to "2", is left as it is although the rewrite would change it |
| VersionFiles.CloneCheckedWritesRewrite | version.go:272-295 | with the corrected check, a successful clone always leaves the destination holding the rewritten source, and writes only when it did not already; it fails exactly when the destination cannot be read for a reason other than its absence, the source cannot be read, or a needed write is refused |
| VersionFiles.CloneProductVersion | version.go:268-299 | the read, compare, read, replace and write sequence has the outcome and effect of the clone specification |
| ProductDump.DumpProductWritesDescription | product.go:283-308 | a successful dump leaves the description file holding the marshalled description; it writes only when the file held something else; a failed lookup, description or marshal fails with that error and writes nothing; the dump fails exactly then, or when the file exists but cannot be read, or when the file must be written and the write is refused; no other file changes |
| ProductDump.DumpProductIgnoresVersions | product.go:283 | descriptions that differ only in their versions give the same dump |
| ProductDump.DumpProductTwice | product.go:291-305 | a second dump with the same catalog answers succeeds and changes nothing |
| ProductDump.DumpProduct | product.go:237-309 | resolution, description, marshalling and the skip-unchanged write have the outcome and effect of the dumpProduct specification |

## Left out

- AWS SDK calls (`ListEntities`, `DescribeEntity`) are not modelled as calls. Their answers are parameters of the model.
- `config.LoadDefaultConfig` is left out, with its failure path (`product.go:116-119`, `product.go:238-241`, `version.go:150-153`). Each command starts from a loaded configuration.
- `StartChangeSet` is not part of this model.
- The JSON and YAML codecs are function parameters that may fail. Their formats are not modelled.
- Printing (`fmt.Printf`, `fmt.Println`) is left out. `listProducts` output is modelled as the printed groups plus the notice.
- `os.MkdirAll` and `filepath.Join` in `getYamlFilePath` are left out. Paths are the datatype values `DescriptionFile(product)` and `VersionFile(product, title)`, so path cleaning and directory creation are not modelled.
- The creation date (`time.Time`) of a local version record is an opaque integer instant. The transcoder never reads it.
- Every section of a DescribeEntity document other than the version list is one opaque value. Within a version, every field but the title is one opaque value.
- Error texts are not modelled. Each error is a constructor that carries the values its message names.
- `updateProduct` after the resolution loop (the `noOp` output and the change set) is not part of this model.
- `pushNewVersion` is not part of this model beyond `convertToDst`.
- `cli.go` and `main.go` are not part of this model, apart from main.go's two-argument `getProductEntityID` (`main.go:140-160`), which dumpVersions calls. The rest of `main.go` is an older set of commands (`list`, `dump`, `update-description`) with its own `getYamlFilePath` (`main.go:134-138`).
- Nil and empty slices are the same empty sequence.
- Strings are sequences of code points. `Strings.Le` compares code points, which for valid UTF-8 orders strings as Go's byte-wise comparison does.
- Transcoder.ConvertToDst: requires a first source whenever there is a delivery option, because Go panics with an index error otherwise. The panic is not modelled as an outcome.
- Listing.ListEntityType: requires a finite answer sequence that ends in an error or a page without a continuation token. A catalog that never stops paginating is not modelled.
- Listing.ListProductsCommand: requires finite answers for all eight types, as ListEntityType does.
- VersionFiles.CloneProductVersion: requires a non-empty source version. `bytes.Replace` with an empty pattern inserts the replacement between every character, which is not modelled.
- VersionFiles.DumpLoopStopsAtFirstUnchanged, VersionFiles.DumpLoopFailsExactly, VersionFiles.DumpLoopPassesWhenWritable, VersionFiles.DumpLoopRerunWritesNothing, VersionFiles.DumpLoopContinuingWritesAll, VersionFiles.DumpLoopContinuingFailsExactly: require distinct version titles, which the Go code does not check. The catalog keeps version titles unique. Two titles that `filepath.Join` would clean to the same path are not modelled.
- FileStore.Disk.Write: a refused write leaves the file unchanged. A partial write or truncation by `ioutil.WriteFile` is not modelled.
- FileStore.Disk.Read: a file that exists but cannot be read has no content in the model. The reasons a read fails are not distinguished.
- VersionFiles.DumpVersions: follows the code as written, with the early return. The corrected loop, `VersionFiles.DumpLoopContinuing`, is a specification function with its own lemmas and has no method.
- VersionFiles.CloneProductVersion: follows the code as written, comparing with the raw source. The corrected check is `VersionFiles.CloneChecked`.

## Findings

| source | as written | input that shows it | evidently intended | confidence | as-written member | corrected member |
|---|---|---|---|---|---|---|
| version.go:189-192 | when a version's file already holds its data, `dumpVersions` returns success and no later version is written | versions "1.0" and "2.0", where the file for "1.0" is up to date and the file for "2.0" is stale | skip the unchanged version and go on with the next, as the "check if file has changed" comment and the message describe | medium, not executed | VersionFiles.EarlyReturnLeavesLaterVersionStale | VersionFiles.DumpLoopContinuingWritesAll |
| version.go:278 | the clone is skipped when the destination equals the raw source file, not the rewritten one | source "1" holding byte 49 ("1"), destination "2" holding the same byte: nothing is written, though the clone should write byte 50 ("2") | skip only when the destination already holds the rewritten source | medium, not executed | VersionFiles.CloneSkipsRawCopy | VersionFiles.CloneCheckedWritesRewrite |
