# OCM typed objects, Maven coordinates and OCI artifact transfer in Dafny

This project models four parts of the Open Component Model (OCM) Go code base:

- **The unstructured typed object** (`Runtime`, in `runtime.dfy`). This is a string-keyed attribute map whose `"type"` entry mirrors the object's type, plus a byte cache of the last bytes it was read from. The module covers:
  - building and retyping the object;
  - its canonical equality, defined by comparing marshalled bytes;
  - reading it from bytes and writing it back;
  - evaluating it late against a scheme of decoders;
  - deep copies;
  - a small store of attribute maps held by reference, which shows where Go's copies share a map.

  JSON is abstract: a `Codec` is a pair of functions (marshal and parse). A scheme is a lookup from a type name to an optional decoder. A Go `nil` map or pointer is `None`.
- **OCI repository specs** (`RepoTypes`, in `repotypes.dfy`). The module covers:
  - the unknown spec, which parses but refuses to open a repository;
  - the generic spec, which resolves against the scheme of the context it is used in;
  - the conversion of any spec to a generic one;
  - the strict and the non-strict repository type schemes.
- **Maven coordinates** (`Maven`, in `maven.dfy`). The module covers:
  - option application;
  - the GAV, serial and package-URL forms;
  - the serial-form parser;
  - repository paths;
  - file names with the default `jar` extension;
  - reading classifier and extension back from a file name;
  - the checksum/signature file filter.
- **The `ocm oci artifact transfer` command** (`Transfer`, in `transfer.dfy`). The module covers:
  - the command-line split;
  - the target rules checked when the action is created;
  - the per-namespace bookkeeping that deduplicates sources by digest and rejects conflicting tags;
  - the destination of each source;
  - the closing pass, which copies every source and counts the copies.

`Wrappers` (`wrappers.dfy`) holds `Option`, `Result` and `Outcome`. `Text` (`text.dfy`) holds the string and path primitives the code relies on:
- prefix trimming;
- first and last index;
- split and join;
- character replacement;
- the last element of a path and its extension.

Each of these is proved correct against the properties the rest of the model needs, such as split/join round trips and the uniqueness of a split around a separator.

Several helpers come from files that are not part of this model. Their behaviour is fixed as follows:
- A type's kind is its part before the last `/`, or the whole type when there is no such `/` or it is the first character.
- A list of base schemes contributes its first element.
- A reference "is a version" when it has a tag or a digest. It "is a registry" when its repository is empty.
- `path.Join` joins the non-empty parts with `/`, without lexical cleaning.
- A repository type scheme decodes by reading the type header, and fails when the header is missing or empty. It then uses, in order: the decoder registered for that type (in the scheme or its base), the default decoder, or the unknown spec when the scheme is not strict. Otherwise it fails naming the type.

## Model

| member | source | states |
|---|---|---|
| Runtime.FlatMerge | pkg/runtime/unstructured.go:36-41 | the merged map has exactly the keys of both maps; a key of `o` takes `o`'s value and a key only in `m` keeps `m`'s value; the result is nil exactly when `m` is, and a nil `m` is only allowed with nothing to write |
| Runtime.SetType | pkg/runtime/unstructured.go:116-122 | the type becomes `t` and the `"type"` attribute mirrors it; a nil map becomes `{"type": t}`; every other attribute and the byte cache are unchanged |
| Runtime.NewUnstructuredType | pkg/runtime/unstructured.go:91-97 | the new object has type `t`, mirrored in `"type"`, plus every other attribute of `data` unchanged, and an empty cache |
| Runtime.NewEmptyUnstructured | pkg/runtime/unstructured.go:81-84 | the attribute map is exactly `{"type": t}` |
| Runtime.GetRaw | pkg/runtime/unstructured.go:142-151 | the bytes returned are the marshalled attribute map whatever the cache holds, because the refreshed cache belongs to a copy of the receiver |
| Runtime.MarshalJSON | pkg/runtime/unstructured.go:203-209 | serialising gives the same bytes as `GetRaw`, for every byte cache |
| Runtime.SetRaw | pkg/runtime/unstructured.go:153-161 | succeeds exactly when the bytes parse; then the cache is the input and the attributes are its parse, and the type is untouched; otherwise the parse error is returned |
| Runtime.TypeAttribute | pkg/runtime/unstructured.go:187-191 | the type header reads successfully exactly when `"type"` is absent, null or a string; a string is the type, absent or null reads as empty, anything else is an error |
| Runtime.UnmarshalJSON | pkg/runtime/unstructured.go:185-200 | succeeds exactly when the bytes parse and the `"type"` header is a string, null or absent; the cache is the exact input; the type is the header's value, and is mirrored whenever `"type"` is a string |
| Runtime.UnmarshalRoundTrip | pkg/runtime/unstructured.go:185-200 | with a codec that reads back what it writes, reading the canonical bytes of a type-mirrored object gives the object back with its cache refreshed |
| Runtime.Evaluate | pkg/runtime/unstructured.go:164-182 | fails when the object cannot be marshalled; returns the object itself when there is no scheme or no decoder for its type; otherwise returns the decoder's result on the canonical bytes, with a decoder error wrapped with the type |
| Runtime.ToUnstructuredTypedObject | pkg/runtime/unstructured.go:219-237 | nil gives nil; an unstructured object is returned as it is; any other object succeeds exactly when its JSON view marshals and reads back; its cache is then those bytes, its attributes their parse and its type the parsed header |
| Runtime.StructuredToUnstructured | pkg/runtime/unstructured.go:219-237 | with a codec that reads back what it writes, a concrete object whose view carries its type converts to an unstructured object with the same type and attributes and its canonical bytes as cache; converting that again returns it unchanged |
| Runtime.EvaluateThroughUnstructured | pkg/runtime/unstructured.go:164-182 | evaluating with a decoder registered for the object's type that reads bytes back as an unstructured object returns the object with its cache refreshed, canonically equal to it, and evaluating that result again returns it unchanged |
| Runtime.UnstructuredTypesEqual | pkg/runtime/unstructured.go:44-63 | two nils are equal; nil and non-nil are not; different types are not; an object that cannot be marshalled equals nothing; otherwise equal exactly when the marshalled bytes agree |
| Runtime.TypedObjectEqual | pkg/runtime/unstructured.go:66-79 | different types are unequal, an object that cannot be converted equals nothing, and two unstructured objects are equal exactly when their canonical equality holds |
| Runtime.TypedObjectEqualByBytes | pkg/runtime/unstructured.go:44-79 | with a codec that reads back what it writes, two typed objects (concrete, unstructured, or one of each) are equal exactly when their types agree and both serialise, to the same bytes |
| Runtime.UnstructuredEqualityIsEquivalence | pkg/runtime/unstructured.go:44-63 | canonical equality is symmetric and transitive, and reflexive exactly on objects that can be marshalled |
| Runtime.EqualityIgnoresCache | pkg/runtime/unstructured.go:142-151 | an object is canonically equal to itself with any other byte cache, exactly when it can be marshalled |
| Runtime.DeepCopy | pkg/runtime/unstructured.go:124-140 | as written: the copy keeps type and cache, and its attributes are re-read from the cache whenever the cache parses; a cache that does not parse leaves a plain copy |
| Runtime.DeepCopyRevertsSetType | pkg/runtime/unstructured.go:124-140 | after reading `{"type":"a"}` and setting the type to `"b"`, DeepCopy returns an object different from its receiver whose `"type"` no longer mirrors its type |
| Runtime.DeepCopyCorrected | pkg/runtime/unstructured.go:124-140 | the corrected deep copy equals its receiver, nil for nil |
| Runtime.DeepCopyCorrectedIsEqual | pkg/runtime/unstructured.go:124-140 | the corrected copy keeps the type mirrored and is canonically equal to its receiver whenever the receiver can be marshalled |
| Runtime.DeepCopyOfBuiltObject | pkg/runtime/unstructured.go:124-161 | an object built in memory has an empty cache; when the codec rejects empty input, DeepCopy takes its plain-copy path for it |
| Runtime.SetTypeShared | pkg/runtime/unstructured.go:116-122 | with maps held by reference, the object's map is written in place with the new `"type"`, a nil map is replaced by a fresh one, and every other map is untouched |
| Runtime.DeepCopyShared | pkg/runtime/unstructured.go:124-140 | with maps held by reference, as written: a cache that does not parse leaves the copy holding the receiver's map; a cache that parses gives the copy a fresh map holding the parse, and no existing map changes |
| Runtime.DeepCopySharesMap | pkg/runtime/unstructured.go:124-140 | as written: retyping the copy of an object whose cache does not parse rewrites the receiver's `"type"`, so the receiver no longer mirrors its type |
| Runtime.DeepCopySharedCorrected | pkg/runtime/unstructured.go:124-140 | the corrected copy holds a fresh map with the receiver's attributes, type and cache, and no existing map changes |
| Runtime.DeepCopySharedCorrectedIsolated | pkg/runtime/unstructured.go:124-140 | retyping the corrected copy leaves the receiver's attributes unchanged and retypes only the copy |
| Runtime.CopyList | pkg/runtime/unstructured.go:260-269 | the copied list has the same length and, at every index, an object equal to the original one; a nil element is not allowed (dereferencing it panics) |
| Runtime.CopyListShared | pkg/runtime/unstructured.go:260-269 | with maps held by reference, every copied element holds its original's attribute map, type and cache |
| Runtime.CopyListSharesMaps | pkg/runtime/unstructured.go:260-269 | retyping an element of the copied list rewrites the `"type"` its original sees |
| RepoTypes.NewRepositoryTypeScheme | pkg/contexts/oci/internal/repotypes.go:50-53 | the non-strict scheme accepts unknown types, carries the given default decoder and uses the first given base scheme |
| RepoTypes.NewStrictRepositoryTypeScheme | pkg/contexts/oci/internal/repotypes.go:55-58 | the strict scheme accepts no unknown type, has no default decoder and uses the first given base scheme |
| RepoTypes.Decode | pkg/contexts/oci/internal/repotypes.go:50-58 | decoding a payload fails with the parse error, fails when the type is missing or empty, or uses the decoder registered for its type, else the default decoder, else the unknown spec in a non-strict scheme, else fails naming the type |
| RepoTypes.Register | pkg/contexts/oci/internal/repotypes.go:67-69 | registering keeps the base, the default decoder and strictness, and adds the type to the registered ones |
| RepoTypes.RegisterOverrides | pkg/contexts/oci/internal/repotypes.go:67-69 | a registered decoder shadows any decoder for the same type in the base schemes and leaves every other type's decoder unchanged |
| RepoTypes.Name | pkg/contexts/oci/internal/repotypes.go:90-92 | an unknown spec is named `unknown-` plus its kind, a generic spec `generic-` plus its kind (lines 140-142), a concrete spec by its own name |
| RepoTypes.IsUnknown | pkg/contexts/oci/internal/repotypes.go:86-88 | holds of the unknown spec and of no other; `UnknownSurvivesParse` and `KnownToGenericKeepsPayload` show which side a parsed or converted spec lands on |
| RepoTypes.NamesSeparateFamilies | pkg/contexts/oci/internal/repotypes.go:90-92 | an unknown spec's name never equals a generic spec's (lines 140-142); within one family, two names agree exactly when the kinds do |
| RepoTypes.EvaluateGeneric | pkg/contexts/oci/internal/repotypes.go:148-154 | a generic spec fails when it cannot be marshalled and otherwise decodes its canonical bytes with the context's scheme |
| RepoTypes.OpenRepository | pkg/contexts/oci/internal/repotypes.go:156-162 | an unknown spec always fails naming its type (lines 98-100), a concrete spec asks the backend, and a generic spec passes on its evaluation error |
| RepoTypes.GenericDelegates | pkg/contexts/oci/internal/repotypes.go:156-162 | a generic spec that resolves to a non-generic spec opens exactly what that spec opens |
| RepoTypes.MarshalSpec | pkg/contexts/oci/internal/repotypes.go:117 | an unknown or generic spec serialises to its canonical bytes, a concrete spec to its JSON view |
| RepoTypes.NewGenericRepositorySpec | pkg/contexts/oci/internal/repotypes.go:128-138 | reading fails exactly when the payload does not parse with the given unmarshaler, or with YAML when none is given; otherwise the result is a generic spec holding the parsed object |
| RepoTypes.ToGenericRepositorySpec | pkg/contexts/oci/internal/repotypes.go:110-122 | nil stays nil, a generic spec is returned as it is, a marshalling error is passed on; otherwise the bytes are read back with the JSON codec, whose error is passed on and whose object becomes the generic spec |
| RepoTypes.UnknownToGenericKeepsPayload | pkg/contexts/oci/internal/repotypes.go:110-122 | converting an unknown spec to a generic one keeps its type and attributes, given a codec that reads back what it writes |
| RepoTypes.KnownToGenericKeepsPayload | pkg/contexts/oci/internal/repotypes.go:110-122 | with a codec that reads back what it writes, converting a concrete spec gives a generic spec of the same type and attributes caching its canonical bytes, not unknown, named `generic-` plus its kind |
| RepoTypes.UnknownSurvivesParse | pkg/contexts/oci/internal/repotypes.go:98-100 | a payload of a non-empty type no scheme in the chain knows parses to the unknown spec under the non-strict scheme, and opening it fails naming the type |
| RepoTypes.StrictRejectsUnknown | pkg/contexts/oci/internal/repotypes.go:55-58 | the strict scheme refuses the same payload, naming its type |
| RepoTypes.LateBinding | pkg/contexts/oci/internal/repotypes.go:148-154 | a generic spec whose type is registered only after it was read resolves through the decoder registered later |
| Maven.WithOptionalClassifier | pkg/maven/coordinates.go:23-28 | a nil classifier gives a nil option, a present one gives the classifier option with its value |
| Maven.WithOptionalExtension | pkg/maven/coordinates.go:36-41 | a nil extension gives a nil option, a present one gives the extension option with its value |
| Maven.ApplyOptions | pkg/maven/coordinates.go:62-70 | applying options never changes group, artifact or version and never clears a present classifier or extension |
| Maven.ApplyOptionsLastWins | pkg/maven/coordinates.go:62-70 | applying options in order keeps group, artifact and version; the last classifier option and the last extension option win, and nil options change nothing |
| Maven.NewCoordinates | pkg/maven/coordinates.go:62-70 | new coordinates carry the given group, artifact and version, and the classifier and extension of the last options that set them |
| Maven.NewCoordinatesOptions | pkg/maven/coordinates.go:21-45 | the classifier and extension options make those fields present; the optional forms given nil leave them absent |
| Maven.GAV | pkg/maven/coordinates.go:73-75 | the colon-separated pieces of the GAV form are those of the group, the artifact and the version in turn |
| Maven.String | pkg/maven/coordinates.go:78-80 | the colon-separated pieces of the serial form are those of the group, artifact, version, classifier and extension in turn, absent fields as empty |
| Maven.Purl | pkg/maven/coordinates.go:125-127 | the package URL starts with `pkg:maven/`, and its slash-separated pieces after that are the group's, then those of `artifact@version` |
| Maven.Parse | pkg/maven/coordinates.go:191-208 | fails exactly when there are fewer than two colons; the first three parts are colon-free; the classifier is present exactly with three or more colons, the extension with four or more |
| Maven.ParseString | pkg/maven/coordinates.go:78-80 | the serial form of colon-free coordinates parses back to them, with absent classifier and extension read back as present and empty |
| Maven.ParseGAV | pkg/maven/coordinates.go:73-75 | the GAV form of colon-free group, artifact and version parses back to them, with no classifier and no extension |
| Maven.PurlInjective | pkg/maven/coordinates.go:125-127 | the package URL determines group, artifact and version when the group has no `/` and the artifact has no `@` |
| Maven.GroupPath | pkg/maven/coordinates.go:116-118 | the group path has the group's length, no `.`, and at every position the group's character with `.` turned into `/` |
| Maven.GavPath | pkg/maven/coordinates.go:83-85 | the slash-separated pieces of the repository path are those of the group path, the artifact and the version in turn |
| Maven.GavPathSegments | pkg/maven/coordinates.go:83-85 | the directories of the repository path are the dot-separated parts of the group, then the artifact, then the version |
| Maven.FileNamePrefix | pkg/maven/coordinates.go:120-122 | the prefix is the artifact, a dash at the artifact's length, then the version |
| Maven.FileName | pkg/maven/coordinates.go:91-102 | every file name starts with `artifactId-version`; the whole value is given by `FileNameShape` |
| Maven.FileNameShape | pkg/maven/coordinates.go:91-102 | the file name is `artifactId-version`, then `-classifier` for a non-empty classifier, then `.` and the extension, or `jar` when it is absent or empty |
| Maven.FilePath | pkg/maven/coordinates.go:107-109 | the slash-separated pieces of the file path are those of the repository path, then those of the file name |
| Maven.FilePathEndsInFileName | pkg/maven/coordinates.go:107-109 | the file path is the repository path, a `/`, then the file name, which is the path's last element |
| Maven.SetClassifierExtensionBy | pkg/maven/coordinates.go:130-145 | fails exactly when a classifier dash follows the prefix with no `.` after it; otherwise both fields become present, the classifier has no `.`, classifier `.` extension is what follows the dash, only those two fields change, and without a dash the classifier is empty and the extension is the rest without its leading `.` |
| Maven.SplitClassifier | pkg/maven/coordinates.go:134-139 | the part after the classifier dash splits at its first `.` into a dot-free classifier and the rest, and has no split without a `.` |
| Maven.SetClassifierExtensionRoundTrip | pkg/maven/coordinates.go:130-145 | reading back the file name of coordinates with slash-free fields and a dot-free classifier restores the classifier (absent as empty) and the effective extension |
| Maven.IsResource | pkg/maven/coordinates.go:211-218 | a file is not a resource exactly when its extension is `.asc`, `.md5`, `.sha1`, `.sha256` or `.sha512` |
| Maven.ChecksumFileIsNotResource | pkg/maven/coordinates.go:211-218 | a file named with a checksum or signature extension after any name is not a resource |
| Maven.ArtifactFileIsResource | pkg/maven/coordinates.go:211-218 | the artifact's own file is a resource when its effective extension is none of the checksum or signature extensions |
| Transfer.Complete | cmds/ocm/commands/ocicmds/artifacts/transfer/cmd.go:84-91 | with no arguments the command fails (when no repository option is given); otherwise the sources followed by the target are exactly the arguments |
| Transfer.CompleteSplitsLast | cmds/ocm/commands/ocicmds/artifacts/transfer/cmd.go:84-91 | the last argument is the target and all before it are the sources |
| Transfer.NewAction | cmds/ocm/commands/ocicmds/artifacts/transfer/cmd.go:124-152 | passes on parse errors and fails for a target digest; succeeds exactly when the target parses without a digest, resolves, and is not a version combined with transferred names; a registry target forces transferred names; the new action is empty and satisfies the invariant |
| Transfer.Add | cmds/ocm/commands/ocicmds/artifacts/transfer/cmd.go:154-187 | fails exactly for a repository-less source under a registry target or for a tag already recorded in the namespace with another digest; otherwise appends the source exactly when it is new, only ever adds entries to the namespace tables, touches no other namespace, and records an appended source's digest |
| Transfer.AddPreservesValid | cmds/ocm/commands/ocicmds/artifacts/transfer/cmd.go:154-187 | adding keeps the invariant: every source is recorded under its namespace with its digest, no two sources share namespace and digest, the recorded namespaces are those of the sources, and a registry target has no repository-less source |
| Transfer.AddIdempotent | cmds/ocm/commands/ocicmds/artifacts/transfer/cmd.go:164-186 | adding the same source a second time changes nothing |
| Transfer.ConflictingTagRejected | cmds/ocm/commands/ocicmds/artifacts/transfer/cmd.go:169-176 | a tag recorded in a namespace for one digest rejects a source with that tag and another digest |
| Transfer.AddAllPreservesValid | cmds/ocm/commands/ocicmds/artifacts/transfer/cmd.go:154-187 | any run of additions keeps the invariant |
| Transfer.Target | cmds/ocm/commands/ocicmds/artifacts/transfer/cmd.go:229-245 | with transferred names the repository is the target repository joined with the source's and the tag is the source's tag or empty; otherwise every source goes to the target repository, with the target's tag for a version target and the source's tag or empty otherwise |
| Transfer.RegistryTargetKeepsRepository | cmds/ocm/commands/ocicmds/artifacts/transfer/cmd.go:229-237 | for a registry target every source keeps its own repository name |
| Transfer.TransferredNamesSeparate | cmds/ocm/commands/ocicmds/artifacts/transfer/cmd.go:229-237 | below a repository target with transferred names, sources from different repositories land in different repositories |
| Transfer.Delivered | cmds/ocm/commands/ocicmds/artifacts/transfer/cmd.go:194-200 | the count of copied sources is at most their number; every source before it was copied, and the source at it failed |
| Transfer.Close | cmds/ocm/commands/ocicmds/artifacts/transfer/cmd.go:189-201 | refuses several source repositories without transferred names before copying anything; otherwise copies in order, counts exactly the leading successes, succeeds exactly when all were copied, returns the first failure, and changes nothing but the count |
| Transfer.CollectedReadyToClose | cmds/ocm/commands/ocicmds/artifacts/transfer/cmd.go:129-144 | collecting sources copies nothing yet and leaves the action fit for computing targets, because the target rules exclude a version target without a tag |

## Left out

- `Coordinates.MimeType` and `Coordinates.FilterFileMap`: they depend on the platform MIME table and an external regular-expression library.
- `Coordinates.Copy`: Dafny datatypes are values, so a copy is the value itself.
- `GavLocation` and `Location`: the repository type they extend is not part of this model.
- The JSON and YAML encoders: they are the abstract `Codec`. `reflect2.IsNil` is modelled as `None`. JSON `null` for a whole map is not distinguished from an absent map.
- The debug print in `UnmarshalJSON` is left out.
- `UnstructuredVersionedTypedObject`, which the repository specs embed: it is treated like the plain unstructured object. Its source is not part of this model.
- `ToUnstructuredObject`: it is not among the modelled operations.
- `UniformRepositorySpec`, `KnownTypes`, `RegisterRepositoryType` and `CreateRepositorySpec` (beyond registration): they rely on the runtime scheme source, which is not part of this model.
- The runtime type scheme's decode order: it is fixed as described above, because its source is not part of this model.
- Runtime.TypeAttribute: only the exact key `"type"` is read. Go's `encoding/json` matches struct keys case-insensitively, so it also reads `"Type"` or `"TYPE"`, and rejects a non-string value under such a key. The model reads such a payload as untyped.
- Runtime.UnmarshalJSON: the type comes from `TypeAttribute`, so a payload that names its type under a case variant of `"type"` gets the empty type. `RepoTypes.Decode` then rejects it as untyped.
- RepoTypes.NewGenericRepositorySpec: the byte cache holds the input bytes as given, also when the YAML codec reads them. Go's YAML encoding converts the input to JSON before the object reads it, so Go caches that JSON instead. The conversion is not part of this model.
- RepoTypes.Decode: the rejection of a missing or empty type is assumed for the runtime scheme's `Decode`, whose source is not part of this model.
- RepoTypes.OpenRepository: a generic spec that evaluates to another generic spec is followed at most `fuel` times. The Go code recurses without bound.
- Credentials passed to `Repository`: they are left out.
- Runtime.FlatMerge: a nil receiver with a non-empty `o` panics in Go. That case is excluded by the precondition rather than modelled.
- Runtime.CopyList: a nil element panics in Go. That case is excluded by the precondition.
- Runtime.CopyList: each copied element is a struct copy that shares its original's attribute map and cache. The value model does not show this; `CopyListShared` and `CopyListSharesMaps` do.
- Runtime.NewUnstructuredType: it writes `"type"` into the caller's map in Go. The model returns a new map and does not show that aliasing.
- Runtime.DeepCopy: the value model gives every copy its own map. In Go, the plain-copy path (a cache that does not parse, which includes every object built in memory) shares the receiver's map. Only the by-reference members `DeepCopyShared` and `DeepCopySharesMap` show that sharing.
- Runtime.FlatMerge: Go writes into the receiver's map and returns it, so every holder of that map sees the merge. The model returns a new map.
- Runtime.SetType: Go writes `"type"` into the object's map in place, so an object sharing that map is retyped too. The value model does not show this; `SetTypeShared` does.
- Transfer.Complete: with no arguments but a repository option, Go indexes `args[-1]` and panics. That case is excluded by the precondition.
- Transfer.Target: a version target without a tag and without transferred names dereferences a nil tag. The precondition excludes it, and `NewAction` never builds such an action.
- `Command.Run`, `AddFlags`, sessions, `Out` and the printing in `handleArtifact` are left out.
- The namespace lookup and `TransferArtifact` inside `handleArtifact`: they are the abstract `deliver` outcome that drives the `copied` count.
- The type assertion in `action.Add`: sources are typed in the model.
- `CreateIfMissing` and `TypeHint` set on the target reference: they only influence the registry lookup, which is the abstract `determine` outcome.
- `ParseRef`: it is the abstract `parseRef` function, because the reference grammar is not part of this model.
- `utils.HandleOutput`, which feeds sources to `Add`: it is not part of this model. `AddAll` stops at the first rejection only to state the invariant over runs of additions.
- `path.Join`: its lexical cleaning is left out.

## Findings

| source | as written | input that shows it | evidently intended | confidence | as-written member | corrected member |
|---|---|---|---|---|---|---|
| pkg/runtime/unstructured.go:124-130 | `DeepCopyInto` starts with a struct copy, which shares the attribute map, and keeps it when the byte cache does not parse | `NewEmptyUnstructured("a")`, `DeepCopy`, then `SetType("b")` on the copy: the original's `"type"` becomes `"b"` while its type stays `"a"` | a copy with a map of its own | not executed | Runtime.DeepCopySharesMap | Runtime.DeepCopySharedCorrectedIsolated |
| pkg/runtime/unstructured.go:124-140 | `DeepCopyInto` copies the object and then re-reads the attribute map from the byte cache, which `SetType` does not refresh | read `{"type":"a"}`, call `SetType("b")`, then `DeepCopy`: the copy has type `b` but `"type": "a"` | a copy equal to its receiver | not executed | Runtime.DeepCopyRevertsSetType | Runtime.DeepCopyCorrectedIsEqual |
