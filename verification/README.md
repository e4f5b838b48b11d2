# nix2rdf in Dafny

nix2rdf turns Nix and Kubernetes facts into content-addressed RDF fragments and reasons over them with
Datalog packs. This project models the algorithms on which its identities and derived facts rest, and proves
what they promise: names that do not depend on labels or order, closures that are exact, rules and direct
evaluation that agree, and encoders and parsers that undo each other.

A Rust string is the sequence of its UTF-8 bytes, one `char` (0 to 255) per byte (`Texts.Text`); all delimiters the
code splits at are ASCII. SHA-256 is a parameter `sha`. No property assumes it injective; where a property
needs freedom from collisions it asks for it on the finitely many texts it is about. Ordered maps and sets are
Dafny maps and sets, traversed in key order through `Sorting.InOrder`.

| file | models |
|---|---|
| `Texts`, `Sorting`, `Reachability` | string order and splitting, lines; sorting, deduplication, bags; paths in graphs |
| `Hashing` | length-prefixed framing, `input_hash` |
| `CanonicalJson`, `JsonText` | the recursive member sort of `canonical_json`, and the text that is hashed |
| `NTriples`, `NQuads` | term rendering, fragments as sorted lines, the text scans `objects_of` and `read_input` |
| `Base64`, `Iri`, `Fragments`, `Names` | base64 and percent-encoding, node and graph IRIs, `fragment_for_iri`; the naming tables of IRI.md |
| `Nulls` | `canonicalize_nulls` |
| `Datalog`, `CorePack` | rules, least models, naive evaluation; the meaning of the core pack |
| `NetworkPolicies`, `PolicyFacts`, `ReachabilityIris` | expansion of policies to edges, the ingress rules, direct evaluation; what a policy contributes; the same rules over IRIs |
| `SelectInputs`, `RuntimeClosure` | the worklists over fragments, store paths and `.drv` files |
| `Packs`, `PackOrder` | pack resolution, the load order pack by pack, the ruleset hash |
| `Aterm`, `DrvFile` | the `.drv` parser against a printer |
| `Follows`, `LockGraph` | `resolve_follows`, the lock graph, and `resolvesTo` over it |
| `Placement`, `Snapshot`, `SnapshotFacts` | pod owners, placement counts, pulled digests; the snapshot fragment and its hash; its lines and triples one by one |
| `ClusterSnapshot` | the snapshot builder with the network policies: from manifests to triples to reachability |
| `Index` | fragment files, query index and `.loaded` marker as a state machine |

The rules of the core pack become a set of rule shapes over triples; the engine that evaluates them is replaced
by the least model, which `Datalog.NaiveEvaluate` computes. Loading an index is set union.

## What the code does that its comments or a reader would not expect

- `canonicalize_nulls` says that nulls with identical neighbourhoods "are indistinguishable anyway". They are exactly
  when, besides, the triples with nulls at both ends are closed under the exchange of the two
  (`Nulls.InterchangeableExactly`); without that two nulls can be merged that are not interchangeable
  (`Nulls.MergedButDistinguishable`).
- `select_inputs` joins the paths it lists and follows to the store root, although they already start with it. With a
  relative root, such as the command line's default `store`, selecting everything finds nothing
  (`SelectInputs.EverythingExactly`), closure following adds nothing (`SelectInputs.RelativeRootFollowsNothing`), and
  neither snapshots nor roots select anything (`SelectInputs.RelativeSeedsExactly`). A closure is closed exactly when
  the root is absolute or it was closed to begin with (`SelectInputs.ClosureClosedExactly`). `SelectInputs.LostReference`
  is a store of two files, a generation and its root derivation, and `SelectInputs.SelectReferrer` the run over it that
  returns the generation alone.
- `fragment_for_iri` recovers entity kinds only, and of those only the ones whose NAR hashes are canonical
  (or contain only safe characters and do not look like base64url): `Fragments.GraphRoundTripExactly`.
- A NetworkPolicy peer without selectors (`ipBlock`) is compiled to an edge from the policy's own namespace, so the
  rules report neighbours as admitted that no peer admits: `NetworkPolicies.BlockPeerAdmitsNeighbour`; the exact
  difference is in `NetworkPolicies.ReachabilityExactly`.
- `resolve_follows` gives up on an intermediate input whose own follows path ends in an input that follows again
  (`Follows.DoubleFollowsUnresolved`, `LockGraph.DoubleFollowsLosesPin`) and on an empty path, which denotes the root
  (`Follows.EmptyFollowsLosesRoot`), so an input that Nix resolves can lack its `follows` edge. It succeeds exactly on
  non-empty paths whose intermediate elements are direct, or follow a path of the same kind that ends in a direct input
  (`Follows.ResolvesExactly`); what the rules then derive is `LockGraph.ResolvesExactlyByChain`.
- `rebuild` on an empty store writes a marker with one empty line, which later loads keep as a listed path:
  `Index.RebuildLists`.
- `parse_drv` ignores whatever follows the closing parenthesis (`DrvFile.PrintedDrvParses`), and indexes into tuples
  without checking their length. It panics exactly when the first bad field has a too short tuple of strings as its
  first bad entry (`DrvFile.ParseDrvPanicsExactly`); `DrvFile.EmptyOutputTuplePanics` is such a text.
- `percent_decode` accepts a plus sign for the high digit of an escape (`Iri.DecodePlus`), as Rust's `from_str_radix` does.
- An `Ext` fragment can have the graph IRI of another kind, under six kind names and no others
  (`Fragments.ExtSharedExactly`). Which NAR hash strings share a segment is `Fragments.NarSegmentsExactly`
  (`x-AA==` and `x-AA` do, `Fragments.NarSegmentsCollide`), and which packs can share a label
  `Packs.LabelSharedExactly`.

## Model

| member | source | states |
|---|---|---|
| Hashing.Sha256HexItems | crates/nix2rdf-core/src/hash.rs:15-27 | feeds the hasher the framed items: an 8-byte little-endian length before each |
| Hashing.LeBytesValue | crates/nix2rdf-core/src/hash.rs:23-23 | the eight length bytes, read least significant first, are the length |
| Hashing.FramesRead | crates/nix2rdf-core/src/hash.rs:13-27 | a reader of lengths and items recovers the item list from the byte stream |
| Hashing.FramesInjective | crates/nix2rdf-core/src/hash.rs:13-27 | the byte stream determines the item list, for items shorter than 2^64 |
| Hashing.InputHashIdentifiesBag | crates/nix2rdf-core/src/reason.rs:239-252 | two selections hash alike exactly when their bags of (graph, content hash) are equal, if the hash does not collide on the two streams |
| Hashing.InputHashOrderFree | crates/nix2rdf-core/src/reason.rs:239-252 | listing the inputs in another order keeps the hash, for any hash function |
| Hashing.InputStreamRead | crates/nix2rdf-core/src/reason.rs:239-252 | what is hashed, read back, is graph and content hash of every input, alternating, ordered by graph and hash |
| Texts.LessExactly | crates/nix2rdf-core/src/hash.rs:42-42 | the order of strings is bytewise: a proper prefix, or a smaller byte at the first difference |
| CanonicalJson.SortJson | crates/nix2rdf-core/src/hash.rs:38-52 | the recursive sort computes `SortValue` on every value |
| CanonicalJson.SortObject | crates/nix2rdf-core/src/hash.rs:40-48 | sorting the members and then their values is sorting the sorted values |
| CanonicalJson.SortEntries | crates/nix2rdf-core/src/hash.rs:43-46 | the insertion loop keeps the order of the sorted entries and sorts each value |
| CanonicalJson.SortArray | crates/nix2rdf-core/src/hash.rs:49-49 | array elements are sorted in place, their order kept |
| CanonicalJson.SortedCanonical | crates/nix2rdf-core/src/hash.rs:35-47 | the result has its keys in strictly increasing order at every depth |
| CanonicalJson.SortedEquivalent | crates/nix2rdf-core/src/hash.rs:35-52 | the result differs from the value in member order only |
| CanonicalJson.SortDecides | crates/nix2rdf-core/src/hash.rs:35-52 | two values get the same canonical form exactly when they differ only in member order, at any depth |
| CanonicalJson.SortIdempotent | crates/nix2rdf-core/src/hash.rs:38-52 | sorting twice is sorting once |
| CanonicalJson.CanonicalUnique | crates/nix2rdf-core/src/hash.rs:35-52 | the canonical form is the only value in order that is equivalent to the input |
| JsonText.PrintRead | crates/nix2rdf-core/src/hash.rs:53-53 | a reader by the grammar of RFC 8259, without blanks, recovers every printed value and stops where it ends |
| JsonText.PrintInjective | crates/nix2rdf-core/src/hash.rs:53-53 | so after a printed value the rest of the text is determined, and no text prints two values |
| JsonText.CanonicalTextIdentifies | crates/nix2rdf-core/src/hash.rs:35-54 | two values have one canonical text exactly when they differ only in member order |
| NTriples.RenderInjective | crates/nix2rdf-core/src/fragment.rs:168-205 | a rendered term determines the term (canonical N-Triples forms) |
| NTriples.RenderRead | crates/nix2rdf-core/src/fragment.rs:195-205 | a reader by the grammar of N-Triples recovers every rendered term |
| NQuads.Fragment.Add | crates/nix2rdf-core/src/fragment.rs:195-205 | adds the triple's line to the set, once |
| NQuads.Fragment.ToNquads | crates/nix2rdf-core/src/fragment.rs:236-247 | writes the lines in order, each with the graph IRI |
| NQuads.ObjectsOf | crates/nix2rdf-core/src/reason.rs:69-85 | the scan returns the trimmed third tokens of the lines whose second token is the predicate |
| NQuads.ObjectsAgree | crates/nix2rdf-core/src/reason.rs:69-85 | on the text of any valid fragment the scan finds exactly the IRI objects of the predicate, whatever literals contain |
| NQuads.GraphRecovered | crates/nix2rdf-core/src/reason.rs:55-61 | the graph IRI read from the first line is the fragment's, and there is none exactly for the empty fragment |
| NQuads.LineOfInjective | crates/nix2rdf-core/src/fragment.rs:195-205 | the line of a valid triple determines the triple |
| NQuads.TextExactly | crates/nix2rdf-core/src/fragment.rs:236-247 | two fragments under one graph have the same text exactly when they have the same triples |
| NQuads.TextRead | crates/nix2rdf-core/src/fragment.rs:236-247 | the text of a fragment, read line by line as N-Quads, is its triples, each in its graph, and nothing else |
| NQuads.TextOrdered | crates/nix2rdf-core/src/fragment.rs:236-247 | its lines are strictly ordered by the text of their triples |
| Base64.DecodeEncode | crates/nix2rdf-core/src/iri.rs:76-84 | decoding undoes encoding in both alphabets, for all byte strings |
| Base64.EncodeDecode | crates/nix2rdf-core/src/reason.rs:126-138 | only canonical text decodes: encoding the bytes again gives it back |
| Base64.DigitExactly | crates/nix2rdf-core/src/iri.rs:76-84 | digits come from the two alphabets of RFC 4648 |
| Base64.EncodedGroup | crates/nix2rdf-core/src/iri.rs:76-84 | every three bytes are written as the four digits of their number, most significant first |
| Base64.EncodedTail | crates/nix2rdf-core/src/iri.rs:76-84 | one or two last bytes are the two or three digits of their number filled with zero bits, padded in the standard alphabet only |
| Iri.EncodeSegment | crates/nix2rdf-core/src/iri.rs:47-71 | the loop computes the percent-encoding byte by byte |
| Iri.EncodedShape | crates/nix2rdf-core/src/iri.rs:47-49 | an encoded segment has safe characters and percent signs only, so no slash |
| Iri.SafeExactly | crates/nix2rdf-core/src/iri.rs:50-66 | the characters that are passed through, by code |
| Iri.EncodedByteExactly | crates/nix2rdf-core/src/iri.rs:67-67 | every other byte is a percent sign and its two upper-case hex digits, high digit first |
| Iri.DecodeSegment | crates/nix2rdf-core/src/reason.rs:140-156 | the loop decodes percent escapes and copies everything else |
| Iri.DecodeEncode | crates/nix2rdf-core/src/reason.rs:140-156 | decoding undoes encoding on every byte string |
| Iri.DecodeExactly | crates/nix2rdf-core/src/reason.rs:140-156 | two hex digits of either case after a percent sign are decoded to their byte |
| Iri.DecodePlus | crates/nix2rdf-core/src/reason.rs:140-156 | a plus sign is accepted for the high digit, and counts as zero |
| Iri.DecodeOther | crates/nix2rdf-core/src/reason.rs:140-156 | everything else stands for itself |
| Iri.NarSegmentExactly | crates/nix2rdf-core/src/iri.rs:73-84 | a printed hash changes its alphabet and loses its padding; every other string is percent-encoded |
| Iri.DecodeNarExactly | crates/nix2rdf-core/src/reason.rs:126-138 | decoding takes that back and leaves everything else alone |
| Iri.NarRoundTripExactly | crates/nix2rdf-core/src/reason.rs:126-138 | a NAR hash is recovered from its segment exactly if it is canonical, or safe and unlike base64url |
| Iri.FlakeInputInjective | crates/nix2rdf-core/src/iri.rs:138-145 | different (node, input) pairs of a flake have different IRIs |
| Iri.FlakesApart | crates/nix2rdf-core/src/iri.rs:138-145 | inputs of flakes whose roots have different segments have different IRIs |
| Iri.NamespacedObjectInjective | crates/nix2rdf-core/src/iri.rs:221-235 | different (kind, namespace, name) have different IRIs in one cluster |
| Iri.ScopesDisjoint | crates/nix2rdf-core/src/iri.rs:221-241 | no namespaced object shares an IRI with a cluster-wide one |
| Fragments.GraphRoundTripExactly | crates/nix2rdf-core/src/reason.rs:87-124 | `fragment_for_iri` undoes `graph` exactly on the recoverable kinds, and on no other |
| Fragments.GraphInjective | crates/nix2rdf-core/src/fragment.rs:125-165 | different fragments have different graph IRIs, for all kinds, `Ext` kinds with a name of their own included |
| Fragments.ExtSharesExactly | crates/nix2rdf-core/src/fragment.rs:159-163 | an `Ext` fragment has the graph of another kind exactly when its kind is the first part of that graph and its encoded identifier the rest |
| Fragments.ExtSharedExactly | crates/nix2rdf-core/src/fragment.rs:128-164 | the kind names under which that happens are `drv`, `src`, `pin`, `nixpkgs`, `gen` and `derived`, and no others |
| Fragments.NarSegmentsExactly | crates/nix2rdf-core/src/iri.rs:73-84 | two NAR hash strings share a segment exactly when they are equal, or one is canonical and the encoding of the other looks like base64url and decodes to it |
| Fragments.NarSegmentSharedExactly | crates/nix2rdf-core/src/iri.rs:73-84 | a string that is not canonical shares its segment with a canonical one exactly when its encoding looks like base64url |
| Fragments.NarSegmentsCollide | crates/nix2rdf-core/src/iri.rs:73-84 | `x-AA==` and `x-AA` share a segment, and only the first is canonical |
| Fragments.PathInjective | crates/nix2rdf-core/src/fragment.rs:82-123 | different fragments have different store paths, for all kinds |
| Names.FragmentNames | IRI.md:71-91 | every fragment has the file path and the graph IRI that the table of IRI.md gives it, prefixes written out |
| Names.FragmentForIriExactly | crates/nix2rdf-core/src/reason.rs:87-124 | an IRI names a fragment exactly when it is below the base, in the segment of the fragment's kind, and the rest of it identifies the fragment; resources below a pin, a generation or a revision name none |
| Names.InputText | IRI.md:37-37 | the IRI of a flake input |
| Names.NamespacedText | IRI.md:58-58 | the IRI of a namespaced object |
| Names.ClusterWideText | IRI.md:56-58 | the IRI of a cluster-wide object |
| Nulls.CollectSignatures | crates/nix2rdf-core/src/reason.rs:319-330 | every null, and only a null, gets the set of its signature lines, one per place it occurs |
| Nulls.ConvertRows | crates/nix2rdf-core/src/reason.rs:345-366 | the rows with an IRI predicate are converted by one map of nulls to IRIs, whose lookup never fails |
| Nulls.CanonicalizeNulls | crates/nix2rdf-core/src/reason.rs:303-375 | the result is the strictly sorted, duplicate-free list of the converted rows |
| Nulls.OutputRead | crates/nix2rdf-core/src/reason.rs:345-366 | the output rows, read back from `Term` to `RdfTerm`, are exactly the triples with an IRI predicate, each null replaced by the IRI of its name |
| Nulls.OutputWithoutNulls | crates/nix2rdf-core/src/reason.rs:345-366 | without nulls they are exactly the triples with an IRI predicate, unchanged |
| Nulls.OutputPlainAndOrdered | crates/nix2rdf-core/src/reason.rs:348-373 | no row holds a string with an explicit `xsd:string`, and the rows are strictly ordered by the texts of subject, predicate and object |
| Nulls.KeyIsNTriples | crates/nix2rdf-core/src/reason.rs:311-318 | signature lines write terms as N-Triples does, but for escapes in literals; a null is an underscore |
| Nulls.SignatureLines | crates/nix2rdf-core/src/reason.rs:319-330 | the signature of a null has a line for each place it occurs at, and no other |
| Nulls.NameRead | crates/nix2rdf-core/src/reason.rs:331-344 | a null's IRI is the graph, `/n/` and sixteen digits of the hash of its framed signature lines in order |
| Nulls.CanonicalInvariant | crates/nix2rdf-core/src/reason.rs:303-375 | renaming nulls injectively, permuting rows and repeating rows leave the result unchanged, for any hash |
| Nulls.SameNameIffSameNeighbourhood | crates/nix2rdf-core/src/reason.rs:303-344 | two nulls share a name exactly when their blanked neighbourhoods are equal |
| Nulls.InterchangeableShareName | crates/nix2rdf-core/src/reason.rs:303-306 | nulls whose swap maps the triples to themselves always share a name |
| Nulls.InterchangeableExactly | crates/nix2rdf-core/src/reason.rs:303-306 | two nulls are interchangeable exactly when they share a name and the null-to-null triples are closed under the exchange |
| Nulls.SameNameIffInterchangeable | crates/nix2rdf-core/src/reason.rs:303-306 | when no triple has nulls at both ends, sharing a name is being interchangeable |
| Nulls.MergedButDistinguishable | crates/nix2rdf-core/src/reason.rs:305-306 | in every set of two null-to-null triples with a further triple on the second object, the two subjects share a name and are not interchangeable |
| Datalog.NaiveEvaluate | crates/nix2rdf-core/src/reason.rs:294-299 | evaluating rules until nothing changes terminates with their least model |
| Datalog.LeastModelUnique | crates/nix2rdf-core/src/reason.rs:294-299 | rules and facts have one least model |
| Datalog.RerunSameModel | crates/nix2rdf-core/src/reason.rs:296-299 | adding a run's own output to its input keeps the model |
| Datalog.RerunDerivesNothing | crates/nix2rdf-core/src/reason.rs:299-299 | so a second run exports nothing |
| Datalog.ExportExactly | crates/nix2rdf-core/src/reason.rs:294-299 | input and export together are the triples of the model; nothing exported was in the input, and the helper relation stays inside |
| Datalog.Supported | crates/nix2rdf-core/src/reason.rs:294-299 | every fact of the model was asserted or follows in one step from facts of the model |
| CorePack.DependsOnExactly | packs/core/semantics.rls:16-18 | `dependsOn` is the union of the asserted `dependsOn` and `inputDrv` |
| CorePack.DependsOnTransitivelyExactly | packs/core/semantics.rls:20-22 | `dependsOnTransitively` is the transitive closure of that union, plus what extends asserted pairs |
| CorePack.ProducedByExactly | packs/core/semantics.rls:26-26 | `producedBy` is the inverse of `hasOutput`, and what was asserted |
| CorePack.TypesExactly | packs/core/semantics.rls:27-47 | outputs of something, what has a derivation path, and what has a build closure get their classes, and nothing else gets a class |
| CorePack.RefTExactly | packs/core/semantics.rls:32-34 | the helper relation is the transitive closure of `references` |
| CorePack.RuntimeDependsOnExactly | packs/core/semantics.rls:36-38 | A runtime-depends on B exactly when they differ and an output of A transitively references an output of B |
| CorePack.RuntimeClosureExactly | packs/core/semantics.rls:49-60 | the runtime closure is what references reach from root outputs, layer contents or asserted members, through any chain of snapshots |
| CorePack.BuildClosureExactly | packs/core/semantics.rls:42-63 | the build closure is what dependencies reach from roots, producers of shipped outputs or asserted members, through any chain of snapshots |
| CorePack.SharesLayerExactly | packs/core/semantics.rls:65-66 | `sharesLayerWith` relates different images with a layer in common, and what was asserted |
| CorePack.ResolvesToExactly | packs/core/semantics.rls:70-71 | an input resolves to what is pinned at the end of any number of follows edges |
| NetworkPolicies.LabelsMatch | crates/nix2rdf-core/src/k8s/model.rs:135-139 | true exactly when every required label is present with its value |
| NetworkPolicies.SelectorMatches | crates/nix2rdf-core/src/k8s/model.rs:123-160 | true exactly when all labels hold and every requirement gets what it asks for (one of its values, none of them, any value, or none at all); missing and empty selectors as the caller says |
| NetworkPolicies.OperatorsExactly | crates/nix2rdf-core/src/k8s/model.rs:141-155 | each operator through required labels: `In` holds when one of its values would match as a required label, `NotIn` when none would, `Exists` when some value at all would, `DoesNotExist` when none at all would, any other never |
| NetworkPolicies.LabelsHoldExactly | crates/nix2rdf-core/src/k8s/model.rs:135-139 | required labels hold exactly when they are among the labels, with their values |
| NetworkPolicies.MatchingWorkloads | crates/nix2rdf-core/src/k8s/snapshot.rs:687-701 | the workloads of a namespace whose pod labels the selector matches |
| NetworkPolicies.ExpandNamespaces | crates/nix2rdf-core/src/k8s/snapshot.rs:715-724 | a peer covers its policy's namespace, or the namespaces its selector matches |
| NetworkPolicies.ExpandPeer | crates/nix2rdf-core/src/k8s/snapshot.rs:712-752 | the edges of one peer, over all namespaces it covers |
| NetworkPolicies.ExpandRules | crates/nix2rdf-core/src/k8s/snapshot.rs:702-754 | the edges of a rule list; a rule without peers admits everyone |
| NetworkPolicies.ExpandPolicy | crates/nix2rdf-core/src/k8s/snapshot.rs:672-761 | the edges of one policy, with the default policy type |
| NetworkPolicies.CompilePolicies | crates/nix2rdf-core/src/k8s/snapshot.rs:672-769 | the edges of all policies, visited in any order |
| PolicyFacts.PolicyEdgesExactly | crates/nix2rdf-core/src/k8s/snapshot.rs:672-761 | a policy contributes exactly the edges its fields state, those that no rule reads included |
| PolicyFacts.CompiledExactly | crates/nix2rdf-core/src/k8s/snapshot.rs:462-769 | everything the compiled fragment says of workloads, namespaces and policies |
| NetworkPolicies.NodeIriInjective | crates/nix2rdf-core/src/k8s/snapshot.rs:80-86 | different workloads, namespaces and policies have different IRIs, so edges of IRIs are edges of objects |
| NetworkPolicies.ReachabilityExactly | packs/k8s/semantics.rls:93-103 | the rules over compiled edges relate exactly the pairs direct evaluation allows, plus the policy's own namespace where a selecting policy has a peer without selectors |
| NetworkPolicies.ReachabilityAgrees | packs/k8s/semantics.rls:93-103 | when every peer has a selector, compilation followed by the rules agrees with direct evaluation on every pair |
| NetworkPolicies.ReachabilityOnWorkloads | packs/k8s/semantics.rls:93-103 | only workloads of the snapshot are related |
| NetworkPolicies.BlockPeerAdmitsNeighbour | crates/nix2rdf-core/src/k8s/snapshot.rs:713-749 | with a single peer without selectors, a neighbour is reported to reach what the policy isolates |
| ReachabilityIris.RulesMapped | packs/k8s/semantics.rls:93-103 | the rules commute with every renaming of nodes that keeps them apart |
| ReachabilityIris.IriReachabilityExactly | packs/k8s/semantics.rls:93-103 | over the IRIs of the fragment the rules relate exactly the IRIs of workloads that direct evaluation relates, up to peers without selectors |
| SelectInputs.CollectReferences | crates/nix2rdf-core/src/reason.rs:200-226 | the fragments named by the followed predicates, with the outputs fragment of each derivation |
| SelectInputs.ReferencesAgree | crates/nix2rdf-core/src/reason.rs:200-226 | on the text of any valid fragment these are the fragments its triples name |
| SelectInputs.ReferencesExactly | crates/nix2rdf-core/src/reason.rs:200-226 | a fragment is referenced exactly when a triple says so: by one of five build properties or two runtime properties, or, for outputs, by a build property that names their derivation |
| SelectInputs.DerivationWithOutputs | crates/nix2rdf-core/src/reason.rs:208-213 | a build property that leads to a derivation refers to the derivation and to its outputs |
| SelectInputs.OutputsByBuildOnly | crates/nix2rdf-core/src/reason.rs:208-226 | outputs are referenced in no other way |
| SelectInputs.RuntimeReference | crates/nix2rdf-core/src/reason.rs:217-226 | a runtime property refers to the fragment it names |
| SelectInputs.ProcessFile | crates/nix2rdf-core/src/reason.rs:198-234 | one turn of the worklist pushes exactly the unseen existing references and records the file under its graph |
| SelectInputs.VisitPath | crates/nix2rdf-core/src/reason.rs:185-197 | a path seen before is skipped, a missing one only noted, a present one processed |
| SelectInputs.SelectFrom | crates/nix2rdf-core/src/reason.rs:183-236 | the worklist terminates with one input per graph of the least closed set of existing files, in graph order, or names an empty wanted file |
| SelectInputs.SelectInputs | crates/nix2rdf-core/src/reason.rs:162-237 | the same for the queue a selection starts from: paths, snapshots, roots, or everything |
| SelectInputs.SelectionExact | crates/nix2rdf-core/src/reason.rs:158-161 | with distinct graphs the selected files are exactly the wanted ones |
| SelectInputs.FragmentGraphsDistinct | crates/nix2rdf-core/src/store.rs:50-83 | where every file is at the path of a fragment and holds its graph, graphs are distinct |
| SelectInputs.SelectionOrderFree | crates/nix2rdf-core/src/reason.rs:183-236 | the order of the initial queue does not matter |
| SelectInputs.EverythingExactly | crates/nix2rdf-core/src/reason.rs:166-190 | selecting everything selects everything exactly when the root is absolute or the store empty |
| SelectInputs.EverythingSelected | crates/nix2rdf-core/src/reason.rs:166-190 | the same for the queue that `everything` starts from |
| SelectInputs.SnapshotKindsExactly | crates/nix2rdf-core/src/reason.rs:169-180 | all snapshots are pins, generations, images, commits, nixpkgs revisions and everything of a cluster |
| SelectInputs.RelativeRootFollowsNothing | crates/nix2rdf-core/src/reason.rs:186-232 | under a relative root the selection is the files it starts from, with or without closure following |
| SelectInputs.AbsoluteFollowsRefs | crates/nix2rdf-core/src/reason.rs:199-232 | under an absolute root, the worklist follows exactly the references between present files |
| SelectInputs.WantedIsLeastClosed | crates/nix2rdf-core/src/reason.rs:158-161 | under an absolute root, a closure selection is the least set that holds its start and is closed under references |
| SelectInputs.OutputsSelected | crates/nix2rdf-core/src/reason.rs:200-232 | under an absolute root, a closure selection that holds a fragment with a build property leading to a derivation holds the files of the derivation and of its outputs, where they are present |
| SelectInputs.ClosureClosedExactly | crates/nix2rdf-core/src/reason.rs:158-161 | a closure selection is closed under references exactly when the root is absolute or its start is closed |
| SelectInputs.ReferenceLost | crates/nix2rdf-core/src/reason.rs:186-232 | in a store with a relative root, a present fragment that a selected one refers to is not in the closure of the path of the first |
| SelectInputs.ReferrerAlone | crates/nix2rdf-core/src/reason.rs:186-237 | the only selection there is the first fragment alone |
| SelectInputs.SelectReferrer | crates/nix2rdf-core/src/reason.rs:183-237 | the run of that selection returns it |
| SelectInputs.LostReference | crates/nix2rdf-core/src/reason.rs:186-232 | such a store: root `store`, a generation and the derivation it has as its root, each a file of one triple |
| SelectInputs.AbsoluteSeedsExactly | crates/nix2rdf-core/src/reason.rs:166-181 | under an absolute root, a selection starts from the present files among paths, snapshots and roots |
| SelectInputs.RelativeSeedsExactly | crates/nix2rdf-core/src/reason.rs:166-190 | under a relative root it starts from the given paths only |
| RuntimeClosure.Round | crates/nix2rdf-core/src/extract/drv.rs:310-319 | one batch of answers is recorded, and every reference ends up recorded or asked for next |
| RuntimeClosure.ExtractRuntimeClosure | crates/nix2rdf-core/src/extract/drv.rs:301-323 | the loop terminates with exactly the present paths reachable from the roots through present paths |
| RuntimeClosure.ReadClosure | crates/nix2rdf-core/src/nix/drv_file.rs:222-239 | the `.drv` files reachable from the roots, or an unreadable reachable file |
| Packs.Resolver.VisitPack | crates/nix2rdf-core/src/packs.rs:182-207 | the recursive visit terminates and computes the visit function on order, done and visiting |
| Packs.ResolvePacks | crates/nix2rdf-core/src/packs.rs:176-214 | visits the sorted selection, stopping at the first error |
| Packs.ResolveSucceedsExactly | crates/nix2rdf-core/src/packs.rs:192-197 | succeeds exactly when the dependency closure has no unknown pack and no cycle |
| Packs.ResolveErrorTrue | crates/nix2rdf-core/src/packs.rs:192-197 | an error names a pack of the closure, and says whether it is unknown or on a cycle |
| Packs.ResolveOrder | crates/nix2rdf-core/src/packs.rs:176-177 | the order lists each pack of the closure once, after all its dependencies |
| Packs.ResolveOrderFree | crates/nix2rdf-core/src/packs.rs:198-212 | permuting the selection or any dependency list changes neither the order nor the error |
| PackOrder.ResolveLast | crates/nix2rdf-core/src/packs.rs:208-213 | selecting one more pack, last by name, appends those packs of its own order that are not loaded yet, or fails as that pack alone does |
| PackOrder.ResolveExactly | crates/nix2rdf-core/src/packs.rs:198-207 | the order of one pack is that of its dependencies and then the pack; with the row above this determines the load order, ties included |
| Packs.RulesetHash | crates/nix2rdf-core/src/packs.rs:216-231 | hashes the framed labels and rule texts in load order |
| Packs.RulesetHashIdentifies | crates/nix2rdf-core/src/packs.rs:216-231 | two rulesets hash alike exactly when the packs at each position have the same label and rule text, if the hash does not collide on the two streams |
| Packs.RulesetStreamRead | crates/nix2rdf-core/src/packs.rs:216-231 | what is hashed, read back, is `name@version#hash` and rule text of every pack, alternating, in load order |
| Packs.LabelInjective | crates/nix2rdf-core/src/packs.rs:222-227 | a label determines name, version and content hash, when names have no at sign and content hashes no number sign |
| Packs.LabelSharedExactly | crates/nix2rdf-core/src/packs.rs:222-227 | a pack shares its label with a different one exactly when its name or version has an at sign, or its version or content hash a number sign |
| Packs.RulesetHashIdentifiesPacks | crates/nix2rdf-core/src/packs.rs:216-231 | with such names and hashes, two rulesets hash alike exactly when names, versions, content hashes and rule texts are the same in the same order |
| Aterm.Parser.Peek | crates/nix2rdf-core/src/nix/drv_file.rs:29-31 | the next byte, or none at the end |
| Aterm.Parser.Expect | crates/nix2rdf-core/src/nix/drv_file.rs:32-42 | advances over the expected byte, otherwise stays and fails |
| Aterm.Parser.String | crates/nix2rdf-core/src/nix/drv_file.rs:43-73 | computes the string and stops right after its closing quote, or fails as specified |
| Aterm.Parser.Char | crates/nix2rdf-core/src/nix/drv_file.rs:46-71 | one turn of that loop: closing quote, escape or plain byte |
| Aterm.Parser.Term | crates/nix2rdf-core/src/nix/drv_file.rs:74-91 | computes the term and leaves the cursor where the specification does; the cursor only advances |
| Aterm.Parser.Seq | crates/nix2rdf-core/src/nix/drv_file.rs:92-97 | the same for the items up to a closing bracket |
| Aterm.Parser.Items | crates/nix2rdf-core/src/nix/drv_file.rs:98-113 | the same for the loop over items |
| Aterm.Parser.Separator | crates/nix2rdf-core/src/nix/drv_file.rs:100-111 | after an item: a comma, the closing bracket, or an error |
| Aterm.TermRoundTrip | crates/nix2rdf-core/src/nix/drv_file.rs:43-114 | for every term and every trailing text, parsing the printed term returns it and stops exactly at its end |
| Aterm.ParsesExactly | crates/nix2rdf-core/src/nix/drv_file.rs:43-114 | the parser accepts exactly the grammar: a term is parsed, leaving a rest, when the text is some way of writing the term, escapes included, followed by the rest |
| DrvFile.FillMap | crates/nix2rdf-core/src/nix/drv_file.rs:158-186 | entries fill the map in order, the first bad entry fails |
| DrvFile.ParseDrv | crates/nix2rdf-core/src/nix/drv_file.rs:130-202 | computes the derivation, or the first error in field order, or panics |
| DrvFile.OutputEntryPanics | crates/nix2rdf-core/src/nix/drv_file.rs:158-163 | reading an output panics exactly on fewer than four items, all strings |
| DrvFile.PairEntriesPanic | crates/nix2rdf-core/src/nix/drv_file.rs:175-200 | reading an input derivation or an environment variable panics exactly on fewer than two items, all strings |
| DrvFile.ParseDrvPanicsExactly | crates/nix2rdf-core/src/nix/drv_file.rs:130-202 | `parse_drv` panics exactly when the first bad one of seven fields has such a tuple as its first bad entry |
| DrvFile.EmptyOutputTuplePanics | crates/nix2rdf-core/src/nix/drv_file.rs:158-160 | the text with one empty output tuple panics |
| DrvFile.PrintedFieldsParse | crates/nix2rdf-core/src/nix/drv_file.rs:130-152 | a printed `Derive` term is read field by field, whatever follows it |
| DrvFile.AlgoRoundTripExactly | crates/nix2rdf-core/src/nix/drv_file.rs:204-215 | splitting a printed hash algorithm gives method and algorithm back exactly when a derivation file can express them |
| DrvFile.PrintedDrvParses | crates/nix2rdf-core/src/nix/drv_file.rs:130-202 | every printed derivation parses, whatever text follows, to the derivation with the name of its path and its outputs normalised |
| DrvFile.StorePathName | crates/nix2rdf-core/src/nix/drv_file.rs:150-154 | the name is what follows the first dash of the path's last component, less every `.drv` at its end; without a dash there is none |
| DrvFile.ParsedName | crates/nix2rdf-core/src/nix/drv_file.rs:150-154 | a printed derivation at `dir/hash-name.drv` is parsed to a derivation of that name, and at a path without dash to one without name |
| DrvFile.DrvRoundTripExactly | crates/nix2rdf-core/src/nix/drv_file.rs:130-202 | a derivation is recovered from its printed form exactly when it is well-formed: its path's name, no empty strings for absent fields, expressible hash algorithms |
| DrvFile.CollectExactly | crates/nix2rdf-core/src/nix/drv_file.rs:158-186 | a map is read exactly when every entry can be read and the last entry of each key gives its value |
| DrvFile.ParseDrvExactly | crates/nix2rdf-core/src/nix/drv_file.rs:130-202 | a text is parsed to a derivation exactly when it is `Derive`, some way of writing seven fields that say what the derivation holds, and anything after that, and the name is that of the path |
| DrvFile.TrimEndExactly | crates/nix2rdf-core/src/nix/drv_file.rs:132-132 | trimming removes exactly the ASCII blanks at the end |
| Follows.ResolveFollows | crates/nix2rdf-core/src/extract/flake.rs:135-163 | the loop computes the resolution, nested follows included |
| Follows.StringsExactly | crates/nix2rdf-core/src/extract/flake.rs:237-241 | a follows path is the strings of its array, whatever else stands between them |
| Follows.ResolveWalks | crates/nix2rdf-core/src/extract/flake.rs:145-162 | continuing from the resolved input is the same as walking the whole path |
| Follows.FollowsPreservesDenotation | crates/nix2rdf-core/src/extract/flake.rs:135-163 | an input and the one its follows edge points at denote the same lock node |
| Follows.DenotesFunctional | crates/nix2rdf-core/src/extract/flake.rs:135-163 | a full walk reaches at most one node |
| Follows.AcyclicResolves | crates/nix2rdf-core/src/extract/flake.rs:145-162 | with acyclic follows, resolution ends within the depth the ranks give |
| Follows.ResolveStable | crates/nix2rdf-core/src/extract/flake.rs:137-163 | a resolution that ended within some depth ends the same way at every greater depth |
| Follows.ResolvesExactly | crates/nix2rdf-core/src/extract/flake.rs:137-163 | a path resolves exactly when it is not empty and each intermediate element, located by the full walk, is direct or follows such a path ending in a direct input |
| Follows.EmptyFollowsLosesRoot | crates/nix2rdf-core/src/extract/flake.rs:142-144 | an input that follows the empty path denotes the root and resolves at no depth |
| Follows.DoubleFollowsUnresolved | crates/nix2rdf-core/src/extract/flake.rs:151-159 | a path that passes, at any position, an input following the empty path or one that ends in a following input resolves at no depth |
| LockGraph.PinMap | crates/nix2rdf-core/src/extract/flake.rs:186-195 | the root gets the root pin, each node with a NAR hash its own, others none |
| LockGraph.PinsExactly | crates/nix2rdf-core/src/extract/flake.rs:186-194 | a node has the pin p exactly when p is the graph of the pin fragment of the root's hash, for the root, and of the node's own hash otherwise |
| LockGraph.PinsApart | crates/nix2rdf-core/src/extract/flake.rs:186-194 | nodes other than the root whose hashes have different segments have different pins |
| LockGraph.LocksInputExactly | crates/nix2rdf-core/src/extract/flake.rs:213-217 | `locksInput` leads from the pin of a node to each of its inputs, and nowhere else |
| LockGraph.InputEdges | crates/nix2rdf-core/src/extract/flake.rs:214-257 | the edges of one input: locked by its node, and pinned or following |
| LockGraph.BuildLockGraph | crates/nix2rdf-core/src/extract/flake.rs:166-260 | the facts of the inputs of all nodes with a pin, unless some resolution is too deep |
| LockGraph.AcyclicLockGraphBuilds | crates/nix2rdf-core/src/extract/flake.rs:238-257 | with acyclic follows, one depth suffices for all inputs of the lock, and so does every greater one |
| LockGraph.LockFactsStable | crates/nix2rdf-core/src/extract/flake.rs:166-260 | beyond a depth that suffices the facts do not depend on it |
| LockGraph.FollowsEdgeExactly | crates/nix2rdf-core/src/extract/flake.rs:236-257 | an input gets its follows edge exactly when its path is resolvable |
| LockGraph.InputIriSeparates | crates/nix2rdf-core/src/iri.rs:138-145 | input IRIs keep the inputs of a flake apart |
| LockGraph.InputBelowPin | crates/nix2rdf-core/src/iri.rs:138-145 | an input's IRI lies below the graph of the root's pin fragment |
| LockGraph.ResolvedPinIsWalked | packs/core/semantics.rls:70-71 | an input resolves only to the pin of the node a full walk of follows paths from the root reaches |
| LockGraph.AtMostOnePin | packs/core/semantics.rls:70-71 | no input resolves to two pins, whatever the store says of other resources |
| LockGraph.HoldsDescribes | crates/nix2rdf-core/src/extract/flake.rs:166-260 | a store of the lock graphs of any number of flakes says of the inputs of each what its own lock graph says |
| LockGraph.StoreAtMostOnePin | packs/core/semantics.rls:70-71 | in such a store each resource resolves to at most one pin |
| LockGraph.ResolvesExactlyByChain | packs/core/semantics.rls:70-71 | for every lock, an input resolves to a pin exactly when resolvable follows paths through pinned nodes lead from it to an input locked to that pin |
| LockGraph.ResolvesExactlyToWalked | crates/nix2rdf-core/src/extract/flake.rs:196-257 | when every node has a pin and every follows path is resolvable, an input resolves to exactly the pin of the node it denotes |
| LockGraph.ResolvesToLockedHash | crates/nix2rdf-core/src/extract/flake.rs:186-257 | over the lock's own data: when every node has a pin and every follows path is resolvable, an input resolves to p exactly when it denotes a node whose hash (for the root, the flake's own) has p as the graph of its pin fragment |
| LockGraph.ResolvesToChainedHash | crates/nix2rdf-core/src/extract/flake.rs:186-257 | the same for every lock, along resolvable follows paths through nodes with hashes |
| LockGraph.DoubleFollowsLosesPin | crates/nix2rdf-core/src/extract/flake.rs:151-159 | in every lock where a root input follows `u/z`, `u` follows `v` and `v` follows `w`, the input denotes the node of `z` and gets no follows edge at any depth |
| LockGraph.UnresolvablePathLosesPin | packs/core/semantics.rls:70-71 | an input whose follows path is not resolvable resolves to nothing |
| LockGraph.DoubleFollowsResolvesNowhere | crates/nix2rdf-core/src/extract/flake.rs:151-159 | so the input of that lock denotes a node and resolves to no pin |
| LockGraph.EmptyFollowsResolvesNowhere | crates/nix2rdf-core/src/extract/flake.rs:142-144 | and so does an input that follows the empty path, which denotes the root |
| Placement.BuildIndex | crates/nix2rdf-core/src/k8s/snapshot.rs:365-381 | objects by kind, namespace and name; later duplicates win, pods and untyped objects are skipped |
| Placement.IndexExactly | crates/nix2rdf-core/src/k8s/snapshot.rs:365-381 | under each kind, namespace and name stands the last object that has them, `default` for a missing namespace and none for cluster-wide kinds |
| Placement.KindsExactly | crates/nix2rdf-core/src/k8s/model.rs:67-92 | the kinds that own pods, and the cluster-wide kinds |
| Placement.IndexOrderFree | crates/nix2rdf-core/src/k8s/snapshot.rs:365-381 | with distinct keys the order of objects does not matter |
| Placement.PodOwner | crates/nix2rdf-core/src/k8s/snapshot.rs:326-361 | the loop computes the owner of a pod |
| Placement.OwnerExactly | crates/nix2rdf-core/src/k8s/snapshot.rs:326-361 | a pod belongs to the workload at the end of its chain of first owners, exactly if at most two ReplicaSets lie between |
| Placement.AttributedExactly | crates/nix2rdf-core/src/k8s/snapshot.rs:334-349 | the workload at the end counts for the CronJob that owns it first, if it is a Job and one does, and otherwise for itself |
| Placement.OwnerIsWorkload | crates/nix2rdf-core/src/k8s/snapshot.rs:333-350 | owners are workloads of the pod's namespace, never a Job that a CronJob owns |
| Placement.PulledDigestExactly | crates/nix2rdf-core/src/k8s/snapshot.rs:410-413 | an image ID yields a digest exactly when it ends in `sha256:` and 64 hex digits in one of the forms runtimes use, and then those digits in lower case |
| Placement.ReadPods | crates/nix2rdf-core/src/k8s/snapshot.rs:390-423 | the loop accumulates the placement counts and pulled digests of all pods |
| Placement.ReadStatuses | crates/nix2rdf-core/src/k8s/snapshot.rs:405-422 | the inner loop adds the digests of one pod |
| Placement.CountsExactly | crates/nix2rdf-core/src/k8s/snapshot.rs:398-404 | the count of a workload on a node is the number of its pods scheduled there |
| Placement.CountsSum | crates/nix2rdf-core/src/k8s/snapshot.rs:398-404 | the counts of a workload sum to the number of its scheduled pods |
| Placement.TotalsSum | crates/nix2rdf-core/src/k8s/snapshot.rs:394-404 | over all workloads the counts sum to the attributable scheduled pods, each counted once |
| Placement.NodeIffCounted | crates/nix2rdf-core/src/k8s/snapshot.rs:398-404 | a node is listed exactly where the count is positive |
| Placement.PulledExactly | crates/nix2rdf-core/src/k8s/snapshot.rs:405-422 | a digest is recorded for a container exactly when a pod of the workload reports it |
| Placement.PlacementOrderFree | crates/nix2rdf-core/src/k8s/snapshot.rs:390-404 | the order of pods does not change the placement |
| Placement.PulledOrderFree | crates/nix2rdf-core/src/k8s/snapshot.rs:405-422 | nor the pulled digests |
| Snapshot.BuildSnapshot | crates/nix2rdf-core/src/k8s/snapshot.rs:363-479 | the lines of the fragment and the number of objects shown |
| Snapshot.ScheduledExactly | crates/nix2rdf-core/src/k8s/snapshot.rs:523-529 | `scheduledOn` and `replicasOnNode` hold exactly for positive counts, with the count itself |
| SnapshotFacts.LinesExactly | crates/nix2rdf-core/src/k8s/snapshot.rs:453-529 | every line of the fragment in terms of the listed objects, pods and failed kinds; a count is the number of pods of the workload on the node |
| SnapshotFacts.TriplesExactly | crates/nix2rdf-core/src/k8s/snapshot.rs:453-529 | the triple of every line, predicates written out |
| SnapshotFacts.ObjectText | crates/nix2rdf-core/src/k8s/snapshot.rs:80-86 | the IRI of an object, with and without namespace |
| SnapshotFacts.DecimalExactly | crates/nix2rdf-core/src/k8s/snapshot.rs:527-527 | counts are printed in decimal without leading zeros |
| Snapshot.SnapshotOrderFree | crates/nix2rdf-core/src/k8s/snapshot.rs:363-479 | with distinct objects the fragment does not depend on the order of objects, pods or failed kinds |
| Snapshot.SnapshotHashIdentifies | crates/nix2rdf-core/src/k8s/snapshot.rs:864-871 | two snapshots of a cluster hash alike exactly when their fragments have the same triples, if the hash does not collide on the two texts |
| Snapshot.SnapshotHashOrderFree | crates/nix2rdf-core/src/k8s/snapshot.rs:864-871 | with distinct objects the hash does not depend on the order of objects, pods or failed kinds |
| ClusterSnapshot.DescribeObject | crates/nix2rdf-core/src/k8s/snapshot.rs:462-769 | one turn of the loop over the index emits the edges of the object that the ingress rules read |
| ClusterSnapshot.EdgeRead | packs/k8s/semantics.rls:15-47 | reading the triple of an edge gives the edge back |
| ClusterSnapshot.EdgeTriplesExactly | crates/nix2rdf-core/src/k8s/snapshot.rs:462-769 | the triple of every edge, predicates and classes written out |
| ClusterSnapshot.ViewValues | crates/nix2rdf-core/src/k8s/snapshot.rs:462-769 | pod labels, labels and policy are read from the object they are indexed under |
| ClusterSnapshot.FragmentEdges | crates/nix2rdf-core/src/k8s/snapshot.rs:462-769 | the rules read from the triples of the fragment exactly the edges the builder wrote, whatever the fragment says besides that they do not read |
| ClusterSnapshot.FragmentReachabilityExactly | packs/k8s/semantics.rls:93-103 | the rules over the triples of a snapshot relate exactly the workloads that direct evaluation of the policies in its manifests relates, up to peers without selectors |
| ClusterSnapshot.SameHashSameReachability | crates/nix2rdf-core/src/k8s/snapshot.rs:864-871 | two snapshots of a cluster with one hash agree on who may reach whom, if the hash does not collide on their texts |
| Index.Store.constructor | crates/nix2rdf-core/src/store.rs:35-40 | a new store is empty and satisfies the invariant |
| Index.Store.AllFragmentPaths | crates/nix2rdf-core/src/store.rs:99-116 | exactly the files, each once, in order |
| Index.Store.WriteFragment | crates/nix2rdf-core/src/store.rs:58-83 | writes a fragment unless a file of that identity exists, and says which |
| Index.Store.BulkLoad | crates/nix2rdf-core/src/graph.rs:57-69 | adds the quads of all given files to the index, or nothing if one is missing |
| Index.Store.LoadAndMark | crates/nix2rdf/src/main.rs:715-722 | loads, then rewrites the marker with everything loaded so far |
| Index.Store.LoadEverything | crates/nix2rdf/src/main.rs:702-722 | `load --all` loads and lists all files |
| Index.Store.LoadMissing | crates/nix2rdf/src/main.rs:697-722 | `load --new` loads exactly the files the marker does not list |
| Index.Store.LoadGiven | crates/nix2rdf/src/main.rs:704-722 | `load` of given store paths |
| Index.Store.RebuildIndex | crates/nix2rdf/src/main.rs:729-738 | the index becomes the union of all files and the marker lists them |
| Index.MarkerLists | crates/nix2rdf/src/main.rs:699-722 | the marker text read back gives the listed paths |
| Index.RebuildLists | crates/nix2rdf/src/main.rs:731-736 | the same for a rebuild, except that an empty store lists the empty name |
| Index.RunKeepsInv | crates/nix2rdf/src/main.rs:695-738 | over every run the index is the union of the listed files |
| Index.FilesAppendOnly | crates/nix2rdf-core/src/store.rs:58-73 | over every run no file changes or disappears |
| Index.LoadNewEqualsRebuild | crates/nix2rdf/src/main.rs:695-738 | after every run `load --new`, `load --all` and `rebuild` leave the same index |
| Index.LoadNewTwice | crates/nix2rdf/src/main.rs:707-714 | a second `load --new` changes nothing |
| Index.RunFiles | crates/nix2rdf-core/src/store.rs:58-73 | the files after a run are the first fragment written to each path |
| Index.IndexDependsOnFilesOnly | crates/nix2rdf-core/src/graph.rs:1-2 | the interleaving of loads and rebuilds with writes does not show in the index after `load --new` |

## Left out

- Aterm.Parser.String: does not reject strings that are not UTF-8, and error messages carry no position.
- DrvFile.ParseDrv: trims ASCII white space only from the end of the text, where the source trims Unicode white space.
- Iri.DecodeSegment: the lossy UTF-8 conversion of foreign strings and the panic on slicing inside a character are not modelled; on encoded segments neither occurs.
- NQuads.GraphRecovered: the validation and possible rejection of the recovered IRI is not modelled; graph IRIs of valid fragments pass it.
- SelectInputs.SelectInputs: paths are texts compared as such, with no normalisation of `.` or repeated slashes; roots that map to no fragment are skipped without the warning.
- Fragments.GraphInjective: asks for components as the extractors make them (no colon in a ruleset hash, no slash in the hash of an observation) and leaves out the six `Ext` kind names of `Fragments.ExtSharedExactly`, for which it is false.
- Fragments.PathInjective: store paths are compared as texts, for components as the extractors make them (NAR hashes kept apart by their segments, no slash in a ruleset hash, no dash in the hash of an observation).
- RuntimeClosure.ExtractRuntimeClosure: `path_info` answers from a fixed finite database; grouping the result into output fragments is left out.
- Follows.ResolveFollows: nesting is bounded by a depth, and exceeding it is an outcome of its own, because the source recurses without bound on cyclic follows; `Follows.ResolveStable` shows that the depth does not matter once it suffices, `Follows.AcyclicResolves` gives one that does.
- LockGraph.BuildLockGraph: of the facts about an input only those the rules read are modelled, with `locksInput`; names, original references and the fragments of nested pins are left out.
- NetworkPolicies.ExpandPolicy: the ingress side only; the egress edges are built by the same code and no rule reads them.
- NetworkPolicies.CompilePolicies: one cluster and the ingress side only.
- Snapshot.BuildSnapshot: what a fragment says about an object apart from placement is a set of triples given by a function parameter of the index and the pulled digests; the header triples other than `partial` and `failedKind`, `contains` for the listed nodes, and the node and observation fragments are left out. `ClusterSnapshot` fixes the parameter for everything the ingress rules read.
- Snapshot.SnapshotOrderFree: order-freedom of what the function parameter says of an object holds because it reads the index and the pulled digests only.
- Snapshot.SnapshotHashIdentifies: the hash is that of the text under the placeholder graph; the textual replacement of the placeholder afterwards is left out, so data containing the placeholder word is not covered.
- Index.Store.AllFragmentPaths: the directory walk, its skipped directories and the suffix filter are replaced by the set of fragment files.
- SelectInputs.SelectionOrderFree: asks for distinct graphs; `SelectInputs.FragmentGraphsDistinct` gives them for stores of fragments other than `Ext` at their own paths.
- SelectInputs.RelativeSeedsExactly: assumes that the store directory does not contain a directory of its own name.
- ClusterSnapshot.FragmentReachabilityExactly: how a manifest gives pod labels, labels and a policy is a parameter, and so is what the fragment says that the ingress rules do not read, the egress edges included; namespaced objects with an empty namespace are excluded.
- Index.Store.BulkLoad: a failing load leaves the index as it was; parse errors inside a file and partially committed loads are not modelled.
- Index.Store.LoadGiven: paths outside the store are not modelled.
- JsonText.CanonicalTextIdentifies: a number is the text printed for it; the printing of floating-point numbers is not modelled.
- `persist`, forced re-runs and the deletion of derived fragments are not part of the index state machine: they overwrite files and do not maintain the marker.
- The other rules of the k8s pack, existential rules, the RDFS and OWL packs and policies are left out, as is the evaluation engine.
- The mapping of derivations, images, generations and commits to triples consists of projections with no property across functions.
- Nix commands, the Kubernetes API, compression, the query server and the file system are outside the model.
