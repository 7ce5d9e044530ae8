# Mercury Tools: verified models of its core algorithms and protocols

Mercury Tools connects accounting providers to MCP hosts. Most of it is input and
output around Supabase, OAuth and provider APIs; inside it are a few algorithms and
protocols whose correctness is worth a proof. This project models those in Dafny and
proves what they promise.

- **Schema review** (`Json`, `JsonPointer`, `SchemaSemantics`, `SchemaExpansion`,
  `ExpansionMeaning`, `SchemaReview`, `SchemaNesting`, `CredentialNames`, `SchemaReviewer`).
  A reviewer expands a tool's JSON Schema through `$ref`, `allOf`, `anyOf` and `oneOf` into
  conjunctive branches and draws conclusions from them. `SchemaSemantics` says,
  independently of the reviewer, what it means for a value to satisfy a schema. Expansion
  is proved to lose no value, and the values it gains are stated exactly; a review without
  findings is proved to mean what a caller relies on for every accepted argument value. `SchemaReviewer` is the stateful reviewer,
  method by method, and its accumulated findings are proved to be empty exactly when the
  specification passes.
- **Signing-key cache** (`JwksCache`). The asyncio protocol of the token validator as
  interleaved steps, with arbitrary fetch results and clock advances.
- **Catalog import** (`CatalogImport`). Stage, back up, replace and roll back several files
  when any step may fail.
- **Evidence store** (`TextOrder`, `StableSort`, `GetBatches`, `EvidenceRecords`,
  `EvidenceStore`, `BatchReply`). Optimistic publishing into an append-only table that
  others append to as well, size-bounded batching, stable multi-pass sorting, and reading
  batched replies.
- **Provider responses** (`PeakResponse`, `PeakVerdict`, `Redaction`). A bounded traversal
  with an explicit stack, the verdict drawn from it, and redaction by wildcard paths.
- **Action paths** (`PercentCodec`, `PathDecoding`, `ActionPath`). Percent coding over
  UTF-8 (sections 2.1 and 2.3 of RFC 3986), decoding to a fixed point, and rendering path
  templates.
- **Connector profiles** (`CapabilityKeys`, `ConnectorProfiles`, `ProfileStore`). One state
  machine that the service implements twice: as upserts into a table and as a fold over an
  event log.
- **Catalog cache** (`CatalogActions`, `CatalogCache`, `CloudCatalog`, `CatalogRuns`). A
  client's copy of the server's catalog, kept current by entity tags, under any
  interleaving of calls.

Specifications are functions on values; code that works by updating an object or a loop
variable is a class or a method proved against them. What the proofs found out:

- `oneOf` is expanded like `anyOf`, so branches can admit a value that the schema rejects
  (`ExpansionMeaning.OneOfGainsValues`). For every document, the branches of a schema admit
  exactly the values that satisfy it with each `oneOf` that the expansion meets read as
  `anyOf` (`LooseExactly`), and of these the schema itself accepts exactly the ones that
  leave no such `oneOf` unsettled (`StrictExactly`). No value is gained that at most one
  variant of each met `oneOf` admits, and none at all when the expansion meets no `oneOf`,
  whatever the rest of the document holds (`ExpansionPreservesMeaning`,
  `NestedOneOfGainsNothing`).
- The two stores of connector profiles treat some capability names differently. A
  validation with `api.key` is stored by the event log and refused by the table
  (`ConnectorProfiles.StoresCanDiffer`); one with `cookie` is accepted by both, but the log
  redacts its state and loses it when it is read back (`RedactionLosesNames`). The stores
  agree throughout a run exactly when no call of it is an acceptable validation of an
  existing profile with such a name (`RunsAgreeExactly`). Which names these are is stated
  exactly: those that spell `api_key`, `tax_id` or `response_body` across separators
  (`CapabilityKeys.TableRefusesExactly`), and those that hold a private or service-role key
  or are a cookie header (`CapabilityKeys.RedactionHitsExactly`).
- Overlapping calls of one catalog client can pass off an old catalog as unmodified
  (`CatalogRuns.OverlapMisleads`). A 304 answer is the service's catalog exactly when the
  last listing that another call stored while this call was going on, if any, is the same
  under the call's filter (`NotModifiedExactly`).
- A clean-up failure of an import is reported over a failed rollback, and hides it
  (`CatalogImport.LocalCatalogStore.WriteImport`); `CatalogImport.HiddenRollback` is a
  schedule on which both fail.
- A publish batch whose identities are all new can still be refused as a whole
  (`EvidenceStore.NewIdentitiesRefused`). A batch is refused exactly when one of its records
  has a new identity and an evidence id that another record already has
  (`EvidenceStore.RefusedOverEvidence`).

Running `dafny verify dfyconfig.toml` checks the whole project.

## Model

| member | source | states |
|---|---|---|
| `JsonPointer.DecodePointerPart` | scripts/review_mcp_contract.py:350-373 | the scanning loop computes the decoding of a token, fails exactly on a `~` that no `0` or `1` follows, and is inverse to escaping |
| `JsonPointer.DecodeFailsExactly` | scripts/review_mcp_contract.py:350-373 | decoding fails if and only if some `~` starts no escape (section 3 of RFC 6901) |
| `JsonPointer.DecodeEscape` | scripts/review_mcp_contract.py:350-373 | a written token decodes to itself and holds no `/` |
| `JsonPointer.EscapeDecode` | scripts/review_mcp_contract.py:350-373 | each decodable text is the written form of exactly the token it decodes to |
| `JsonPointer.DigitsValue` | scripts/review_mcp_contract.py:303-348 | an accepted index token is the one decimal text of its value |
| `JsonPointer.ResolveExactly` | scripts/review_mcp_contract.py:303-348 | a local reference resolves to an object if and only if it is the pointer of some path of keys and positions that leads there (section 4 of RFC 6901) |
| `SchemaSemantics.VerdictStable` | scripts/review_mcp_contract.py:391-471 | a verdict on a value, once reached at some evaluation depth, holds at every greater depth, so cyclic references have one meaning |
| `SchemaSemantics.VerdictConsistent` | scripts/review_mcp_contract.py:391-471 | no value is both accepted and rejected by a schema at one depth |
| `SchemaExpansion.CoversProduct` | scripts/review_mcp_contract.py:375-389 | a value covered by both operands of the cross product is covered by it |
| `SchemaExpansion.ExpansionComplete` | scripts/review_mcp_contract.py:391-471 | expansion loses no value: whatever satisfies a schema satisfies every fragment of some branch |
| `ExpansionMeaning.LooseExactly` | scripts/review_mcp_contract.py:391-471 | for every document and schema, the branches admit exactly what satisfies the schema with `oneOf` read as `anyOf`, at the schema and at whatever it reaches by `$ref`, `allOf`, `anyOf` and `oneOf` |
| `ExpansionMeaning.CoveredExactly` | scripts/review_mcp_contract.py:391-471 | the same at the entry point and for any number of steps: what lies beyond the depth limit adds nothing |
| `ExpansionMeaning.StrictExactly` | scripts/review_mcp_contract.py:391-471 | a schema accepts exactly the values that satisfy it loosely and that, on some way through variants admitting them, have all the other variants of every met `oneOf` reject them |
| `ExpansionMeaning.ApartIsSettled` | scripts/review_mcp_contract.py:391-471 | a loosely satisfying value is settled, so not gained, when of any two variants of each met `oneOf` one rejects it |
| `ExpansionMeaning.UnmetIsApart` | scripts/review_mcp_contract.py:391-471 | a schema whose expansion meets no `oneOf` keeps every value apart; a `oneOf` under `properties`, in an unused definition or in data does not matter |
| `ExpansionMeaning.ExpansionPreservesMeaning` | scripts/review_mcp_contract.py:391-471 | for every document, value and further keyword: no value is lost, the admitted values are the loosely satisfying ones, the gained ones are exactly those with an unsettled `oneOf`, and there is none under either of the two conditions |
| `ExpansionMeaning.OneOfGainsValues` | scripts/review_mcp_contract.py:450-471 | a schema with `oneOf` whose branches cover every value while the schema accepts none |
| `ExpansionMeaning.NestedOneOfGainsNothing` | scripts/review_mcp_contract.py:450-471 | a schema with a `oneOf` under `properties` whose branches admit exactly what it accepts |
| `SchemaExpansion.ExpansionCount` | scripts/review_mcp_contract.py:375-471 | how many branches an expansion has, computed without building them, and that it is at most 256 |
| `SchemaReview.AcceptedType` | scripts/review_mcp_contract.py:484-498 | the type of every value that all fragments of a branch assert is among its possible types |
| `SchemaReview.NodesComplete` | scripts/review_mcp_contract.py:473-481 | a value accepted by all schemas at a position is covered by the branches of their joint expansion |
| `SchemaReview.ClosedKeys` | scripts/review_mcp_contract.py:536-602 | with a closed, clean object view, every field of an accepted object is a declared property and not credential-bearing |
| `SchemaReview.RequiredPresent` | scripts/review_mcp_contract.py:536-581 | an accepted object has every name its branch requires |
| `SchemaReview.PinnedByEnum` | scripts/review_mcp_contract.py:510-518 | with an explicit enumeration, an accepted environment value is one of the document's literals, null or an array |
| `SchemaReview.BoundedItems` | scripts/review_mcp_contract.py:604-623 | an accepted array is no longer than the largest integer in the document |
| `SchemaReview.PassingIsTame` | scripts/review_mcp_contract.py:625-685 | a value accepted at a passing position is tame at every depth: every field is declared in the document and not credential-bearing, arrays are bounded, environments pinned |
| `SchemaReview.BranchIsTame` | scripts/review_mcp_contract.py:583-685 | the same for one branch |
| `SchemaReview.OneSource` | scripts/review_mcp_contract.py:272-301 | fields of an accepted root object name at most one of the exclusive sources |
| `SchemaReview.ReviewedArguments` | scripts/review_mcp_contract.py:272-301 | a review without findings means every accepted argument value is an object, carries `workspace_id` when the tool is scoped, names at most one source and is tame throughout |
| `SchemaReview.WithinExactly` | scripts/review_mcp_contract.py:536-623 | limits hold of a document exactly when they cover its largest integer, every value an `enum` or `const` lists and every declared name, so those three are the least limits |
| `SchemaNesting.NodesExpandShallow` | scripts/review_mcp_contract.py:391-481 | expanding schemas without `$ref` gives branches that nest no deeper |
| `SchemaNesting.PropertiesShallow` | scripts/review_mcp_contract.py:536-560 | the schemas of a property nest strictly less deep than the branch that declares it |
| `SchemaReview.PassesStable` | scripts/review_mcp_contract.py:625-685 | a larger bound on nested analysis never turns a pass into a failure |
| `SchemaReviewer.Reviewer.Add` | scripts/review_mcp_contract.py:266-270 | a finding is on record afterwards, once, and earlier ones stay in place |
| `SchemaReviewer.Reviewer.ResolveLocalRef` | scripts/review_mcp_contract.py:303-348 | the loop computes the resolution and, exactly when there is none, records the refusal at the reference |
| `SchemaReviewer.Reviewer.CrossBranches` | scripts/review_mcp_contract.py:375-389 | the cross product within the cap, or nothing and the refusal on record |
| `SchemaReviewer.Reviewer.Expand` | scripts/review_mcp_contract.py:391-471 | at most 256 branches; the specified expansion with no new finding, or a refusal recorded at this schema or below: nothing is dropped silently, and cyclic references end |
| `SchemaReviewer.Reviewer.ExpandReference` | scripts/review_mcp_contract.py:414-434 | the same for the `$ref` of a schema |
| `SchemaReviewer.Reviewer.ExpandConjuncts` | scripts/review_mcp_contract.py:436-448 | the same for `allOf` |
| `SchemaReviewer.Reviewer.ExpandAlternatives` | scripts/review_mcp_contract.py:450-471 | the same for `anyOf` and `oneOf` |
| `SchemaReviewer.Reviewer.ExpandNodes` | scripts/review_mcp_contract.py:473-481 | the same for all schemas at one position |
| `SchemaReviewer.Reviewer.PossibleTypes` | scripts/review_mcp_contract.py:484-498 | the loop computes the possible types of a branch |
| `SchemaReviewer.Reviewer.CollectProperties` | scripts/review_mcp_contract.py:545-560 | the loop appends each property's schema under its name; every credential-bearing name has its finding recorded at its own path, and without one nothing is recorded |
| `SchemaReviewer.Reviewer.ObjectView` | scripts/review_mcp_contract.py:536-581 | the merged view of a branch as an object; each malformed keyword of each fragment has its own finding recorded at its place, and a clean branch records nothing |
| `SchemaReviewer.Reviewer.ReviewObject` | scripts/review_mcp_contract.py:583-602 | completes without finding exactly when the branch passes as an object |
| `SchemaReviewer.Reviewer.ReviewArray` | scripts/review_mcp_contract.py:604-623 | completes without finding exactly when the branch passes as an array |
| `SchemaReviewer.Reviewer.ReviewBranch` | scripts/review_mcp_contract.py:640-683 | completes without finding exactly when the branch passes, and records a root branch's view |
| `SchemaReviewer.Reviewer.ReviewBranches` | scripts/review_mcp_contract.py:636-685 | the loop over branches, with how many were accepting and their recorded views |
| `SchemaReviewer.Reviewer.Analyze` | scripts/review_mcp_contract.py:625-685 | completes without finding exactly when the position passes; a refused expansion has its refusal recorded, a position without an accepting branch its own finding, and without `$ref` a bound of at least the nesting depth is not hit unless a refusal is recorded |
| `SchemaReviewer.Reviewer.CheckSources` | scripts/review_mcp_contract.py:272-301 | a finding exactly when recorded root branches name several exclusive sources |
| `SchemaReviewer.Reviewer.CheckWorkspace` | scripts/review_mcp_contract.py:272-301 | a finding exactly when some recorded root branch lacks a required `workspace_id` |
| `SchemaReviewer.Reviewer.Review` | scripts/review_mcp_contract.py:272-301 | the reviewer object returns no finding if and only if the specified review passes |
| `SchemaReviewer.SchemaIssues` | scripts/review_mcp_contract.py:688-693 | the entry point returns no finding if and only if the review passes, and then every accepted argument value is an object with `workspace_id` when scoped, at most one source field, and tame throughout under the limits of the schema's own text; the bound is not hit by a shallow schema without `$ref` unless a refusal is recorded |
| `JwksCache.CacheSeconds` | src/mercury_tools/auth/supabase_jwt.py:249-255 | a lifetime never exceeds the hard maximum |
| `JwksCache.StepKeepsInv` | src/mercury_tools/auth/supabase_jwt.py:134-177 | every step of every task keeps the invariant of cache, lock, rate limit and pending calls |
| `JwksCache.RunInv` | src/mercury_tools/auth/supabase_jwt.py:134-177 | the invariant holds in every state of every interleaved run |
| `JwksCache.ReturnedKeyIsFresh` | src/mercury_tools/auth/supabase_jwt.py:134-177 | a returned key comes from a fetch that completed during the call or less than the hard maximum before its first clock reading |
| `JwksCache.RaisedOnlyWithCause` | src/mercury_tools/auth/supabase_jwt.py:134-177 | a call raises only when a step of the run, while the call was going on, failed its fetch or cancelled it, when a fetch completed during the call lacks the key, or when a refresh was admitted less than the cooldown ago |
| `JwksCache.SingleFlight` | src/mercury_tools/auth/supabase_jwt.py:147-177 | at most one fetch is in flight |
| `JwksCache.SpacedWindow` | src/mercury_tools/auth/supabase_jwt.py:147-158 | clock readings at least one cooldown apart are few in any window |
| `JwksCache.RefreshesAreRateLimited` | src/mercury_tools/auth/supabase_jwt.py:147-158 | in every run, a window of length L admits at most floor(L/5)+1 refreshes for unknown keys, even when fetches fail |
| `JwksCache.Validator.Begin` | src/mercury_tools/auth/supabase_jwt.py:134-137 | the validator's fields move exactly by the protocol step and keep the invariant |
| `JwksCache.Validator.Enter` | src/mercury_tools/auth/supabase_jwt.py:147-164 | the same when the lock is taken |
| `JwksCache.Validator.Finish` | src/mercury_tools/auth/supabase_jwt.py:164-177 | the same when the fetch ends |
| `JwksCache.Validator.Cancel` | src/mercury_tools/auth/supabase_jwt.py:147-177 | the same when a waiting or fetching call is cancelled |
| `CatalogImport.LocalCatalogStore.PrepareImport` | src/mercury_tools/catalog/local_store.py:85-123 | the plans of an import, refused exactly when an identity or a file name clashes |
| `CatalogImport.LocalCatalogStore.StageBytes` | src/mercury_tools/catalog/local_store.py:212-227 | a new temporary file with the payload exactly when no operation fails; else nothing is left unless removing the file failed as well |
| `CatalogImport.LocalCatalogStore.StageImport` | src/mercury_tools/catalog/local_store.py:126-136 | every plan staged and backed up exactly when no operation fails, with no destination touched |
| `CatalogImport.LocalCatalogStore.CommitPlan` | src/mercury_tools/catalog/local_store.py:139-155 | one destination replaced or nothing changed, and whether it was replaced |
| `CatalogImport.LocalCatalogStore.RestorePlan` | src/mercury_tools/catalog/local_store.py:249-258 | one destination back to what it held, or nothing changed |
| `CatalogImport.LocalCatalogStore.RollbackImport` | src/mercury_tools/catalog/local_store.py:249-258 | success means every destination is as before; in any case each is old or new |
| `CatalogImport.LocalCatalogStore.CommitImport` | src/mercury_tools/catalog/local_store.py:139-155 | all destinations written, or all as before, or the distinct rollback failure |
| `CatalogImport.LocalCatalogStore.RemoveTemporaries` | src/mercury_tools/catalog/local_store.py:41-50 | when every removal succeeds, only the temporary files of before are left |
| `CatalogImport.LocalCatalogStore.WriteImport` | src/mercury_tools/catalog/local_store.py:41-50 | for every schedule of failing operations: it succeeds exactly when the import is valid and nothing fails; which error is raised for which failures, a clean-up failure hiding a rollback failure; without a failed rollback step the destinations are all written or all as before, and which; other files never change; no temporary file is left unless a removal failed |
| `CatalogImport.HiddenRollback` | src/mercury_tools/catalog/local_store.py:41-50 | a concrete import, after its replace, and a schedule on which the rollback step and the clean-up removal both fail: the new payload stays in place |
| `CatalogImport.GainKeepsTidy` | src/mercury_tools/catalog/local_store.py:126-136 | a plan that takes a new temporary file keeps the accounting of temporary files exact |
| `CatalogImport.LossKeepsTidy` | src/mercury_tools/catalog/local_store.py:139-155 | a replace that consumes one keeps it exact |
| `StableSort.SortPermutes` | src/mercury_tools/db/validation.py:646-653 | sorting permutes its input |
| `StableSort.SortSorts` | src/mercury_tools/db/validation.py:646-653 | sorting by a total preorder yields an ordered list |
| `StableSort.SortStable` | src/mercury_tools/db/validation.py:646-653 | tied elements keep their order |
| `StableSort.StableUnique` | src/mercury_tools/db/validation.py:646-653 | order and stability determine the sorted list |
| `StableSort.SortTwice` | src/mercury_tools/db/validation.py:646-653 | two stable sorts in a row are one lexicographic sort |
| `StableSort.SortedPermutationUnique` | src/mercury_tools/db/validation.py:646-653 | without ties the sorted list does not depend on the input order |
| `GetBatches.ValidationGetBatches` | src/mercury_tools/db/validation.py:409-436 | a split into runs of 1 to 10 records that each fit; it fails exactly when a single record does not fit, and no split has fewer batches, when targets grow with the batch |
| `GetBatches.GreedyStaysAhead` | src/mercury_tools/db/validation.py:409-436 | the greedy cut is never behind the cut of any other split |
| `GetBatches.GreedyOptimal` | src/mercury_tools/db/validation.py:409-436 | finished greedy batches are as few as those of any split |
| `GetBatches.JoinedGrows` | src/mercury_tools/db/validation.py:386-451 | a target made of a fixed part and one clause for each record, joined by separators, grows with the batch, which is what optimality needs |
| `GetBatches.ValidationBatches` | src/mercury_tools/db/validation.py:377-383 | the publish batches concatenate to the input, and all but the last are full |
| `EvidenceRecords.ValidatedPublishBatch` | src/mercury_tools/db/validation.py:465-488 | one record for each identity in identity order, refused exactly for an invalid record or two different records that share an identity or an evidence id |
| `EvidenceRecords.OrderedCoverageRecords` | src/mercury_tools/db/validation.py:646-653 | three stable sorts are one sort by action, version, time descending and run descending |
| `EvidenceRecords.CoverageIgnoresInputOrder` | src/mercury_tools/db/validation.py:646-653 | for distinct identities the report does not depend on the order of the rows |
| `EvidenceStore.InsertedIs` | src/mercury_tools/db/validation.py:170-180 | an ignore-duplicates insertion adds exactly the records of new identity, unchanged, and alters no row |
| `EvidenceStore.HonestMerge` | src/mercury_tools/db/validation.py:301-320 | merging an honest reply never fails and adds exactly what is stored |
| `EvidenceStore.RefusedOverEvidence` | supabase/migrations/20260713100000_erp_action_validation_knowledge.sql:661 | a batch is refused if and only if some record of it has a new identity and an evidence id that belongs to another stored record |
| `EvidenceStore.NewIdentitiesRefused` | supabase/migrations/20260713100000_erp_action_validation_knowledge.sql:661 | a table and a batch of two new identities that is refused as a whole, although one of the records alone is not |
| `EvidenceStore.CheckCreated` | src/mercury_tools/db/validation.py:181-189 | the created identities of a reply; unexpected, repeated or altered rows are refused, proper replies never |
| `EvidenceStore.PendingRecords` | src/mercury_tools/db/validation.py:157-163 | the records still to insert, or a conflict with a stored row |
| `EvidenceStore.ValidationStore.ExistingValidations` | src/mercury_tools/db/validation.py:301-320 | the stored rows of all given identities, read in bounded batches while others write |
| `EvidenceStore.ValidationStore.InsertBatch` | src/mercury_tools/db/validation.py:170-192 | one batch inserted and its reply accounted for |
| `EvidenceStore.ValidationStore.InsertPending` | src/mercury_tools/db/validation.py:168-192 | every pending record stored, and reported created or left to confirm |
| `EvidenceStore.ValidationStore.Confirm` | src/mercury_tools/db/validation.py:194-201 | what the inserts did not report is stored unchanged, or a conflict is raised over a row that differs |
| `EvidenceStore.ValidationStore.Publish` | src/mercury_tools/db/validation.py:154-203 | with other writers in between: every record stored unchanged, the count is the rows this call inserted, no row altered, and which error means what |
| `EvidenceStore.ValidationStore.PublishTwice` | src/mercury_tools/db/validation.py:154-203 | an immediate repeat inserts nothing |
| `BatchReply.BatchResolutionResponseRows` | src/mercury_tools/db/validation.py:572-605 | accepts exactly one answering row for each request and puts the rows in request order; its closing completeness check never fails |
| `BatchReply.OrderOfRowsIsIrrelevant` | src/mercury_tools/db/validation.py:572-605 | the result does not depend on the order of the rows |
| `PeakResponse.PeakResponseNodes` | src/mercury_tools/drivers/peak.py:313-346 | untruncated output is the recursive preorder, truncated output a prefix; truncation happens exactly for more than 128 mappings or containers below depth 8 |
| `PeakResponse.Visited` | src/mercury_tools/drivers/peak.py:313-346 | visiting the top of the stack keeps what was visited and what remains equal to the whole traversal, and makes progress |
| `PeakVerdict.PeakResponseFailed` | src/mercury_tools/drivers/peak.py:307-310 | the verdict in terms of the traversal's specification |
| `PeakVerdict.FailedByMarks` | src/mercury_tools/drivers/peak.py:307-310 | the verdict depends only on how many nodes are plain, good or bad, and on depth |
| `PeakVerdict.ShuffleKeepsMarks` | src/mercury_tools/drivers/peak.py:313-346 | reordering lists at any depth keeps those counts and the depth test |
| `PeakVerdict.VerdictIgnoresOrder` | src/mercury_tools/drivers/peak.py:307-346 | the verdict does not depend on list or key order |
| `Redaction.RedactInPlace` | src/mercury_tools/drivers/generic.py:426-454 | the recursive descent with its wildcard and index cases computes the specified redaction of one path |
| `Redaction.RedactPaths` | src/mercury_tools/drivers/generic.py:410-415 | the loop over selectors computes all of them in turn |
| `Redaction.PathJoinsSet` | src/mercury_tools/drivers/generic.py:426-454 | redacting one more path after a set of paths is redacting the larger set at once |
| `Redaction.AllIsSet` | src/mercury_tools/drivers/generic.py:410-415 | redacting path by path is redacting the set of paths |
| `Redaction.RedactionIgnoresOrder` | src/mercury_tools/drivers/generic.py:410-415 | the order and repetition of selectors do not matter |
| `Redaction.RedactionIdempotent` | src/mercury_tools/drivers/generic.py:410-415 | redacting twice is redacting once |
| `Redaction.RedactedAt` | src/mercury_tools/drivers/generic.py:410-454 | location by location: redacted where a selector matches, gone below, the same value where none matches at, above or below, and the same shape elsewhere |
| `PercentCodec.DecodeUtf8Text` | src/mercury_tools/catalog/identity.py:363-367 | strict UTF-8 decoding inverts encoding |
| `PercentCodec.Utf8TextDecode` | src/mercury_tools/catalog/identity.py:363-367 | it accepts only encodings of texts |
| `PercentCodec.UnquoteQuote` | src/mercury_tools/execution/models.py:537-576 | unquoting inverts quoting, for every text |
| `PercentCodec.UnquoteShrinks` | src/mercury_tools/catalog/identity.py:317-329 | a text is a fixed point of decoding exactly when it has no escape; other decodings are strictly shorter |
| `PathDecoding.DecodePathValue` | src/mercury_tools/catalog/identity.py:317-329 | the bounded loop reaches the fixed point of decoding before its bound, or fails where decoding fails |
| `PathDecoding.FixpointIsFixed` | src/mercury_tools/catalog/identity.py:317-329 | the result has no escape left and decodes to itself |
| `PathDecoding.DecodeFieldName` | src/mercury_tools/catalog/identity.py:332-346 | a name is decoded until no `%` is left, or returned as it came |
| `PathDecoding.FieldFixpointIsPlain` | src/mercury_tools/catalog/identity.py:332-346 | a fully decoded name has no `%` |
| `PathDecoding.StructuralPathKey` | src/mercury_tools/catalog/identity.py:349-360 | the bounded loop finds the first decoding that looks like a path |
| `PathDecoding.StructuralExactly` | src/mercury_tools/catalog/identity.py:349-360 | it finds one if and only if some number of decodings yields one |
| `ActionPath.ValidatePathSegment` | src/mercury_tools/execution/models.py:579-597 | accepts exactly the segments that are safe under every number of decodings |
| `ActionPath.DecodingStaysSafe` | src/mercury_tools/execution/models.py:579-597 | no repeated decoding of an accepted segment fails or gives a separator or dot segment |
| `ActionPath.DoubleSlashExactly` | src/mercury_tools/execution/models.py:525-534 | a joined path has `//` if and only if an inner segment is empty |
| `ActionPath.ReadTemplate` | src/mercury_tools/execution/models.py:537-576 | the loop over the template accepts exactly well-formed ones and notes each placeholder once |
| `ActionPath.FillPlaceholders` | src/mercury_tools/execution/models.py:537-576 | the loop over parameters renders exactly the renderable combinations |
| `ActionPath.RenderActionPath` | src/mercury_tools/execution/models.py:537-576 | succeeds exactly for renderable templates, with a valid final path made of the rendered segments |
| `ActionPath.RenderedIsValid` | src/mercury_tools/execution/models.py:525-576 | the last guard never fires, and splitting the path gives the rendered segments back |
| `ActionPath.RenderInvertible` | src/mercury_tools/execution/models.py:537-576 | splitting the result and decoding placeholder segments once returns the parameters as text |
| `ActionPath.RenderInjective` | src/mercury_tools/execution/models.py:537-576 | parameter sets that render the same path agree as text |
| `CapabilityKeys.TableRefusesExactly` | supabase/migrations/20260719120000_connector_neutral_profiles.sql:44-65 | of the names the service stores, the table refuses exactly those that spell `api_key`, `tax_id` or `response_body` once runs of separators are one |
| `CapabilityKeys.FiltersDiffer` | src/mercury_tools/db/product.py:314-328 | `api.key` is stored by the service and refused by the table |
| `CapabilityKeys.RedactionHitsExactly` | src/mercury_tools/safety/redaction.py:207-239 | of the names the service stores, the redaction hits exactly those that hold a private or service-role key, or are a cookie header |
| `CapabilityKeys.CookieSlipsThrough` | src/mercury_tools/safety/redaction.py:207-239 | `cookie` passes both filters and is redacted |
| `ConnectorProfiles.CredibleStatus` | src/mercury_tools/db/product.py:458-495 | of evidence with the right source, time and binding the states alone decide the status: ready exactly when all pass, ready for writing exactly with a reviewed mutation |
| `ConnectorProfiles.AcceptedIsCredible` | src/mercury_tools/db/product.py:1219-1238 | what a validation accepts is such evidence, and stays so without its redacted names |
| `ConnectorProfiles.PublicTwice` | src/mercury_tools/db/product.py:401-424 | showing, storing and reading a profile in public form loses exactly the capabilities whose names are redacted |
| `ConnectorProfiles.HistoryDecides` | src/mercury_tools/db/product.py:1111-1443 | in every run on either store a profile is what the last successful call on its key other than a setup left; only a validation leaves evidence, of which the log loses the redacted names |
| `ConnectorProfiles.ReadyExactly` | src/mercury_tools/db/product.py:458-495 | in every run a profile is ready if and only if that last call is a validation whose states all pass, so it succeeded after the last link and unlink of the key; the table holds its evidence, the log holds it without redacted names and after a setup judges only the rest |
| `ConnectorProfiles.StepsAgreeExactly` | src/mercury_tools/db/product.py:2023-2165 | on equal profiles the two stores do the same with a call unless it is an acceptable validation of an existing profile with a name that the table refuses or the redaction hits |
| `ConnectorProfiles.RunsAgreeExactly` | src/mercury_tools/db/product.py:761-782 | both stores hold the same profiles and give the same answers throughout a run if and only if it has no such call |
| `ConnectorProfiles.StoresCanDiffer` | supabase/migrations/20260719120000_connector_neutral_profiles.sql:82-84 | a link and a validation of the catalog's generic server with `api.key`, after which the log is ready and the table is not |
| `ConnectorProfiles.RedactionLosesNames` | src/mercury_tools/db/product.py:1501-1540 | the same with `cookie`: equal answers and status, but the log has lost the capability |
| `ProfileStore.KeyTextInjective` | src/mercury_tools/db/product.py:754-759 | different keys have different texts in the log's dictionary |
| `ProfileStore.SameSize` | src/mercury_tools/db/product.py:1227-1229 | comparing sizes after filtering detects exactly that something was filtered |
| `ProfileStore.Store.StateEvents` | src/mercury_tools/db/product.py:642-667 | paging in steps of 500 returns all events of the workspace, in order |
| `ProfileStore.Store.CurrentProfiles` | src/mercury_tools/db/product.py:761-782 | the fold over events, which filters and redacts each profile, holds the same profiles as the specification, under their texts |
| `ProfileStore.ReadBack` | src/mercury_tools/db/product.py:1501-1540 | what the fold makes of a profile that was shown and recorded: the profile without its redacted names |
| `ProfileStore.Store.FallbackSet` | src/mercury_tools/db/product.py:963-1109 | appending one redacted event configures the profile as specified and leaves other workspaces alone |
| `ProfileStore.Store.SetProductTables` | src/mercury_tools/db/product.py:2023-2165 | upserting one row configures the profile as specified, with the check constraint |
| `ProfileStore.Store.SetConnectorProfile` | src/mercury_tools/db/product.py:1967-2021 | the same with the fall back to the log when the tables are missing |
| `ProfileStore.Store.StartSetup` | src/mercury_tools/db/product.py:1111-1140 | a setup call has exactly its specified effect and answer, whichever store is used |
| `ProfileStore.Store.LinkProfile` | src/mercury_tools/db/product.py:1142-1195 | the same for a link |
| `ProfileStore.Store.ValidateProfile` | src/mercury_tools/db/product.py:1197-1263 | the same for a validation, error by error |
| `ProfileStore.Store.ValidateProductTables` | src/mercury_tools/db/product.py:1298-1337 | refuses exactly an unlinked profile, else configures it |
| `ProfileStore.Store.FallbackValidate` | src/mercury_tools/db/product.py:1265-1296 | the same over the log |
| `ProfileStore.Store.UnlinkProfile` | src/mercury_tools/db/product.py:1339-1443 | the same for an unlink |
| `CatalogActions.MergeActions` | src/mercury_tools/catalog/local_store.py:158-176 | refused exactly for repeated ids; local actions override global ones, each id appears once, in listing order |
| `CatalogActions.UniqueActions` | src/mercury_tools/catalog/local_store.py:193-199 | refused exactly for repeated ids |
| `CatalogActions.ListingIgnoresOrder` | src/mercury_tools/catalog/local_store.py:158-176 | the listing does not depend on the order of the actions |
| `CatalogCache.Cache.ReplaceGlobal` | src/mercury_tools/catalog/cache.py:30-53 | actions and tag change together or not at all, whichever statement fails; repeated ids or versions are refused |
| `CatalogCache.Cache.ListGlobal` | src/mercury_tools/catalog/cache.py:55-76 | the stored actions in listing order, refused exactly for an unreadable table |
| `CatalogCache.Cache.RowsForActions` | src/mercury_tools/catalog/cache.py:123-147 | one row for each action, refused exactly for repeated ids or versions |
| `CloudCatalog.PublishedActions` | src/mercury_tools/cloud/api.py:648-665 | the active actions by id, refused exactly for repeated ids or versions |
| `CloudCatalog.ListActions` | src/mercury_tools/cloud/api.py:211-231 | which status and body each request gets; 304 exactly for the tag of the same listing |
| `CloudCatalog.FromCacheIsFiltered` | src/mercury_tools/cloud/client.py:299-312 | filtering the cached listing yields the same actions as filtering the catalog |
| `CloudCatalog.Client.CachedActions` | src/mercury_tools/cloud/client.py:299-312 | the filter of what the cache holds |
| `CloudCatalog.Client.ListCatalog` | src/mercury_tools/cloud/client.py:96-141 | whether answered by 200 or 304 the result is the filtered catalog the server holds, and the cache then holds it with its tag; else the filter of the unchanged cache |
| `CatalogRuns.StepKeepsInv` | src/mercury_tools/cloud/client.py:96-141 | every step of overlapping calls keeps the stored tag that of the stored actions |
| `CatalogRuns.AnswersComeFromCatalogs` | src/mercury_tools/cloud/client.py:96-141 | in every interleaving, an answer is the filter of the catalog the service sent, else of the last one stored, which the service once published |
| `CatalogRuns.ListingIsOfServe` | src/mercury_tools/cloud/api.py:211-231 | the listing behind a 200 or 304 answer is the catalog the service held when it served that call |
| `CatalogRuns.NotModifiedExactly` | src/mercury_tools/cloud/client.py:114-118 | for every filter, a 304 answer is the filtered catalog of the service if and only if the last listing another call stored between this call's begin and its use of the cache, if any, is the same under the filter |
| `CatalogRuns.UndisturbedNotModified` | src/mercury_tools/cloud/client.py:114-118 | with no store by another call in between, a 304 answer is the filtered catalog that the service held when it served the call |
| `CatalogRuns.OverlapMisleads` | src/mercury_tools/cloud/client.py:96-141 | a run of three overlapping calls in which a 304 answer is an old catalog |

## Left out

- Schema keywords that the reviewer does not read (`prefixItems`, `pattern`, `not` and others) are one arbitrary further condition on each fragment; the results hold whatever it is.
- Equality in `enum` and `const` is equality of parsed values, and numbers are typed as Python's json module types them: a float without a fraction is no integer.
- A `type` list with an entry that Python cannot hash makes the reviewer raise; the model ignores such an entry.
- The recursion of `_analyze` through `properties` and `items` has no depth limit of its own: the model gives it a bound, and exhausting the bound stands for Python's recursion error, which is no finding.
- `CredentialNames.IsCredentialFieldName` computes the reviewer's word lists for ASCII names; nothing is proved about the lists themselves.
- The tool annotations checked by `_annotation_issues` and the parsing of the reviewed module: fixed comparisons.
- JWT signatures, HTTP and JWKS parsing are a fetch that fails or yields keys; tasks waiting for the lock may enter in any order.
- File descriptors, fsync, symlink and directory checks are steps that may fail; an asynchronous interrupt between a replace and the statement that records it is not modelled.
- Import plans are values held in a sequence that the store's methods reassign, not heap objects shared by reference.
- Request sizes of the evidence store are an arbitrary function of the batch; optimality needs that it grows with the batch. Replies of a server that is not honest are covered by the safety clauses only.
- `record_observation`, `coverage` and `resolve` beyond sorting and reading replies: request plumbing.
- JSON trees are values: `Redaction.RedactInPlace` returns the redacted tree, so that the caller's tree is untouched holds by construction and aliasing is not captured.
- An index component of a redaction path is a text of ASCII digits; Python's `isdigit` accepts a few more characters, on some of which the conversion raises.
- Lone surrogates, which Python's text can hold, are not in the model's text; and `_credential_transform` and `sanitize_document` are not modelled.
- Connector ids and mode names are taken as already trimmed and lower-cased; a timestamp is the instant it denotes; the pattern of an evidence reference is a flag of the call; of the redaction only its effect on capability names is modelled, since it leaves the catalog's ids, the states, sources and timestamps as they are.
- Display names, metadata, company fields and timestamps of connector profiles: the two stores treat an unsafe display name differently, and none of them decides a status.
- The caller's workspace is registered and its token active; a failing request other than a missing schema or the check constraint ends a call and is not modelled.
- The catalog's entity tag is taken to be collision-free, actions are already validated, and the client talks to this service with one cache.
- A corrupted cache file is modelled by rows that do not decode, not by a database that does not open.
- AWS readiness gates, connector catalog contents, config validation, consent pages, the command line, prompts and driver authentication: long conjunctions over fixed names, or user interface.
