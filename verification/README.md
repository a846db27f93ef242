# Verified models of the Stata research agent's self-contained algorithms

The repository is a desktop research agent: it runs model steps against remote providers, compiles the context of
each step, keeps provider credentials, indexes literature, and evaluates itself. This project models the parts of it
whose correctness lies in an algorithm, and proves what those parts are for.

| component | models |
|---|---|
| `DependencyClosure` | the worklist that collects the packages a build needs, over cyclic dependencies with extras |
| `SchemaTypes` | the compiler from JSON Schema to TypeScript types, against the meaning of both languages |
| `EventStream`, `EventFields` | the incremental event-stream reader emitted into the web client, and the server's frames |
| `CircuitRegistry`, `ModelGateway`, `GatewaySafety`, `OutputInspection` | retries, fallback routes and circuit breakers of a model invocation; inspection and storage of the answer |
| `PassAtK`, `TrialMetrics` | pass@k and pass^k, against counting subsets of trials; comparison of two experiments |
| `ContextSelection`, `ContextGuarantees`, `ContextPriority`, `ContextCompiler`, `ContextOrder`, `ContextBudget` | which context a step may see, under a token budget, and the gateway's check of it |
| `CredentialLedger`, `CredentialSafety`, `CredentialService` | create, rotate, delete and recover provider credentials, with a crash allowed between any two calls |
| `KnowledgeBlocks`, `KnowledgeNodes`, `KnowledgeText`, `KnowledgeTree` | cutting documents into blocks and building the tree of canonical nodes |
| `FirstFitMatching`, `MatchingOptimality`, `MemoryBenchmark`, `MemoryMetrics` | scoring memory predictions by greedy matching, and when that is as good as any matching; keeping benchmark splits apart |
| `TokenRun`, `GroundedAnswer` | longest copied run of tokens; attribution checks of an answer |
| `NeedleSearch` | the chunked search for a secret in files |
| `OperationalRollup`, `RollupConservation`, `RollupStatus`, `SliceValues` | rolling up operational metrics over workspaces and slices of turns |
| `Wrappers`, `Sequences` | shared result types; facts about sequences and occurrences of one in another |

Code that works by updating state is modelled by methods and classes (`ProviderCircuitRegistry`,
`ProviderCredentialService`, the loops of the compiler, the gateway, the scanners and the rollup) whose contracts tie
them to specification functions; the lemmas are about those functions. Amounts, delays and rates are exact rationals.

`dafny verify dfyconfig.toml` checks the whole project.

## Findings

Places where the code does not do what its documentation, its result values or its neighbours suggest. The model
follows the code; each point has a lemma.

- An answer can leave its attempt and the invocation open, which the comment at model_gateway_service.py:456-459 rules
  out: once it has arrived, only the gate's declared error is handled. It raises in the inspection when it is nested
  too deeply, and after it in encoding, hashing or recording when it holds NaN, an infinity or a lone surrogate, is too
  deep for the encoder or the database, or reports a token count of 2^63 or more
  (`OutputInspection.DeepAnswerRaises`, `NotANumberRaises`, `SurrogateRaises`, `CountedAnswerRaises`).
  `OutputInspection.AnswerRaisesIff` and `AnswerStrandsIff` give the exact condition on the answer. For whole runs, and
  as long as the repository and the guard work otherwise, a prepared attempt stays open if and only if it was
  dispatched and such an answer arrived (`GatewaySafety.OpenAttempts`, `GatewaySafety.InvocationGuarantees`).
- A secret with a character outside ASCII is never adopted, however faithful the store: the comparison with what was
  read back raises on it. The secret stays in the store under a version that is only allocated
  (`CredentialSafety.OtherSecretsAreNeverAdopted`, `CredentialSafety.AccentedSecretIsLost`; exact condition in
  `CredentialSafety.AdoptionFollowsReadBack`).
- A text with CR CR LF is read differently depending on how the network cuts it: normalising the growing buffer again
  and again removes one CR each time (`EventStream.DoubledReturnsDependOnChunking`). Two data lines with a line feed,
  n CRs and a line feed between them give the same events under every cut if and only if n is at most two
  (`EventStream.CutsAgreeIff`). The normalised buffer depends on the moment of normalising exactly for the texts with
  CR CR LF (`EventStream.IncrementalIffNoDoubledReturn`).
- An object schema with neither fields nor `additionalProperties` accepts every object that has the required members,
  but its TypeScript type admits only the empty one (`SchemaTypes.BareObject`); `properties` without `type` accepts
  non-objects but the type refuses them (`SchemaTypes.UntypedProperties`). `SchemaTypes.ObjectBranchIff` gives the
  exact condition for both. `items` beside `prefixItems` is applied to the leading elements as well; the type is right
  about those that `items` accepts (`SchemaTypes.PrefixedArray`).
- The type of an object with fields forgets `additionalProperties`, and required names that no field declares
  (`SchemaTypes.FieldsInhabit`); `oneOf` becomes a plain union and an integer any number. Where a schema says nothing
  else that a type cannot say, its type is exactly the schema without these (`SchemaTypes.ErasedIff`).
- A fallback endpoint that is not allowed is noticed only when the run reaches it, after earlier attempts were
  recorded, and then the invocation is left without an end. As long as no answer raises, this can happen
  exactly when one of the first `limit` routes has such an endpoint (`GatewaySafety.NeverStrandedIff`).
- A requested retry-after delay may be undercut, by the cap or by jitter: with the default policy a wait of 5 seconds
  can become 4 (`GatewaySafety.RetryAfterUndercut`). It is honoured for every jitter only if it is zero, or within the
  cap and the jitter ratio is zero; for some jitter exactly if it is within the widened cap
  (`GatewaySafety.RetryAfterForEveryJitter`; per jitter in `GatewaySafety.RetryAfterHonoured`).
- Deleting a profile that has no open version leaves it `disabled`, although the receipt says `deleted`, and no later
  rotation succeeds (`CredentialSafety.CompletedDeletion`; reached by an interrupted creation, recovery and deletion in
  `CredentialSafety.DisabledForGood`). A profile marked deleted can be rotated, and is enabled again, because rotation
  refuses only `disabled` (`CredentialSafety.DeletedProfileCanReturn`, on a run in `CredentialSafety.DeletedAndBack`).
- First-fit matching can report half the true positives that were possible, depending on the order in which the
  expected memories are listed (`MatchingOptimality.OrderHalvesTheScore`, on two memories and two predictions); never
  less (`MemoryBenchmark.TotalIsHalfOptimal`). It reports as many as any matching if and only if no alternating path
  leads from an unmatched prediction to an unmatched memory (`MatchingOptimality.FirstFitIsMaximumIff`).
- A layer's overall status can be `observed` while a slice of it is `pass`: `unknown` outranks `pass` within a metric
  but is ignored in the status of a layer (`RollupStatus.PassIsMasked`). It happens exactly when no turn reports a
  failure or a warning in the layer, every metric that passes in a turn is unknown in some turn, and some metric passes
  in a slice where no turn reports it unknown (`RollupStatus.LayerIsWorstSliceIff`).
- Slices merge turns whose configurations only look alike: skill `a@b` at revision `c` and skill `a` at revision `b@c`,
  or one model named `a + b` and two models (`SliceValues.DifferentTurnsShareSlices`). Names without `@` and `+` are told
  apart (`SliceValues.SharesSliceIff`).
- The chunked secret search keeps the whole file seen so far when the needle has one byte, because a slice from minus
  zero is the whole sequence (`NeedleSearch.OverlapLength`). It still finds what is there (`NeedleSearch.SearchChunks`).

## Model

| member | source | states |
|---|---|---|
| DependencyClosure.ResolveClosure | tools/build_local_candidate.py:70-91 | the worklist terminates on every finite graph, cyclic or not; it yields the least set of packages with extras that contains the roots and is closed under the requirements active for any accumulated extra, or names a package that every closed set needs and that is not installed; it succeeds exactly when a least closed set of installed packages exists |
| DependencyClosure.PushActive | tools/build_local_candidate.py:84-91 | the inner loop adds exactly the active requirements and keeps what the worklist still owes |
| DependencyClosure.ActiveWithout | tools/build_local_candidate.py:84-89 | a requirement without a marker, or whose marker holds without extras, is always active; any other only for a requested extra its marker holds for |
| DependencyClosure.ActiveGrows | tools/build_local_candidate.py:84-89 | helper: more extras make no requirement inactive |
| DependencyClosure.LeastClosedUnique | tools/build_local_candidate.py:70-91 | there is one least closed set |
| DependencyClosure.OrderIndependent | tools/build_local_candidate.py:70-91 | the order of roots and of requirements does not change the resolved packages and extras |
| DependencyClosure.SuccessIgnoresOrder | tools/build_local_candidate.py:70-91 | nor whether resolution succeeds: what resolves one order resolves every other |
| DependencyClosure.PathIsResolved | tools/build_local_candidate.py:77-91 | everything on a chain of active requirements from a root is resolved with the extras it was asked for |
| DependencyClosure.ReachedPartClosed | tools/build_local_candidate.py:77-91 | what such chains reach is itself closed |
| DependencyClosure.ResolvedIffReached | tools/build_local_candidate.py:70-104 | a package or an extra is in the result exactly when a chain of active requirements from a root reaches it |
| SchemaTypes.Sound | tools/generate_contracts.py:33-81 | a value that a supported schema accepts inhabits the emitted type, through references, unions, type lists, arrays, records and optional fields |
| SchemaTypes.TypedSound | tools/generate_contracts.py:44-73 | the same for one branch of a type list |
| SchemaTypes.ValidValuesInhabit | tools/generate_contracts.py:33-81 | the same for validity under recursive references, without a bound on the depth |
| SchemaTypes.Complete | tools/generate_contracts.py:33-81 | where a schema says nothing that TypeScript cannot, every inhabitant of the type is accepted |
| SchemaTypes.TypedComplete | tools/generate_contracts.py:44-73 | the same for one branch of a type list |
| SchemaTypes.ExactIff | tools/generate_contracts.py:33-81 | for those schemas acceptance and inhabitation are the same |
| SchemaTypes.FieldsInhabit | tools/generate_contracts.py:57-72 | whatever else the schema says, the type of an object with fields holds the objects that have each required field and whose members under declared names inhabit the types of those fields |
| SchemaTypes.FieldsIff | tools/generate_contracts.py:57-72 | with exact fields that is acceptance by the schema without `additionalProperties` |
| SchemaTypes.MembersInhabit | tools/generate_contracts.py:60-64 | without fields the type holds the objects whose members all inhabit what `additionalProperties` is compiled to |
| SchemaTypes.AlternativesInhabit | tools/generate_contracts.py:40-46 | a union, exclusive or not, or a type list is inhabited exactly if one of its branches is |
| SchemaTypes.LiteralsInhabit | tools/generate_contracts.py:36-39 | constants and enumerations hold their literals, up to further members of objects |
| SchemaTypes.NamesInhabit | tools/generate_contracts.py:47-56 | integers are any numbers, arrays hold what `items` is compiled to at every index, unknown names hold everything |
| SchemaTypes.ErasureKeepsType | tools/generate_contracts.py:33-81 | no schema's type depends on exclusivity, integrality, members beside declared fields or undeclared required names |
| SchemaTypes.ErasedIff | tools/generate_contracts.py:33-81 | a type is exactly its schema without these where the rest is exact |
| SchemaTypes.BareObject | tools/generate_contracts.py:57-71 | counterexample family: with neither fields nor `additionalProperties`, whatever `required` or a type list says, every object with the required members is accepted and only the empty one inhabits the type |
| SchemaTypes.ObjectBranchIff | tools/generate_contracts.py:57-72 | for every schema compiled as an object, an accepted value inhabits the type exactly when it is an object and, with nothing declared about members, an empty one |
| SchemaTypes.UntypedProperties | tools/generate_contracts.py:57-72 | `properties` without `type`: non-objects are accepted, and an accepted value inhabits the type exactly when it is an object |
| SchemaTypes.PrefixedArray | tools/generate_contracts.py:55-56 | an accepted array inhabits the type if `items` accepts its leading elements too, and only then where `items` is exact |
| SchemaTypes.ReferenceName | tools/generate_contracts.py:34-35 | the last segment of a component reference is the component's name |
| SchemaTypes.LiteralHoldsItself | tools/generate_contracts.py:36-39 | a constant inhabits its literal type |
| EventStream.DispatchBlock | tools/generate_contracts.py:129-149 | one block yields the event whose name and id are the last such fields and whose data is all data lines joined, or none without data |
| EventFields.BlockSays | tools/generate_contracts.py:129-149 | a block without a data field says nothing; otherwise the event is named by the last event field or is a message, has the id of the last id field if any, and the data of all data fields |
| EventFields.FieldLines | tools/generate_contracts.py:134-139 | a line is read as name and value with or without one space after the colon, and a name alone as an empty value |
| EventFields.OtherLines | tools/generate_contracts.py:132-133 | comments and empty lines say nothing, and a carriage return at the end does not count |
| EventFields.DataOf | tools/generate_contracts.py:142 | data fields keep their order |
| EventStream.DispatchBlocks | tools/generate_contracts.py:154-159 | the inner loop delivers the complete blocks in order and keeps the rest |
| EventStream.Consume | tools/generate_contracts.py:150-162 | the reader's loop over chunks is the function `Read` |
| EventStream.ChunkingIsInvisible | tools/generate_contracts.py:150-162 | for every text without CR CR LF and every way of cutting it, the events are those of the whole text |
| EventStream.IncrementalIffNoDoubledReturn | tools/generate_contracts.py:152-153 | normalising a prefix first is invisible for every cut exactly when the text has no CR CR LF |
| EventStream.DoubledReturnsDependOnChunking | tools/generate_contracts.py:150-162 | counterexample family without empty reads: three CRs and a line feed between two data lines give one event, or two when cut behind that line feed |
| EventStream.CutsAgreeIff | tools/generate_contracts.py:150-162 | two data lines with a line feed, n CRs and a line feed between them give the same events under every cut if and only if n is at most two |
| EventStream.HeadArrives | tools/generate_contracts.py:150-162 | however the text before the second line is cut, reading goes on as if it had arrived at once |
| EventStream.ReadsAgainstReturns | tools/generate_contracts.py:150-162 | from there the two lines come apart exactly when at least as many reads follow as there are CRs |
| EventStream.NormaliseIncrementally | tools/generate_contracts.py:152-153 | normalising a prefix first gives the same text |
| EventStream.SplitPrefix | tools/generate_contracts.py:154-159 | blocks cut off early are the blocks of the longer text |
| EventStream.EventOfFrame | src/stata_research_agent/interfaces/api/app.py:2279-2299 | reading one frame's lines gives back its event, id and data |
| EventStream.SplitFrames | src/stata_research_agent/interfaces/api/app.py:971-982 | a sequence of frames is cut back into exactly those frames |
| EventStream.RoundTrip | src/stata_research_agent/interfaces/api/app.py:2277-2300 | any list of sendable frames, encoded and read under any chunking, gives back the events sent |
| CircuitRegistry.ProviderCircuitRegistry.constructor | src/stata_research_agent/application/model_gateway_service.py:106-107 | an empty registry |
| CircuitRegistry.ProviderCircuitRegistry.IsOpen | src/stata_research_agent/application/model_gateway_service.py:109-124 | a key is open exactly when its recorded history says so, and the lazy reset is the one the history implies |
| CircuitRegistry.ProviderCircuitRegistry.RecordFailure | src/stata_research_agent/application/model_gateway_service.py:126-137 | extends the history by the failure; the counters still summarise it |
| CircuitRegistry.ProviderCircuitRegistry.RecordSuccess | src/stata_research_agent/application/model_gateway_service.py:139-140 | extends the history by the success |
| CircuitRegistry.KeysAreIndependent | src/stata_research_agent/application/model_gateway_service.py:107-140 | what happens to other providers or endpoints makes no difference |
| CircuitRegistry.StreakIsRecent | src/stata_research_agent/application/model_gateway_service.py:109-140 | the counted failures are the most recent of those since the last success |
| CircuitRegistry.OpenWithoutReset | src/stata_research_agent/application/model_gateway_service.py:109-137 | without a reset in between, open means at least threshold failures since the last success and less than the cooldown since the latest |
| CircuitRegistry.ClosedUntilNextFailure | src/stata_research_agent/application/model_gateway_service.py:118-124 | a circuit that is closed stays closed until a further failure |
| CircuitRegistry.ResetForgets | src/stata_research_agent/application/model_gateway_service.py:120-123 | after a lazy reset earlier failures never count again |
| ModelGateway.ExecuteStep | src/stata_research_agent/application/model_gateway_service.py:242-560 | the loop over attempts writes the journal that the run function gives, with the registry following its circuit events; an exception after an answer arrived ends it with nothing more recorded |
| ModelGateway.AttemptOnce | src/stata_research_agent/application/model_gateway_service.py:257-558 | one attempt with all its exits: open circuit, missing credential, classified and unclassified transport failure, output gate, an inspection that raises, an output that cannot be encoded, hashed or recorded, the last two after the success is reported, and success |
| GatewaySafety.InvocationGuarantees | src/stata_research_agent/application/model_gateway_service.py:215-560 | whatever the world answers: at most `limit` attempts, numbered in turn, each closed once and the last one ending the invocation, except that a route can be refused before its attempt is prepared, and that an attempt and its invocation stay open if and only if it was dispatched and its answer raised, in the inspection or in storing it; never past the loop; only safe failures are followed by another attempt; routes only advance, each with a successor gets a bounded number of attempts; nothing is dispatched while its circuit is open; total sleep is bounded; and the dispatch, the cause, the reports to the circuit and the wait of each attempt are those its answers and the history call for |
| GatewaySafety.AttemptShape | src/stata_research_agent/application/model_gateway_service.py:257-558 | an attempt's journal is its preparation, a circuit query, at most one dispatch, reports to the circuit only after it, and one closing entry, which ends the invocation exactly when its cause does; the closing entry is missing exactly when the attempt was dispatched and its answer raised; the next route is chosen exactly when the cause leaves the route |
| GatewaySafety.AttemptFollows | src/stata_research_agent/application/model_gateway_service.py:286-547 | an attempt is dispatched exactly if its circuit was closed and there is a credential; each way of closing it, and each wait with its length, occurs exactly for the answers that call for it |
| GatewaySafety.AttemptReports | src/stata_research_agent/application/model_gateway_service.py:286-291 | after its query the circuit hears of a failure exactly for a retry-safe refusal, of a success exactly for a passed output that has JSON text, and of nothing otherwise |
| GatewaySafety.RunObeys | src/stata_research_agent/application/model_gateway_service.py:256-560 | both hold for every attempt of every run, given the whole history before it |
| GatewaySafety.RunIsLegal | src/stata_research_agent/application/model_gateway_service.py:256-560 | every run follows the protocol of attempts, the abandoned attempt included |
| GatewaySafety.EveryAttemptCloses | src/stata_research_agent/application/model_gateway_service.py:256-560 | attempts are numbered in turn, each prepared once and, but for a last one that is abandoned, closed once; only the last ends the invocation, and the trailing error is unreachable |
| GatewaySafety.OpenAttempts | src/stata_research_agent/application/model_gateway_service.py:466-547 | in any run an attempt is left open if and only if it was dispatched, its answer arrived, and the inspection raised undeclared or let pass what cannot be stored |
| GatewaySafety.StrandedByItsAnswer | src/stata_research_agent/application/model_gateway_service.py:466-547 | an invocation that gets the same answer from a fresh registry has one attempt, and leaves it and itself open exactly if that answer raises |
| GatewaySafety.ValidRunsEnd | src/stata_research_agent/application/model_gateway_service.py:215-560 | with answers that do not raise and allowed routes within `limit`, every invocation is ended |
| GatewaySafety.RetriesAreSafe | src/stata_research_agent/application/model_gateway.py:264-266 | no attempt follows a failure of unknown delivery, an unsafe failure, a missing credential or a withheld output |
| GatewaySafety.RoutesInOrder | src/stata_research_agent/application/model_gateway_service.py:314-316 | the route never goes back, skips one or leaves the list |
| GatewaySafety.FallbackInTime | src/stata_research_agent/application/model_gateway_service.py:423-454 | a route with a successor gets at most `attempts_before_fallback` attempts |
| GatewaySafety.OpenCircuitsAreSkipped | src/stata_research_agent/application/model_gateway_service.py:286-316 | an attempt is dispatched only if the circuit was closed by the whole history, the run's own events included |
| GatewaySafety.SleepIsBounded | src/stata_research_agent/application/model_gateway_service.py:450-454 | total sleep is at most one maximal delay per attempt but the last |
| GatewaySafety.DelayBounds | src/stata_research_agent/application/model_gateway_service.py:562-572 | a delay lies between zero and the maximum widened by the jitter ratio |
| GatewaySafety.BackoffDoubles | src/stata_research_agent/application/model_gateway_service.py:562-570 | before jitter the delay starts at the base, doubles with each attempt and stops at the maximum; a requested delay replaces it up to the maximum |
| GatewaySafety.RetryAfterHonoured | src/stata_research_agent/application/model_gateway_service.py:562-572 | the exact condition under which a requested delay is honoured, within the cap and above it |
| GatewaySafety.RetryAfterForEveryJitter | src/stata_research_agent/application/model_gateway_service.py:562-572 | it is honoured for every jitter exactly if it is zero, or within the cap and the ratio is zero; for some jitter exactly if it is at most the widened cap |
| GatewaySafety.RetryAfterUndercut | src/stata_research_agent/application/model_gateway_service.py:562-572 | counterexample: under the default policy 5 seconds become 4 |
| GatewaySafety.NeverStrandedIff | src/stata_research_agent/application/model_gateway_service.py:256-259 | all runs in which no answer raises are ended if and only if the first `limit` routes all have allowed endpoints |
| GatewaySafety.ValidRoutesNeverRejected | src/stata_research_agent/application/model_gateway_service.py:256-259 | one half of it: a run sees at most one new route per attempt |
| GatewaySafety.OpenCircuitsReachRoute | src/stata_research_agent/application/model_gateway_service.py:292-316 | the other half: with every circuit open a run walks to the bad route |
| OutputInspection.VisitSucceedsIff | src/stata_research_agent/application/sensitive_output.py:83-116 | the inspection ends exactly when its recursion has room and every part has a JSON type; it reports whether some string is sensitive, and otherwise passes on the answer as it was |
| OutputInspection.RedactionIsClean | src/stata_research_agent/application/sensitive_output.py:94-107 | if redacted text holds nothing to find, neither does any string of the value passed on |
| OutputInspection.DumpsSucceedsIff | src/stata_research_agent/application/model_gateway_service.py:143-150 | JSON text exists exactly when the encoder has room, every part has a JSON type and every number is finite; it takes a lone surrogate from the answer exactly when a key or string holds one |
| OutputInspection.StorableIff | src/stata_research_agent/application/model_gateway_service.py:531-547 | an answer that passed the gate is stored exactly when it is finite, free of lone surrogates, within the encoder's and the database's depth, and its token counts fit 64-bit integers |
| OutputInspection.HoldsSurrogateIff | src/stata_research_agent/application/model_gateway_service.py:153-154 | a lone surrogate counts wherever it is in a string or in a key |
| OutputInspection.AnswerRaisesIff | src/stata_research_agent/application/model_gateway_service.py:466-547 | an arrived answer in JSON raises exactly when it is too deep for the inspection, or is not sensitive and cannot be stored; anything else within reach is refused as declared, and so is everything while the gate is unavailable |
| OutputInspection.GateDecides | src/stata_research_agent/application/model_gateway_service.py:466-531 | for an answer in JSON the gate raises exactly if it is too deep, refuses it exactly if it is shallow enough and sensitive, and otherwise passes it on to fail in encoding, in hashing or in recording, or to be stored, each under its exact condition |
| OutputInspection.AnswerEndsAs | src/stata_research_agent/application/model_gateway_service.py:509-557 | so the invocation that gets it first is ended as sensitive, or as delivered, exactly under those conditions |
| OutputInspection.AnswerStrandsIff | src/stata_research_agent/application/model_gateway_service.py:466-547 | so the invocation that gets it first is left open under the same condition |
| OutputInspection.DeepAnswerRaises | src/stata_research_agent/application/sensitive_output.py:94-107 | counterexample: for any room the inspection has there is an answer nested too deeply for it |
| OutputInspection.NotANumberRaises | src/stata_research_agent/application/model_gateway_service.py:531 | counterexample: an answer that holds NaN |
| OutputInspection.SurrogateRaises | src/stata_research_agent/application/model_gateway_service.py:541 | counterexample: an answer that holds a lone surrogate |
| OutputInspection.CountedAnswerRaises | src/stata_research_agent/persistence/model_gateway_store.py:1011-1027 | counterexample: a harmless answer one of whose four token counts has more than 63 bits |
| PassAtK.CombIsPascal | src/stata_research_agent/application/product_evaluation.py:792-795 | the factorial form of the binomial is Pascal's |
| PassAtK.DrawsCount | src/stata_research_agent/application/product_evaluation.py:792 | there are that many draws of k trials |
| PassAtK.HittingCount | src/stata_research_agent/application/product_evaluation.py:794 | and that many of them contain a pass |
| PassAtK.PassAtKCountsDraws | src/stata_research_agent/application/product_evaluation.py:793-794 | pass@k is the fraction of draws of k trials that contain a pass |
| PassAtK.PassPowerKCountsDraws | src/stata_research_agent/application/product_evaluation.py:795 | pass^k is the fraction that are all passes |
| PassAtK.StatisticsCountDraws | src/stata_research_agent/application/product_evaluation.py:763-818 | the reported statistics count draws of completed trials |
| PassAtK.StatisticsOrdered | src/stata_research_agent/application/product_evaluation.py:788-795 | 0 <= pass^k <= pass@1 <= pass@k <= 1 whenever they are reported |
| PassAtK.StatisticsMonotone | src/stata_research_agent/application/product_evaluation.py:793-795 | one more pass lowers neither statistic |
| PassAtK.SameAtOne | src/stata_research_agent/application/product_evaluation.py:788-795 | at k = 1 the three coincide |
| TrialMetrics.AggregatesIff | src/stata_research_agent/application/product_evaluation.py:766-803 | aggregation fails for the first that applies of a wrong count, ordinals other than one to that count, a trial of another scenario and known costs in several currencies, and otherwise succeeds |
| TrialMetrics.CountersReport | src/stata_research_agent/application/product_evaluation.py:779-818 | completed trials, passes among them and infrastructure errors are counted each by its own condition |
| TrialMetrics.PassRate | src/stata_research_agent/application/product_evaluation.py:788 | pass@1 is the quotient of passes and completed trials wherever there are any |
| TrialMetrics.GateFailuresAdd | src/stata_research_agent/application/product_evaluation.py:781-785 | failed hard gates are summed over completed trials only |
| TrialMetrics.CostsReport | src/stata_research_agent/application/product_evaluation.py:799-804 | the mean is that of the known costs of completed trials, and the currency theirs |
| TrialMetrics.CostsAdd | src/stata_research_agent/application/product_evaluation.py:799 | known costs are those of completed trials, in order |
| TrialMetrics.ComparisonSays | src/stata_research_agent/application/product_evaluation.py:835-882 | experiments are comparable exactly with the same scenario and k and completed trials on both sides; improved, regressed, unchanged and mixed are told by the two differences |
| PassAtK.ComparisonIsAntisymmetric | src/stata_research_agent/application/product_evaluation.py:832-882 | helper: swapping the experiments swaps improved and regressed and keeps the rest |
| PassAtK.ImprovementIsTransitive | src/stata_research_agent/application/product_evaluation.py:873-882 | helper: improvements compose |
| ContextSelection.DeduplicateKeys | src/stata_research_agent/application/context_compiler.py:170-193 | deduplication keeps each item key once, in order of first appearance |
| ContextSelection.DeduplicateKeepsBest | src/stata_research_agent/application/context_compiler.py:183-193 | what is kept is the first of the best candidates under its key |
| ContextGuarantees.SelectionOrderSorts | src/stata_research_agent/application/context_compiler.py:89-91 | selection order is a stable sort by priority, then recency |
| ContextGuarantees.SelectionIsFair | src/stata_research_agent/application/context_compiler.py:104-145 | one decision per candidate; groups in or out as a whole; budget kept; mandatory in; local-only out for remote providers; what was left out for its size would still not fit |
| ContextGuarantees.GreedyIsFair | src/stata_research_agent/application/context_compiler.py:107-145 | the same after any number of groups |
| ContextGuarantees.SortCommutes | src/stata_research_agent/application/context_compiler.py:90-102 | sorting and taking some groups commute |
| ContextPriority.LowerPrioritiesDoNotInterfere | src/stata_research_agent/application/context_compiler.py:89-145 | adding, removing or reordering groups without a P0 candidate changes neither the failure nor the choice among the P0-holding groups |
| ContextPriority.CoreDecides | src/stata_research_agent/application/context_compiler.py:107-145 | selection among the P0-holding groups is what it would be alone |
| ContextPriority.CoreFitsNoBudgetError | src/stata_research_agent/application/context_compiler.py:132-135 | if those groups fit together there is no budget error |
| ContextCompiler.DeduplicateCandidates | src/stata_research_agent/application/context_compiler.py:170-193 | the dictionary and order list compute the deduplication function |
| ContextCompiler.GroupEntries | src/stata_research_agent/application/context_compiler.py:92-102 | the group lists are the members of each key, in order of the keys' first appearance |
| ContextCompiler.SelectGroups | src/stata_research_agent/application/context_compiler.py:90-153 | positions, in-place sorts and running total compute the selection, and the items come out in original order |
| ContextCompiler.Compile | src/stata_research_agent/application/context_compiler.py:72-153 | the whole compilation, with its budget error |
| ContextCompiler.SortStrips | src/stata_research_agent/application/context_compiler.py:90-91 | sorting with position as last key is the stable sort |
| ContextCompiler.PositionSortRestores | src/stata_research_agent/application/context_compiler.py:147-148 | sorting by position restores the original order of whatever was included |
| ContextCompiler.CompilationIsFair | src/stata_research_agent/application/context_compiler.py:72-153 | a compiled context is the candidates of the included groups in original order, with the tokens it reports and the guarantees of the selection |
| ContextOrder.SelectionOrderByFields | src/stata_research_agent/application/context_compiler.py:90-91 | in selection order a candidate has a smaller priority than those after it, or the same and at least their recency |
| ContextOrder.TiesKeepOrder | src/stata_research_agent/application/context_compiler.py:90-91 | candidates of equal priority and recency keep their order |
| ContextOrder.GroupsByFields | src/stata_research_agent/application/context_compiler.py:92-102 | for any member of a group, each group considered before has a member that comes first by priority and recency |
| ContextOrder.GreedyByOrder | src/stata_research_agent/application/context_compiler.py:107-145 | a group is included exactly if it may be sent and fits beside the groups considered and included before it |
| ContextOrder.CompilationByOrder | src/stata_research_agent/application/context_compiler.py:72-153 | a compiled context has the items of exactly those groups, with decisions in the order of the groups; the budget is refused exactly when missing or below one |
| ContextOrder.FailureMeans | src/stata_research_agent/application/context_compiler.py:111-135 | a pass fails at a group with a mandatory member: for privacy if it may not be sent, and for the budget if it does not fit |
| ContextOrder.DeduplicateByFields | src/stata_research_agent/application/context_compiler.py:183-193 | what is kept under a key is mandatory if anything under it is, then of smallest priority, then of largest recency, then the first |
| ContextOrder.MandatoryJoins | src/stata_research_agent/application/context_compiler.py:156-168 | user messages and transient items join as mandatory P0, the transient ones with the highest recency |
| ContextOrder.OptionalJoins | src/stata_research_agent/application/context_compiler.py:156-165 | other static items join as optional P1, each a group of its own |
| ContextOrder.MandatoryIsIncluded | src/stata_research_agent/application/context_compiler.py:72-153 | a compilation that succeeds includes every user message and every transient item by its key |
| ContextOrder.OptionalNeverFails | src/stata_research_agent/application/context_compiler.py:72-153 | with a positive budget and nothing mandatory compilation succeeds |
| ContextBudget.WindowIsDivided | src/stata_research_agent/application/context_budget.py:77-118 | helper: output reserve, fixed prefix, runtime reserve and item budget are the context window, each as configured, and either refusal has its exact condition |
| ContextBudget.EstimatesCoverContent | src/stata_research_agent/application/context_compiler.py:220-222 | item estimates cover contents and twelve tokens of wrapping each |
| ContextBudget.CompiledContextIsAccepted | src/stata_research_agent/application/model_gateway_service.py:229-233 | a context compiled within the allocation passes the gateway's limit if wrapping stays within 4 * (12 * items + reserve) bytes |
| ContextBudget.OverheadShareIsExact | src/stata_research_agent/application/model_gateway_service.py:231-233 | that share cannot be widened: for whole-token contents that use up the budget it is the exact limit |
| CredentialSafety.CallPreserves | src/stata_research_agent/persistence/global_credentials.py:159-560 | every ledger or store call made when it is safe keeps the invariant |
| CredentialSafety.AdoptPreserves | src/stata_research_agent/persistence/global_credentials.py:236-279 | adoption makes the version the adopted and active one, retires the one it replaces, changes nothing else, and keeps the invariant: one adopted version per profile, the active one |
| CredentialSafety.EveryRunIsSafe | src/stata_research_agent/application/provider_credentials.py:136-247 | in every run of create, rotate, delete and recover, each cut short anywhere, with secrets lost at any time: secrets are stored only under versions allocated first and not closed, the active version is the adopted one, and a deletion under way keeps its profile disabled |
| CredentialSafety.AdoptionFollowsReadBack | src/stata_research_agent/application/provider_credentials.py:233-247 | a version is adopted exactly when the secret is not empty, is ASCII, and the store gave back exactly that secret; otherwise the ledger is unchanged |
| CredentialSafety.OtherSecretsAreNeverAdopted | src/stata_research_agent/application/provider_credentials.py:240-247 | a secret with another character is never adopted and stays under its allocated version, however faithful the store |
| CredentialSafety.AccentedSecretIsLost | src/stata_research_agent/application/provider_credentials.py:136-155 | counterexample from the empty ledger: creation with an accented secret and a faithful store leaves a staging profile and a stored secret |
| CredentialSafety.CompletedDeletion | src/stata_research_agent/application/provider_credentials.py:226-231 | a completed deletion closes every version of the profile and removes their secrets; the profile is marked deleted exactly when some version was open |
| CredentialSafety.DeleteVersionsDone | src/stata_research_agent/persistence/global_credentials.py:523-560 | the loop deletes exactly the listed versions, and the last of them marks the profile |
| CredentialSafety.CompletedRecovery | src/stata_research_agent/application/provider_credentials.py:191-224 | a completed recovery cleans up every version that was allocated or delete-pending and leaves the secret and state of all others |
| CredentialSafety.RecoveredProfiles | src/stata_research_agent/application/provider_credentials.py:191-224 | profiles keep their active versions; one with an active version becomes unavailable exactly if its secret is gone; one without is marked deleted if a version was pending deletion, unavailable if one was only allocated, and else stays as it was |
| CredentialSafety.RecoveryAfterAnyRun | src/stata_research_agent/application/provider_credentials.py:191-224 | after any run and a completed recovery, secrets remain only under adopted or retired versions |
| CredentialSafety.RecoveryCompletes | src/stata_research_agent/application/provider_credentials.py:191-224 | recovery never raises: it completes if the process lives for three calls per version |
| CredentialSafety.LostSecretNoticed | src/stata_research_agent/application/provider_credentials.py:205-213 | an adopted version whose secret vanished makes its profile unavailable, and nothing else changes |
| CredentialSafety.RotationSucceedsIff | src/stata_research_agent/application/provider_credentials.py:157-164 | rotation succeeds exactly for a known profile that is not disabled, a fresh version, a non-empty ASCII secret and a faithful store |
| CredentialSafety.DeletedProfileCanReturn | src/stata_research_agent/persistence/global_credentials.py:206-213 | a deleted profile can be rotated and is enabled again |
| CredentialSafety.NothingOpenStaysDisabled | src/stata_research_agent/persistence/global_credentials.py:479-521 | deleting a profile without an open version completes in one call and leaves it disabled |
| CredentialSafety.DisabledForGood | src/stata_research_agent/application/provider_credentials.py:226-231 | counterexample from the empty ledger: an interrupted creation, recovery and deletion end in a disabled profile that no rotation revives |
| CredentialSafety.DeletedAndBack | src/stata_research_agent/application/provider_credentials.py:157-164 | counterexample from the empty ledger: creation, deletion and rotation end in an enabled profile |
| CredentialService.ProviderCredentialService.Adoption | src/stata_research_agent/application/provider_credentials.py:233-247 | the state after writing, reading back, comparing and adopting is the one the machine function gives, wherever a call raises or the process crashes |
| CredentialService.ProviderCredentialService.Create | src/stata_research_agent/application/provider_credentials.py:136-155 | allocation before the first write; ledger, store and crash state as the machine function gives them; the invariant is kept |
| CredentialService.ProviderCredentialService.RotateSecret | src/stata_research_agent/application/provider_credentials.py:157-164 | a new version beside the active one, then the same; the invariant is kept |
| CredentialService.ProviderCredentialService.Delete | src/stata_research_agent/application/provider_credentials.py:226-231 | staging, then secret before ledger row for each version in ledger order; state as the machine function gives it; the invariant is kept |
| CredentialService.ProviderCredentialService.RecoverVersion | src/stata_research_agent/application/provider_credentials.py:194-223 | the cleanup of one candidate by its state, and its receipt |
| CredentialService.ProviderCredentialService.RecoverAll | src/stata_research_agent/application/provider_credentials.py:191-224 | the loop, with one receipt for each version cleaned up and each adopted version without a secret, in ledger order |
| CredentialService.ReceiptsTellRecovery | src/stata_research_agent/application/provider_credentials.py:191-224 | a completed recovery reports each orphan it removed, each secret it deleted and each adopted version without a secret, under its profile, and nothing else |
| KnowledgeBlocks.NextBlock | src/stata_research_agent/application/knowledge_retrieval.py:347-352 | the scan's step: from the next solid character to the first stop of the look-ahead, stripped |
| KnowledgeBlocks.BlocksAreWellPlaced | src/stata_research_agent/application/knowledge_retrieval.py:347-352 | spans are stripped, inside the page, ordered and disjoint |
| KnowledgeBlocks.BlocksCover | src/stata_research_agent/application/knowledge_retrieval.py:347-352 | every character that is not white space is in a block |
| KnowledgeBlocks.BlankLinesSeparate | src/stata_research_agent/application/knowledge_retrieval.py:347 | two such characters share a block exactly when no blank line lies between them |
| KnowledgeBlocks.BlocksKeepSolid | src/stata_research_agent/application/knowledge_retrieval.py:347-352 | the blocks of a page hold its solid characters in order |
| KnowledgeNodes.BuildCanonicalNodes | src/stata_research_agent/application/knowledge_retrieval.py:331-436 | the nested loops build the root and one node per block; they fail exactly on a blank path, a blank title or no block at all |
| KnowledgeNodes.NormalizedKeepsSolid | src/stata_research_agent/application/knowledge_retrieval.py:384 | normalising a block drops white space only |
| KnowledgeNodes.HashTitlesAreSolid | src/stata_research_agent/application/knowledge_retrieval.py:353-359 | only a help heading can have a blank title |
| KnowledgeText.HashHeadingIff | src/stata_research_agent/application/knowledge_retrieval.py:353 | a block is a hash heading exactly if it matches the pattern, with the title the pattern captures |
| KnowledgeText.BraceHeadingIff | src/stata_research_agent/application/knowledge_retrieval.py:354 | and a help heading exactly if it is the braces around something without a closing brace |
| KnowledgeText.OneKindOfHeading | src/stata_research_agent/application/knowledge_retrieval.py:353-359 | no block is both |
| KnowledgeText.JoinedLines | src/stata_research_agent/application/knowledge_retrieval.py:384 | normalising strips every line, drops the blank ones and joins the rest by line feeds |
| KnowledgeText.FirstLine | src/stata_research_agent/application/knowledge_retrieval.py:384 | a line reaches to the first line break, and a carriage return takes a line feed with it |
| KnowledgeText.LastLine | src/stata_research_agent/application/knowledge_retrieval.py:384 | a text without a line break is one line, and the empty text none |
| KnowledgeText.StripIsCore | src/stata_research_agent/application/knowledge_retrieval.py:384 | stripping removes the white space around a text and nothing else |
| KnowledgeTree.OrdinalsCount | src/stata_research_agent/application/knowledge_retrieval.py:336-424 | ordinals are 1 to n |
| KnowledgeTree.KeysAreUnique | src/stata_research_agent/application/knowledge_retrieval.py:344-421 | no two nodes share a key |
| KnowledgeTree.ParentsComeFirst | src/stata_research_agent/application/knowledge_retrieval.py:356-422 | each node's parent is an earlier node: the root for headings, else the latest section before it on any page, or the root |
| KnowledgeTree.SectionIsParentsText | src/stata_research_agent/application/knowledge_retrieval.py:405-409 | the section title filed with a block is the text of its parent section, or none below the root |
| KnowledgeTree.OpenSectionIsUnique | src/stata_research_agent/application/knowledge_retrieval.py:342-360 | helper: there is one such section |
| KnowledgeTree.NodesAreSolid | src/stata_research_agent/application/knowledge_retrieval.py:140-142 | no node of an accepted document is refused for its text |
| KnowledgeTree.NothingIsLost | src/stata_research_agent/application/knowledge_retrieval.py:346-352 | the blocks of all pages hold every solid character of the document, in order |
| KnowledgeTree.NodeKeepsBlock | src/stata_research_agent/application/knowledge_retrieval.py:346-433 | in every document each node keeps its block's page, span and solid characters; a heading loses its marks only, and its text is its title |
| KnowledgeTree.TitleKeepsSolid | src/stata_research_agent/application/knowledge_retrieval.py:353-384 | a block with a title is its opening marks, the title and its closing mark, but for white space |
| KnowledgeTree.NodesTellBlocks | src/stata_research_agent/application/knowledge_retrieval.py:346-433 | the nodes with their headings' marks put back hold the solid characters of the blocks |
| KnowledgeTree.DocumentKeepsItsText | src/stata_research_agent/application/knowledge_retrieval.py:346-433 | so the nodes of any document, headings or not, hold exactly the solid characters of its pages, in order |
| FirstFitMatching.FirstFitIsSoundAndMaximal | src/stata_research_agent/application/agent_benchmarks.py:106-121 | matches fit and are one to one; an unmatched prediction fits only memories already matched |
| FirstFitMatching.FirstFitIsHalfOptimal | src/stata_research_agent/application/agent_benchmarks.py:106-122 | no one-to-one matching has more than twice as many pairs |
| FirstFitMatching.FirstFitIsMatching | src/stata_research_agent/application/agent_benchmarks.py:106-122 | first fit is such a matching, with as many pairs as it counts |
| FirstFitMatching.EarlierMatchesStand | src/stata_research_agent/application/agent_benchmarks.py:95-121 | later predictions do not change earlier matches |
| FirstFitMatching.HalfIsReached | src/stata_research_agent/application/agent_benchmarks.py:106-118 | the bound is reached, by the order of the expected memories alone, whenever one of two predictions fits both of two memories and the other only the first |
| MatchingOptimality.OrderHalvesTheScore | src/stata_research_agent/application/agent_benchmarks.py:106-122 | counterexample: listing the memories of markers red and blue the other way round doubles the true positives of the same two predictions, both of which can be matched (`MatchingOptimality.BothCanBeMatched`) |
| MatchingOptimality.FirstFitIsMaximumIff | src/stata_research_agent/application/agent_benchmarks.py:106-122 | no matching is larger than first fit's if and only if no alternating path leads from an unmatched prediction to an unmatched memory |
| MatchingOptimality.MaximumIff | src/stata_research_agent/application/agent_benchmarks.py:106-122 | the same for any sound assignment |
| MatchingOptimality.Augment | src/stata_research_agent/application/agent_benchmarks.py:106-122 | one half of it: such a path yields a sound assignment with one pair more |
| MatchingOptimality.NothingIsLarger | src/stata_research_agent/application/agent_benchmarks.py:106-122 | the other half: without one, every matching has at most as many pairs |
| MatchingOptimality.UnambiguousIsMaximum | src/stata_research_agent/application/agent_benchmarks.py:106-122 | if no prediction fits two memories or no memory is fitted by two predictions, first fit is as good as any matching |
| MemoryBenchmark.CountCase | src/stata_research_agent/application/agent_benchmarks.py:95-128 | the loop with its set of matched indices counts what the first-fit assignment is credited with |
| MemoryBenchmark.EvaluateMemoryPredictions | src/stata_research_agent/application/agent_benchmarks.py:78-144 | fails exactly when a case of the split has no array; otherwise the metrics are those of the summed counts |
| MemoryBenchmark.RatesAreShares | src/stata_research_agent/application/agent_benchmarks.py:129-134 | the four rates lie in [0, 1]; recall is 1 exactly when every expected memory was matched, precision exactly when every prediction was |
| MemoryMetrics.CaseCountsAre | src/stata_research_agent/application/agent_benchmarks.py:91-128 | the counters of a case are the sizes of what they name: matched predictions, active ones, those matched to an active memory, those matched to their source, and mentions of forbidden markers |
| MemoryMetrics.TotalsAreSums | src/stata_research_agent/application/agent_benchmarks.py:84-128 | each total is the sum of its own counter over the cases of the split |
| MemoryMetrics.PredictionsAreThoseGiven | src/stata_research_agent/application/agent_benchmarks.py:88-91 | a case without predictions counts its expected memories only, and otherwise the array given for it counts, if it is one |
| MemoryMetrics.RatesAreQuotients | src/stata_research_agent/application/agent_benchmarks.py:129-134 | each rate is the quotient of its counters wherever there is something to rate |
| MemoryMetrics.PassesExactly | src/stata_research_agent/application/agent_benchmarks.py:135-141 | a benchmark passes exactly above nine tenths, nine tenths, nineteen and nineteen in twenty, without a forbidden mention; where nothing was predicted or matched, exactly if nothing was expected |
| MemoryBenchmark.TotalIsHalfOptimal | src/stata_research_agent/application/agent_benchmarks.py:84-123 | summed over all cases, the true positives are at least half of any choice of matchings |
| MemoryBenchmark.RecallIsHalfOptimal | src/stata_research_agent/application/agent_benchmarks.py:130 | so recall is at least half of the best recall |
| MemoryBenchmark.AssertSplitIsolation | src/stata_research_agent/application/agent_benchmarks.py:53-65 | a benchmark is accepted exactly when every case is usable and no normalised prompt is in both splits; each error has its witness |
| MemoryMetrics.SplitsAreApart | src/stata_research_agent/application/agent_benchmarks.py:53-65 | accepted cases have a prompt and are in one of the two splits, and no leak means the prompts of the splits are disjoint |
| TokenRun.LongestCommonTokenRun | src/stata_research_agent/application/rag_evaluation.py:372-386 | the two-row table yields the length of the longest run of tokens that both texts share |
| TokenRun.LongestIsSymmetric | src/stata_research_agent/application/rag_evaluation.py:372-386 | which text is which does not matter |
| TokenRun.LimitExcludesLongerRuns | src/stata_research_agent/application/rag_evaluation.py:356 | the length is within a limit exactly when no run of limit + 1 tokens is shared |
| GroundedAnswer.EvaluateGroundedAnswer | src/stata_research_agent/application/rag_evaluation.py:302-369 | an answer passes exactly when every claim is cited, every citation known and of an allowed role, every marker mentioned by a node its claim cites, and no style node shares a run longer than the limit; what is listed as unknown or missing is exactly that, in order, and each rate is its exact fraction of claims, citations or markers |
| GroundedAnswer.CheckClaims | src/stata_research_agent/application/rag_evaluation.py:322-336 | the loop over claims lists exactly the unsupported markers and counts the leaking citations |
| GroundedAnswer.LongestStyleCopy | src/stata_research_agent/application/rag_evaluation.py:337-340 | the maximum over style nodes is within a limit exactly when no node shares a longer run |
| GroundedAnswer.UniqueUnknown | src/stata_research_agent/application/rag_evaluation.py:313-318 | each unknown citation once, in the order of first appearance |
| GroundedAnswer.UncitedCounts | src/stata_research_agent/application/rag_evaluation.py:309-311 | the missing citations are the claims that cite nothing, as many as there are |
| GroundedAnswer.UnknownCounts | src/stata_research_agent/application/rag_evaluation.py:319-321 | every occurrence of an unknown citation counts once |
| GroundedAnswer.LeaksCount | src/stata_research_agent/application/rag_evaluation.py:332 | so does every cited node of a role that is not allowed |
| GroundedAnswer.LackingCounts | src/stata_research_agent/application/rag_evaluation.py:333-336 | and every marker that no cited node mentions |
| NeedleSearch.SearchChunks | tools/run_live_product_e2e.py:54-61 | for every way of cutting a file into non-empty chunks, found exactly when the content is not empty and holds the needle |
| NeedleSearch.OverlapSuffices | tools/run_live_product_e2e.py:57-61 | a needle that is new with the next chunk is visible in overlap plus chunk |
| NeedleSearch.OverlapLength | tools/run_live_product_e2e.py:61 | one byte less than the needle is kept, but the whole text for a needle of one byte |
| NeedleSearch.OverlapIsIncremental | tools/run_live_product_e2e.py:61 | helper: cutting back to the overlap before or after more arrives is the same |
| NeedleSearch.SecretOccurrences | tools/run_live_product_e2e.py:48-62 | the findings are the files that hold the secret, in the order visited |
| NeedleSearch.CleanIff | tools/run_live_product_e2e.py:48-62 | no finding means no file holds the secret |
| OperationalRollup.GroupMetrics | tools/run_operational_evaluation.py:42-46 | the dictionary holds under each key exactly the metrics filed under it, in order |
| OperationalRollup.Rollup | tools/run_operational_evaluation.py:39-100 | layers and metrics are those something is filed under; each has the rollup of its group, and each layer the status of its metrics |
| OperationalRollup.GroupTurns | tools/run_operational_evaluation.py:103-123 | each dimension holds, under each value, exactly the turns with that value |
| OperationalRollup.SliceRollups | tools/run_operational_evaluation.py:103-134 | one slice per value that some turn has, with its turn count and the rollup of its turns |
| RollupConservation.SlicesAddUp | tools/run_operational_evaluation.py:56-84 | for every dimension and metric, slice numerators, eligible counts and totals add up to those of all turns; the overall status is the worst slice's; the denominator is null exactly when some slice's is, else their sum; the value is the quotient of the sums, or without denominators the sum of the reported amounts |
| RollupConservation.SlicesSumToWhole | tools/run_operational_evaluation.py:103-134 | the tallies of the slices sum to the tally of all turns |
| RollupConservation.TurnsAreSplit | tools/run_operational_evaluation.py:112-123 | the turn counts of the slices add up: no turn is lost or counted twice |
| RollupConservation.InSliceIff | tools/run_operational_evaluation.py:112-123 | a turn is in the slice of its own value and in no other |
| RollupConservation.NullDenominatorIff | tools/run_operational_evaluation.py:60-68 | a denominator is null exactly when some applicable metric has none |
| RollupConservation.RollupShowsTally | tools/run_operational_evaluation.py:56-84 | a rolled-up metric, its value included, is determined by its tally |
| RollupConservation.AbsentIsZero | tools/run_operational_evaluation.py:58-66 | an absent numerator or value counts as zero |
| RollupConservation.NotApplicableOnlyCounts | tools/run_operational_evaluation.py:56-84 | a metric that does not apply changes the count and the tables only |
| RollupConservation.SingleMetric | tools/run_operational_evaluation.py:56-84 | a single metric that applies rolls up to itself, with the rate of its parts |
| RollupConservation.PooledRateIsMean | tools/run_operational_evaluation.py:59-62 | the value of a metric pooled from rates lies between any bounds on those rates |
| RollupStatus.LayerStatusIsReported | tools/run_operational_evaluation.py:86-100 | the status a layer is given is that of the statuses rolled up in it |
| RollupStatus.LayerIsWorstSliceIff | tools/run_operational_evaluation.py:86-100 | a layer is never worse than its worst slice, and as bad exactly unless the reported entries hide its passes: nothing fails or warns, what passes in a turn is unknown in another, and something passes in a slice where it is never unknown |
| RollupStatus.StatusIsSaid | tools/run_operational_evaluation.py:47-58 | a metric's overall status is the worst that any turn reported for it |
| RollupStatus.PassIsMasked | tools/run_operational_evaluation.py:47-58 | counterexample: two turns, a pass and an unknown |
| SliceValues.SharesSliceIff | tools/run_operational_evaluation.py:112-123 | turns share a slice of status, catalog, date, skill or models exactly if they agree on it, as long as names hold no separator and no placeholder |
| SliceValues.ShowsTheTurn | tools/run_operational_evaluation.py:112-123 | helper: what the value of a slice shows, placeholders included |
| SliceValues.JoinedIsInjective | tools/run_operational_evaluation.py:114 | lists of model names without a plus sign are told apart by the joined text |
| SliceValues.DifferentTurnsShareSlices | tools/run_operational_evaluation.py:114-120 | counterexample: different skills, and different lists of models, share a slice |

## Left out

- Storage, processes, HTTP, the browser and the file system: SQLite appears only as the small ledger and logs that the modelled code needs, and reads and answers of the outside world are parameters.
- Concurrent operations on one credential ledger or one circuit registry: operations run one after the other, each cut short anywhere.
- Provider kinds, endpoints and journal rows of the credential ledger, and the hashing behind target names: a version's target is taken to be its identifier.
- Gateway runs in which the irreversibility guard raises, or the repository for another reason than an answer it cannot record, or that are cancelled; streaming deltas and diagnostics.
- JSON text: payloads are their byte lengths; of an answer's text only whether it exists and which characters it takes from keys and strings; request bodies are not modelled.
- The patterns by which the output gate recognises sensitive text, and how many levels each recursion has room for: parameters.
- UTF-8 decoding in the event-stream reader: chunks are decoded strings.
- Schemas with `patternProperties`, boolean subschemas, `allOf`, `not`, formats, or numeric and length bounds: the compiler passes over these keywords, and the meaning given to schemas here does not cover them.
- Spelling of the emitted TypeScript: the target is a type, not its text.
- Floating point: rates, delays and metrics are exact; thresholds compare exact numbers.
- Group keys that look like `single:<n>`: a candidate without a group key forms a group of its own.
- Node kinds and semantic roles of knowledge nodes (regular expressions over one block), their payloads and heading levels.
- Case folding and tokenising: contents, markers and prompts are given normalised.
- Tool-selection and judge-stability scores, retrieval-trace scores and experiment totals: single comprehensions next to the matching and grounding checks.
- Sorted order of rollup keys, subsystem, unit and explanation texts copied from a group's first metric.
