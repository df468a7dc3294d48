# Verification of elephc's stateful and algorithmic cores

elephc compiles PHP to native code. This project models six of its cores in Dafny and proves what
they are for. Each part has a specification that does not look like the code, and lemmas or method
contracts connecting the two for every input, every call sequence or every interleaving.

1. **The curl easy handle.** `curl_setopt`, `curl_reset` and `curl_copy_handle` keep an object, the
   callables it roots and the bridge's own entry in step. `CurlEasy` is the state machine on values,
   `CurlTrace` reads where a transfer's data goes off the call trace alone, `CurlCopy` shows a copy
   bisimilar to its original, and `CurlHandle` refines the machine with the objects themselves.
   `CurlMulti` is the multi handle's identity map and `CurlList` the NUL-framed list codec.
2. **The benchmark history store.** `BenchRecords` and `BenchMerge` are records, their order and the
   merge, `BenchValidation` the validators, `BenchArrival` decides when the order of arrival matters,
   `BenchBackfill` is the reference pass, `BenchFetch` the import checkpoint and `BenchPublish` the
   optimistic publishing protocol over a shared `main` branch.
3. **Generic type inference.** `GenericTypes` prints types, `TypeGrammar` is the language's lexer and
   type parser with its `>>` credit, and `TypeSpelling`, `TypeReading` and `TypeMisreading` decide
   exactly when reading a printed type gives it back. `TypeCanonical` carries that over to the types
   the compiler holds, whose names are resolved, inferred or already instantiated. `GenericTerms`,
   `GenericSharing`, `GenericInference` and `GenericFit` are unification, `GenericResolution` resolves
   an inferred spelling and shows that it denotes the argument's type, `GenericClosures` is the call
   with a closure where a signature is declared, and `ArgumentPlacement` orders a call's arguments.
4. **Profiler page graphs.** `GraphPaths`, `CallGraphLayers` and `CallGraphLayout` are the layered
   call-graph layout, `TraceWaterfall` and `TraceBars` the distributed-trace chart.
5. **Bridge staleness.** `BridgeSources` is the dependency worklist.
6. **Stream transformers.** `DebugInfo` is debug-information injection and `DebugMarkers` the markers
   it reads, as the code generator writes them. `SourceIdentity` is the FNV-1a build identity and
   `SourceTwins` the trees it cannot tell apart.

`Wrappers` and `StableSort` are shared vocabulary. `dafny verify dfyconfig.toml` checks everything.

## What turned out not to hold

The code is modelled as it is; where a promise it documents fails, the project shows an input and
proves when the promise does hold.

- A *rejected* `CURLOPT_DEBUGFUNCTION` latches the shadow flag although the stream stays registered,
  so `CURLOPT_STDERR` is not shadowed. `ShadowRuleHoldsExactly` gives the condition.
- Replacing a sample carries `run_attempt` and `artifact_id` forward from the older record, so the
  stored sample can outrank a newer measurement. The merge keeps the newest sample of every key, after
  each of its records, exactly when no record that is newer than its key's newest sample so far
  leaves out a number that sample has (`MergeKeepsTheNewestExactly`). Records that spell both numbers
  out, as every importer's do, never do that (`ExplicitShedsNothing`).
- For the same reason the order in which records arrive can decide which one is kept, even when no two
  of them have one order (`ArrivalOrderCanDecide`). However much has arrived in whatever order, the
  newest samples are kept exactly when no record leaves out a number of an older one of its key that
  the history does not already outdate (`AlwaysKeepsTheNewestExactly`); then the winners do not depend
  on the order either (`WinnersIgnoreArrivalOrder`).
- A refresh is not a fixed point for manifest entries written before samples were stored in them.
  It leaves an accounted artifact pending exactly when, for some suite its entry has no sample for,
  every saved record of the artifact is outdated by an incoming one (`PendingAgainExactlyWhenOrphaned`,
  `RefreshIsAFixedPoint`).
- The parser does not look at its bracket credit before it takes a separator, so
  `Foo<array<array<int>>, string>` and `Foo<callable(): array<int>>` are not read back as printed;
  nor are callables that take or return `null`, or global classes named like a type word in other
  letters. `DecodeInvertsExactly` gives the condition on every resolved type. Names still tell all
  canonical arguments apart (`NamesAgreeExactly`), but a nullable type and the union it stands for
  get two names (`NullableHasTwoNames`).
- One class can reach a type parameter under two spellings, by name and opened into its arguments,
  and one union with or without the nullable shorthand; inference then reports a conflict although
  the type fits both. A call meeting both spellings of a type that is read back as printed succeeds
  exactly when the type mentions no instantiated class and no union that the parser would respell
  (`TwoSpellingsAgreeExactly`).
- A position that mentions no type parameter is skipped, and a pointer's target does not count as
  mentioned, so `M<ptr<T>>` binds nothing. Skipping loses nothing, whatever is passed, exactly when no
  class there names a parameter as a pointer target (`SkippingLosesNothingExactly`).
- Inference does not look inside unions, intersections and buffers, so a call can succeed although no
  substitution matches it (`UnreadPositionCanMismatch`). On calls whose arguments have the declared
  shape and whose parameters occur only where the walk looks, or in a signature, it succeeds exactly
  when some substitution matches (`InferenceDecidesMatching`).
- An argument of type `object` is bound as the class spelled `object`, a spelling that resolves to
  nothing. A spelling resolves back to the type it was made from exactly on the types the checker
  can hold by name (`SpellingResolvesExactly`, `ObjectHasNoSpelling`).
- A function's marker is read word by word, so a name with a blank, as an instantiated class with two
  arguments has, is cut at the blank. A region comes back as written exactly when its name holds no
  blank and its symbol is one operand (`OpenMarkerIsReadExactly`, `RegionNameIsCut`).
- The hashed source stream does not mark where a path ends, so different trees can have one identity.
  Trees whose sources have equally long paths and contents share a stream only when those sources are
  equal (`StreamsAgreeExactly`). A tree shares its stream with some other tree exactly when it has two
  sources or more, or its only source can be cut elsewhere: its path starts with a shorter Rust path, or
  goes on into the content as a longer one, or the content holds a Rust path that the walk visits later
  (`HasTwinExactly`).

## Model

| member | source | states |
|---|---|---|
| CurlEasy.StepKeepsInStep | src/curl_prelude.rs:262-687 | Every setopt or reset call, accepted or refused, keeps the mirrors equal to the bridge's flags, at most one write mode selected and every registered callable the rooted one |
| CurlEasy.RunKeepsInStep | src/curl_prelude.rs:1262-1284 | The same after any run of calls |
| CurlTrace.RejectionIsByValue | src/curl_prelude.rs:456-461 | Whether a call is accepted depends on its option and value only, never on the handle's state |
| CurlTrace.WriteIsLastSet | src/curl_prelude.rs:519-526 | After any calls the body goes where the last accepted FILE, RETURNTRANSFER, WRITEFUNCTION or reset sends it, null and false meaning stdout |
| CurlTrace.BodyIsReturnedExactlyWhenCaptured | src/curl_prelude.rs:313-322 | The return-transfer mirror is set exactly when the write channel captures |
| CurlTrace.ReturnTransferDecides | src/curl_prelude.rs:313-322 | After any calls whose last write-touching one is RETURNTRANSFER, the body goes to stdout exactly for null, false, 0, 0.0, the strings "" and "0" and an empty array, and is returned for every other value |
| CurlTrace.SafeUploadDecides | src/curl_prelude.rs:332-339 | SAFE_UPLOAD is accepted on every other value than these and refused on them |
| CurlTrace.StreamModeDecides | src/curl_prelude.rs:723-741 | A stream is refused as FILE, WRITEHEADER or STDERR exactly when its mode starts with `r` and has no `+`, and never as INFILE |
| CurlTrace.HeaderIsLastSet | src/curl_prelude.rs:528-530 | Headers go where the last accepted WRITEHEADER or HEADERFUNCTION sends them, null meaning discard |
| CurlTrace.ReadIsFixedPrecedence | src/curl_prelude.rs:532-538 | A read callback outranks the INFILE stream in either order, and clearing it falls back to the stream |
| CurlTrace.ProgressIsFixedPrecedence | crates/elephc-curl/src/callbacks.rs:454-499 | A transfer-info callback outranks a progress callback in either order |
| CurlTrace.DebugIsShadowed | src/curl_prelude.rs:540-545 | Where verbose output goes is a function of the calls since the last reset, rejected ones included |
| CurlTrace.ShadowRuleHoldsExactly | src/curl_prelude.rs:401-407 | The documented shadow rule holds exactly unless every touch was rejected while a stream was set, and a stream is set now |
| CurlTrace.AcceptedCallsObeyShadowRule | src/curl_prelude.rs:401-407 | Over accepted calls STDERR is live exactly when DEBUGFUNCTION was never touched since the last reset and a stream is set |
| CurlTrace.RejectedCallbackLeavesStderrLive | src/curl_prelude.rs:401-461 | A stream followed by a rejected callback breaks the rule |
| CurlTrace.ResetForgets | src/curl_prelude.rs:1262-1284 | What follows a reset does not depend on what preceded it |
| CurlTrace.PrivateIsLastSet | src/curl_prelude.rs:328-331 | The private value is the last one stored, false on a fresh or reset handle |
| CurlCopy.CopyIsSimilar | src/curl_prelude.rs:1298-1356 | A copy equals its original in everything but the registration of an inactive write callable |
| CurlCopy.StepKeepsSimilar | src/curl_prelude.rs:1322-1329 | One common call keeps two similar handles similar and answers both alike |
| CurlCopy.CopyIsBisimilar | src/curl_prelude.rs:1298-1356 | Copied at any point, original and copy show the same effects and answers under all common calls |
| CurlCopy.CopyContinuesTheTrace | src/curl_prelude.rs:1298-1356 | The copy's write and debug channels follow from the calls before the copy and those on the copy, run together |
| CurlCopy.UnguardedCopyDiffers | src/curl_prelude.rs:1330-1354 | Registering a rooted but inactive write callable on the copy would change where the body goes |
| CurlHandles.EasyEntry.ApplyCallback | crates/elephc-curl/src/callbacks.rs:634-650 | Setting a slot changes that slot, and slot 0 selects the user write mode and clears capture |
| CurlHandles.CurlHandle.Install | src/curl_prelude.rs:753-767 | Installing or clearing an internal closure keeps every registered descriptor rooted at its slot with this handle as back-pointer |
| CurlHandles.CurlHandle.SyncRead | src/curl_prelude.rs:781-813 | The read slot holds the dispatcher exactly while a callback or a stream is set |
| CurlHandles.CurlHandle.SetCallbackOption | src/curl_prelude.rs:375-506 | Refines the value machine on callback options and keeps the handle valid |
| CurlHandles.CurlHandle.SetStreamOption | src/curl_prelude.rs:546-665 | Refines the value machine on the four stream options and keeps the handle valid |
| CurlHandles.CurlHandle.SetOpt | src/curl_prelude.rs:262-687 | Refines the value machine on every modelled option and keeps the handle valid |
| CurlHandles.CurlHandle.Reset | src/curl_prelude.rs:1262-1284 | The object, its roots and the bridge entry become those of a fresh handle |
| CurlHandles.CurlHandle.Adopt | src/curl_prelude.rs:1330-1354 | One copied callable is rooted, and registered unless it is an inactive write callable |
| CurlHandles.CurlHandle.Copy | src/curl_prelude.rs:1298-1356 | The copy consists of new objects only, its callbacks carry the copy as back-pointer, and the original is untouched |
| CurlHandles.RunOn | src/curl_prelude.rs:262-687 | Any run of calls on one handle follows the value machine and leaves every other handle untouched |
| CurlHandles.CopyAndRun | src/curl_prelude.rs:1298-1356 | Runs on a copy and on its original follow the value machine independently of each other |
| CurlMulti.ListingIsAddOrder | src/curl_prelude.rs:1472-1494 | After any answered adds and removes the list holds exactly the handles still attached, in add order |
| CurlMulti.ListingIsDistinct | src/curl_prelude.rs:1459-1503 | No id is listed twice |
| CurlMulti.LookupIsTheObjectAdded | src/curl_prelude.rs:1495-1503 | A lookup answers the very object whose accepted add was never undone |
| CurlMulti.CurlMultiHandle.Detach | src/curl_prelude.rs:1477-1494 | Both lists lose exactly the pair of that id and stay aligned |
| CurlMulti.CurlMultiHandle.Lookup | src/curl_prelude.rs:1495-1503 | Null exactly when the id is not listed, else the listed object |
| CurlMulti.CurlMultiHandle.AddHandle | src/curl_prelude.rs:1529-1543 | The lists, the bridge and the call history agree after an accepted or refused add |
| CurlMulti.CurlMultiHandle.RemoveHandle | src/curl_prelude.rs:1544-1557 | The same after an accepted or refused remove |
| CurlMulti.CurlMultiHandle.InfoRead | src/curl_prelude.rs:1608-1622 | A completion message carries the attached object of its id, and no handle otherwise |
| CurlMulti.UnpackInvertsPack | src/curl_prelude.rs:1568-1577 | Unpacking gives back the running count and the signed code for all 32-bit values |
| CurlList.EncodeItems | src/curl_prelude.rs:273-287 | The blob is each item followed by a NUL, and an array, object or null item is an error |
| CurlList.RoundTripExactly | src/curl_prelude.rs:1236-1253 | Decoding an encoded list gives it back exactly when no item holds a NUL |
| BenchRecords.OrderIsTotal | benchmark/history.py:198-200 | The order of samples is a strict total order on its tuples |
| BenchRecords.OverlayKeepsIdentity | benchmark/history.py:240-251 | Overlaying a record keeps its key and measurement and never lowers its order |
| BenchRecords.OverlayMeans | benchmark/history.py:240-251 | A replacement takes every field the new record spells out, null included, and keeps any other |
| BenchRecords.CarriedOrder | benchmark/history.py:240-251 | An overlay compares as the record it came from exactly when that record leaves out no number the older one had |
| BenchRecords.SameKeyExactly | benchmark/history.py:190-195 | Two records are samples of one point exactly when they agree on platform and day, or on platform, run, attempt and timestamp where every run is kept |
| BenchRecords.OlderExactly | benchmark/history.py:198-200 | A record is older exactly when its instant, attempt, artifact number or run is the first of these to be smaller, a missing number counting as zero |
| BenchValidation.ValidateCases | benchmark/history.py:26-67 | The loops with their set of names accept exactly the valid case lists |
| BenchValidation.ValidateRecord | benchmark/history.py:95-122 | The checks in their order accept exactly the valid records |
| BenchBackfill.GapIsFilledFromFirstOffer | benchmark/history.py:203-237 | A gap gets a reference exactly when a compatible measurement at or after it exists, and it is the first in series order |
| BenchBackfill.GapIsFilledExactly | benchmark/history.py:203-237 | A gap is filled exactly when some case of its name measured the variant no earlier, with each of the five environment keys unknown in the gap's record or equal and the fixture equal when known, and then quotes the first such case's median, commit, run, fixture and time |
| BenchBackfill.NothingElseIsFilled | benchmark/history.py:203-237 | Every other variant is left as it was |
| BenchBackfill.MeasurementsAreKept | benchmark/history.py:203-237 | Medians, samples and existing references are never changed |
| BenchBackfill.SourcesSurvive | benchmark/history.py:203-237 | Filling references creates and removes no source, so a reference is never a source |
| BenchBackfill.BackfillIsIdempotent | benchmark/history.py:203-237 | A filled series is a fixed point |
| BenchBackfill.FillKeepsValid | benchmark/history.py:95-122 | A filled record still passes validation |
| BenchBackfill.BackfillPhp | benchmark/history.py:203-237 | The table-building loops compute the specified filling |
| BenchMerge.Merge | benchmark/history.py:240-251 | The dictionary loop, sort and backfill compute the specified history, and invalid records are refused |
| BenchMerge.MergeCovers | benchmark/history.py:240-251 | Every sample seen is matched by one of its key at least as new |
| BenchMerge.MergeKeys | benchmark/history.py:240-251 | The keys of a merge are exactly the keys seen |
| BenchMerge.MergeKeepsTheNewestExactly | benchmark/history.py:240-251 | Every prefix of the records leaves each key's sample the newest seen exactly when no record sheds a number of the newest sample before it |
| BenchMerge.MergeKeepsTheNewest | benchmark/history.py:240-251 | When no record sheds a number, each merged sample is the newest record seen under its key |
| BenchMerge.ExplicitShedsNothing | benchmark/history.py:240-251 | Records that spell both numbers out shed nothing, whatever the history holds |
| BenchMerge.ANewerRecordCanBeHidden | benchmark/history.py:240-251 | Three valid records merged into an empty native history, of which the newest is turned away |
| BenchArrival.ShedsInSomeOrderExactly | benchmark/history.py:240-251 | Some arrival order makes a record shed a number exactly when one leaves out a number of an older record of its key that the history does not outdate |
| BenchArrival.AlwaysKeepsTheNewestExactly | benchmark/history.py:240-251 | Under that same condition, and only then, every arrival order keeps the newest samples after every record |
| BenchArrival.WinnersIgnoreArrivalOrder | benchmark/history.py:240-251 | When no record leaves out such a number and samples of one key have distinct orders, winners and measurements do not depend on arrival order or repetition |
| BenchArrival.ArrivalOrderCanDecide | benchmark/history.py:240-251 | Three valid records of distinct orders whose winner differs between one arrival order and its reverse |
| BenchMerge.MergeAbsorbsCovered | benchmark/history.py:240-251 | Merging records that are already covered changes nothing |
| BenchMerge.MergeIsIdempotent | benchmark/history.py:240-251 | Merging the same records again changes nothing |
| BenchMerge.MergeKeepsLoadable | benchmark/history.py:76-92 | A merged history passes the loader's checks |
| BenchFetch.CachedImport | benchmark/fetch.py:73-90 | True exactly when every suite of the entry still holds its sample's key at least as new, or the artifact itself |
| BenchFetch.Store.Refresh | benchmark/fetch.py:93-127 | All inputs are read before anything is written, and the new state is the specified one |
| BenchFetch.SampledEntriesStayCached | benchmark/fetch.py:73-90 | An entry that carries samples stays cached under every history that covers the present one |
| BenchFetch.ImportedIsCached | benchmark/fetch.py:93-127 | What a refresh imports is cached right after it |
| BenchFetch.IncomingExactly | benchmark/fetch.py:93-127 | A record comes in for a suite exactly when it carries the metadata of a pending artifact and the measurements downloaded for it |
| BenchFetch.ManifestExactly | benchmark/fetch.py:93-127 | After a refresh the manifest lists exactly the available artifacts that were listed before or downloaded now |
| BenchFetch.HoldsArtifactExactly | benchmark/fetch.py:79-82 | A merged history holds an artifact that is not being imported exactly when a saved record of it is not outdated by an incoming one |
| BenchFetch.PendingAgainExactlyWhenOrphaned | benchmark/fetch.py:73-90 | After a refresh a listed artifact is pending exactly when it was cached before and, for some suite its entry has no sample for, every saved record of it is outdated by an incoming one |
| BenchFetch.RefreshIsAFixedPoint | benchmark/fetch.py:93-127 | A second refresh on the same artifacts has nothing to do exactly when no cached one of them is orphaned by the first |
| BenchFetch.SupersededOldEntryIsPendingAgain | benchmark/fetch.py:79-82 | A concrete store whose old-style entry is cached, is superseded by the refresh and is pending right after |
| BenchPublish.NextKeepsInv | benchmark/publish.py:48-79 | Every fetch, regeneration, push, broken push or unrelated commit keeps the protocol invariant |
| BenchPublish.MainNeverLosesASample | benchmark/publish.py:48-79 | Over any interleaving no key on main disappears and no sample gets older |
| BenchPublish.DoneMeansCovered | benchmark/publish.py:48-79 | A publisher that returns has had every sample of its own covered on main |
| BenchPublish.GivingUpMeansOthersProgressed | benchmark/publish.py:48-79 | A publisher gives up only after foreign commits and its own broken pushes together number its attempts |
| BenchPublish.AttemptsAreCounted | benchmark/publish.py:48-79 | In any run a publisher is in the attempt after as many failed pushes, and gives up exactly when as many failed as it has attempts |
| BenchPublish.CombinedHistory | benchmark/publish.py:48-79 | A re-merged history is the merge over what main had or an empty one, and keeps main's provenance before the publisher's |
| BenchPublish.CombinedFiles | benchmark/publish.py:48-79 | A re-merge holds the files of either side, the publisher's imports and statistics over those of main, and the report of just these histories |
| BenchPublish.CombineIsIdempotent | benchmark/publish.py:48-79 | Regenerating twice from one checkout changes nothing |
| BenchPublish.StaleTreeLosesKeys | benchmark/publish.py:48-79 | Pushing a tree built from a stale checkout would drop a key of the other publisher |
| BenchPublish.PublishOnce | benchmark/publish.py:48-79 | One attempt against the shared remote keeps its log growing and covers the publisher's samples when it ends |
| BenchPublish.Publish | benchmark/publish.py:29-79 | The retry loop keeps the remote's history covered, whatever others push between its attempts and whichever pushes do not get through |
| TypeSpelling.LexDescribe | src/generics.rs:670-716 | The lexer finds exactly the tokens of a printed type, reserved words inside class names turned into identifiers |
| TypeSpelling.LabelsExactly | src/lexer/literals/identifiers.rs:18-26 | The identifiers are exactly the labels of PHP: a letter, underscore or non-ASCII character, then these and digits |
| TypeSpelling.NameClassifies | src/lexer/qualified_names.rs:32-71 | Every word of a class name of several segments, reserved or not, becomes an identifier |
| TypeSpelling.NotReserved | src/lexer/literals/identifiers.rs:70-200 | No reserved word has the shape of a word the printer uses |
| TypeReading.ReadAtomic | src/parser/stmt/params.rs:490-662 | A printed type that is clean before what follows is read back, with one credited bracket when its last one was half of a right shift |
| TypeReading.ReadNested | src/parser/stmt/params.rs:362-421 | The same for unions, intersections and nullable types inside a list |
| TypeReading.ReadType | src/parser/stmt/params.rs:341-360 | On its own a clean printed type is read back, unions in the parser's form, with no bracket over |
| TypeReading.ReadArguments | src/parser/stmt/params.rs:135-164 | A printed argument list is read back to its closing bracket |
| TypeReading.ReadCallable | src/parser/stmt/params.rs:840-878 | A printed callable signature is read back |
| TypeReading.CloseAfter | src/parser/stmt/params.rs:105-133 | Closing a list reads one more bracket of the trail, from the credit, a bracket or half a right shift |
| TypeMisreading.MisreadAtomic | src/parser/stmt/params.rs:490-662 | A type that is not clean is never read back as itself |
| TypeMisreading.MisreadNested | src/parser/stmt/params.rs:362-421 | Nor is a union, an intersection or a nullable type, or one that a separator follows behind a credited bracket |
| TypeMisreading.NormalizeDiffers | src/parser/stmt/params.rs:443-467 | Union normalisation cannot hide a member that differs |
| TypeMisreading.DecodeInvertsWellFormed | src/generics.rs:637-649 | For every type held as its spelling shows it, decoding the printed name gives the parser's form of it exactly when it is clean |
| TypeCanonical.CanonicalIsWf | src/name_resolver/mod.rs:173-180 | The canonical form of a resolved type has its spelling, names held as their text shows them and instantiated classes opened |
| TypeCanonical.ResolutionIsCanonical | src/name_resolver/names.rs:141-170 | A class name has one canonical form however it was resolved |
| TypeCanonical.InstantiationIsCanonical | src/generics/classes.rs:426-434 | Replacing a nested instantiation by its one-part bracketed name keeps the canonical form |
| TypeCanonical.DecodeInvertsExactly | src/generics.rs:637-649 | For every resolved type, decoding its printed name gives its canonical form back exactly when that form is clean |
| TypeCanonical.InstantiatedTypeInvertsExactly | src/generics.rs:613-635 | An instantiated class name denotes its own canonical arguments exactly when they are clean |
| TypeCanonical.NestedArrayBeforeCommaIsMisread | src/parser/stmt/params.rs:135-164 | A nested array before another argument is misread for every class |
| TypeCanonical.ReturnedArrayIsMisread | src/parser/stmt/params.rs:840-878 | A callable returning an array, as last argument, is misread for every class |
| TypeCanonical.VoidCallableIsMisread | src/generics.rs:670-716 | A callable that returns nothing is misread for every class and parameter list |
| TypeCanonical.ClassNamedLikeATypeIsMisread | src/parser/stmt/params.rs:490-662 | A global class named like a type word is misread for every template |
| TypeCanonical.NullableHasTwoNames | src/generics.rs:248-280 | A nullable type and its union with null decode alike but name two instantiations |
| TypeCanonical.DescribeIsInjective | src/generics.rs:670-716 | Types held as their spelling shows them are equal when spelled alike |
| TypeCanonical.NamesAgreeExactly | src/generics.rs:803-810 | Instantiations of one template have one name exactly when their arguments have one canonical form |
| GenericTerms.Unify | crates/elephc-generics/src/lib.rs:97-115 | The recursive walk binds exactly the demands of the declaration, in order, stopping at the first conflict |
| GenericTerms.AddAllDecides | crates/elephc-generics/src/lib.rs:97-115 | Unification succeeds exactly on consistent demands, and then its bindings answer them and nothing else |
| GenericTerms.AddAllIgnoresOrder | crates/elephc-generics/src/lib.rs:97-115 | Neither success nor any binding depends on the order of the demands |
| GenericTerms.InstanceMeetsDemands | crates/elephc-generics/src/lib.rs:97-115 | Whatever substitution makes the actual term an instance, with or without nullable wrappers of its own, meets every demand |
| GenericTerms.MetDemandsMakeAnInstance | crates/elephc-generics/src/lib.rs:97-115 | A term of the declared shape whose demands are met is an instance |
| GenericTerms.InstanceIsSubstitution | crates/elephc-generics/src/lib.rs:54-64 | Substituting into the declaration without its own nullable wrappers gives the actual term but for letter case and its wrappers at those places, and the term itself exactly when it has none there and its classes are spelled as declared |
| GenericTerms.Finish | crates/elephc-generics/src/lib.rs:118-130 | Succeeds exactly when every parameter has an inferred or default argument within the depth limit, and else names the first parameter without an argument or beyond the limit |
| GenericTerms.TooDeepExactly | crates/elephc-generics/src/lib.rs:67-74 | A term exceeds the depth limit exactly when nine terms are nested in it, itself the outermost |
| GenericTerms.DepthIsTheLongestNesting | crates/elephc-generics/src/lib.rs:67-74 | The depth is the length of a longest nesting of components |
| GenericTerms.SameHeadExactly | crates/elephc-generics/src/lib.rs:107-111 | Heads agree exactly when they are alike character by character, ASCII letters in either case |
| GenericTerms.FinishIsUnique | crates/elephc-generics/src/lib.rs:118-130 | There is at most one finished list |
| GenericTerms.FailureIsUnique | crates/elephc-generics/src/lib.rs:118-130 | At most one parameter and error can fail, and then no finished list exists |
| GenericTerms.FinishedIsClosed | crates/elephc-generics/src/lib.rs:118-130 | When defaults look back only, no finished argument names a parameter |
| GenericSharing.SharedSpelling | src/generics/shared.rs:15-31 | A type prints alike in the compiler's and the shared vocabulary |
| GenericSharing.FromSharedBack | src/generics/shared.rs:34-66 | A proper shared term survives conversion to the compiler and back |
| GenericInference.UnifyTypeExprs | src/generics.rs:588-600 | Unifying through the shared vocabulary adds exactly its demands to the bindings |
| GenericInference.UnifyType | src/generics.rs:503-581 | The walk against a PHP type adds exactly the demands of the declared type |
| GenericInference.BindFromClosure | src/generics.rs:473-500 | A closure literal binds from its hinted parameters pairwise, then from its return type |
| GenericInference.Infer | src/generics.rs:340-362 | Closures, argument types, then defaults: the result is the finished list of the call's demands, or the conflict they end in, or the error of the first parameter that cannot be finished |
| GenericInference.SpelledIsKept | src/generics.rs:248-280 | A spelled type survives the shared vocabulary unchanged |
| GenericResolution.UnspellableExactly | src/generics.rs:248-280 | A type has no spelling exactly when it is, or holds, one of the six families without one |
| GenericResolution.SpellingResolvesBack | src/types/checker/type_compat/pointers.rs:150-281 | Resolving the spelling of a type the checker holds gives that type back |
| GenericResolution.SpellingResolvesExactly | src/types/checker/type_compat/pointers.rs:150-281 | A spelled type resolves back to itself exactly when it is a type the checker holds by its name |
| GenericResolution.PlainParameterIsTheArgument | src/generics.rs:333-362 | What a call binds for a parameter declared plainly resolves to the type of the argument passed |
| GenericResolution.ObjectHasNoSpelling | src/types/checker/type_compat/pointers.rs:150-281 | An argument of type `object` is spelled as a class that resolves to nothing |
| GenericInference.InferenceIsComplete | src/generics.rs:309-362 | If a substitution makes every declared type resolve to its argument's type, and every signature match its closure's hints, inference reports no conflict and binds a subset of it |
| GenericInference.ClosurePositionIsSound | src/generics.rs:473-500 | If inference succeeds, a closure hinted in the declared shape matches the bindings, parameter by parameter and at its return |
| GenericInference.InferenceIsSound | src/generics.rs:309-362 | If inference succeeds on a call of the declared shape, closures at signatures included, its bindings match every typed and every closure position |
| GenericInference.InferenceDecidesMatching | src/generics.rs:309-362 | On calls of the declared shape, closures at signatures included, inference reports no conflict exactly when some substitution matches every position |
| GenericClosures.ClosureAnswersTheSignature | src/generics.rs:333-362 | Mapping integers with a closure that returns a string binds both parameters exactly when the closure takes an integer, and is else the conflict that no substitution matches |
| GenericClosures.UnreadPositionCanMismatch | src/generics.rs:503-581 | A call that passes an integer and a nullable string for one parameter, plain and inside a union, succeeds unmatched |
| GenericFit.InferenceIgnoresPositionOrder | src/generics.rs:340-362 | Rearranging the positions of a call changes neither success nor any binding |
| GenericFit.InferredTypesFit | src/generics.rs:503-581 | With the inferred arguments the declared type, its nullable wrappers aside, prints as the argument's type, provided each class it opens is spelled as declared and named by the print of what it decodes to, and no null, signature or intersection is met |
| GenericFit.PairCallDecides | src/generics.rs:503-581 | A value and a class instance are inferred together exactly when the instance's decoded argument is the value's own spelling |
| GenericFit.TwoSpellingsAgreeExactly | src/generics.rs:503-581 | A call meeting a type and an instance of that type succeeds exactly when the type has one spelling, and is else a conflict |
| GenericFit.SameClassIsRejected | src/generics.rs:503-581 | A call that meets one instantiated class both ways is rejected as a conflict |
| GenericFit.NullableIsRejected | src/generics.rs:503-581 | So is a nullable integer, with no class involved |
| GenericFit.UnmentionedArgumentsExactly | src/generics.rs:354-357 | Class arguments that mention no parameter demand nothing of any actual ones exactly when none names a parameter as pointer target |
| GenericFit.SkippingLosesNothing | src/generics.rs:354-357 | Skipping a position that mentions no parameter, and whose classes name none as a pointer target, loses no binding |
| GenericFit.SkippingLosesNothingExactly | src/generics.rs:354-357 | Where the declared classes are read back as printed, a skipped position loses nothing whatever is passed exactly when its classes name no parameter as a pointer target |
| GenericFit.PointerTargetIsSkipped | src/generics.rs:354-357 | A class over a pointer to the parameter is skipped, and the binding its argument carries is lost |
| ArgumentPlacement.ArgumentsInDeclarationOrder | src/generics.rs:382-417 | The slot and cursor loop computes the specified placement |
| ArgumentPlacement.PositionalTakesTheNextSlot | src/generics.rs:398-412 | A positional takes the slot after the largest one any earlier argument holds, the first slot if there is none, and is surplus past the parameters |
| ArgumentPlacement.NamedTakesItsSlot | src/generics.rs:398-404 | A named argument takes the slot of the first parameter of its name |
| ArgumentPlacement.PositionalsAreOrdered | src/generics.rs:382-417 | On a call of positionals only, slot k holds argument k and the rest is surplus in order |
| ArgumentPlacement.MixedCallExample | src/generics.rs:382-417 | For parameters a, b and c the call `f(1, c: 3, x: 9, 4)` gives 1, nothing, 3, then the surplus 4 and 9 |
| ArgumentPlacement.SlotsPastTheCursorAreEmpty | src/generics.rs:389-417 | Every slot at or past the cursor is empty |
| ArgumentPlacement.PositionalNeverOverwrites | src/generics.rs:389-417 | A positional argument never takes a slot an earlier argument targets |
| ArgumentPlacement.SlotHoldsTheLastArgument | src/generics.rs:389-417 | A slot holds the last argument targeting it, and nothing when there is none |
| ArgumentPlacement.EveryArgumentExactlyOnce | src/generics.rs:382-417 | Without two arguments at one slot the placement holds every argument exactly once |
| ArgumentPlacement.NothingIsLostExactlyWithoutClash | src/generics.rs:382-417 | No argument is lost exactly when no two target one slot |
| ArgumentPlacement.SurplusKeepsSourceOrder | src/generics.rs:405-417 | Surplus positionals, and surplus named values, keep their source order |
| GraphPaths.DownwardIsLongest | src/call_graph.rs:1351-1357 | A strictly downward layering witnessed by paths measures longest paths from sources |
| GraphPaths.SourceAbove | src/call_graph.rs:1356-1357 | In an acyclic graph every node lies below a source |
| GraphPaths.RelaxationSurvives | src/call_graph.rs:1355 | A later visit that raises layers leaves relaxed what was relaxed before |
| CallGraphLayers.Dfs | src/call_graph.rs:1355 | The visit terminates on every graph; on acyclic ones it changes and relaxes exactly what lies below |
| CallGraphLayers.Layering | src/call_graph.rs:1352-1357 | On acyclic graphs each layer is the longest path from a source; on any graph each layer is the length of some path |
| CallGraphLayout.SortRow | src/call_graph.rs:1363-1366 | A sweep puts a row in barycenter order and keeps it a permutation, with positions updated |
| CallGraphLayout.Sweep | src/call_graph.rs:1363-1367 | Four rounds of a downward sweep by callers and an upward one by callees, each reordering one row after another by the positions left by the last; every row stays a permutation of itself |
| CallGraphLayout.RoundsOrder | src/call_graph.rs:1363-1367 | After one round or more, where every callee lies in a later row, two nodes of a row that both call something stand in the order of the mean places of what they call |
| CallGraphLayout.MeanTimesSize | src/call_graph.rs:1362 | The barycenter is the sum of the neighbours' positions by their number |
| CallGraphLayout.SumIsAdditive | src/call_graph.rs:1362 | That sum is the position of a single neighbour and adds up over any two groups |
| StableSort.SortIsStable | src/call_graph.rs:1363-1366 | Elements that compare equal keep their order |
| CallGraphLayout.BoxesNeverOverlap | src/call_graph.rs:1368-1370 | Any two node boxes are at least the gap between columns apart, or at least the gap between rows |
| CallGraphLayout.RowsAreCentered | src/call_graph.rs:1368-1370 | Neighbours and rows are spaced evenly, and each row has equal room on both sides of the widest |
| CallGraphLayout.BoxesStayInside | src/call_graph.rs:1368-1370 | Every box lies within the width of the widest row, at the height of its layer |
| CallGraphLayout.ComputeLayout | src/call_graph.rs:1351-1371 | The whole layout: separate boxes on every graph; on acyclic graphs longest-path layers, downward edges and rows in the order of their callees' mean places |
| TraceWaterfall.Walk | src/call_graph.rs:255-315 | The explicit-stack walk emits the recursive preorder, cut off only by its guard |
| TraceWaterfall.DepthCountsAncestors | src/call_graph.rs:255-340 | Each emitted depth is the number of the span's collected ancestors |
| TraceWaterfall.GroundedIsEmitted | src/call_graph.rs:255-340 | Every span that hangs from a root is in the preorder |
| TraceWaterfall.NoSpanTwice | src/call_graph.rs:255-340 | No span has two rows, whether or not the guard cuts the chart off |
| TraceWaterfall.SiblingsStayInOrder | src/call_graph.rs:255-315 | Spans of one caller, and the roots, have their rows in the order they were collected |
| TraceWaterfall.FlushLeftExactly | src/call_graph.rs:255-270 | A row is flush left exactly when its span names no caller or one that was not collected |
| TraceWaterfall.IndentationShowsTheCaller | src/call_graph.rs:255-340 | Among the emitted rows the nearest one above of smaller depth is the span's caller |
| TraceWaterfall.GroundedExactlyWithoutCycle | src/call_graph.rs:255-340 | Every span hangs from a root exactly when none is its own caller, however far up |
| TraceWaterfall.WholeTraceIsShown | src/call_graph.rs:255-340 | The walk has as many rows as spans exactly when no span is its own caller, and the guard cuts none of them off a short trace |
| TraceBars.BarsAreToScale | src/call_graph.rs:233-286 | On a dated trace offset and width are the percentages of its length that pass before the span and during it |
| TraceBars.UndatedBarsCompare | src/call_graph.rs:231-288 | Otherwise every bar is flush left, as wide as its share of the slowest span |
| TraceBars.ShareOf | src/call_graph.rs:279-288 | A percentage of a whole, taken of it, is a hundred times the part |
| TraceBars.BarsStayOnTheAxis | src/call_graph.rs:236-330 | Every bar, as computed and as drawn, lies within 0 and 100, drawn at most 98 in and at least 2 wide |
| TraceBars.OffsetsFollowStarts | src/call_graph.rs:278-286 | On a dated trace bars start in the order their spans did |
| BridgeSources.AnyFileNewer | src/bridge_sources.rs:66-78 | True exactly when a file below the directory, outside every target directory, is newer |
| BridgeSources.AddDependencies | src/bridge_sources.rs:41-55 | Pushes the paths of normal and build dependencies, workspace-inherited ones resolved at the workspace |
| BridgeSources.DependsOnExactly | src/bridge_sources.rs:41-55 | One directory depends on another exactly through an existing path of a normal, build or target-specific dependency: an own path lies below the directory, an inherited one below the workspace of the entry of its name, an absolute one at itself |
| BridgeSources.VisitProgress | src/bridge_sources.rs:25-37 | Visiting a directory keeps what the worklist knows |
| BridgeSources.LocalInputsNewerThan | src/bridge_sources.rs:18-39 | Terminates on dependency cycles, and answers true exactly when a configuration file or a reachable directory is newer |
| BridgeSources.StaleExactly | src/bridge_sources.rs:18-78 | The archive is stale exactly when a configuration file, or a file outside target directories below some directory on a route of dependencies from the crate's own, is written after it |
| DebugInfo.InjectLine | src/debug_info.rs:55-92 | One line is copied and its marker decides what is injected behind it |
| DebugInfo.InjectLineDirectives | src/debug_info.rs:46-97 | The loop computes the specified transformation |
| DebugInfo.DeletingInjectedLinesRestores | src/debug_info.rs:46-97 | Deleting the injected lines gives the assembly back in order |
| DebugInfo.LabelsAreNumbered | src/debug_info.rs:79-92 | End labels are numbered from zero, each defined once and carried by the record of that number |
| DebugInfo.LabelsFollowClosings | src/debug_info.rs:79-92 | A label follows exactly the lines that close an open region |
| DebugInfo.RecordsNameTheirRegions | src/debug_info.rs:79-92 | The record written there names the region opened last and not closed since |
| DebugInfo.PositionsFollowTheirMarkers | src/debug_info.rs:58-65 | A source position follows exactly the line that carries it |
| DebugInfo.PositionsAreTheMarkersInOrder | src/debug_info.rs:58-65 | The injected positions are those the lines carry, in order and each behind its own line |
| DebugMarkers.SourceMarkerIsRead | src/codegen/block_emit.rs:1466-1489 | The position the code generator writes for an instruction is the position read, whatever extent, operation and origin follow it |
| DebugMarkers.NumbersExactly | src/debug_info.rs:247-249 | A value counts as a number exactly when it is a decimal of the word size, zeros and a plus sign in front allowed |
| DebugMarkers.OpenMarkerIsReadExactly | src/codegen/block_emit.rs:1494-1500 | The region written for a function is the region read exactly when its name holds no blank and its symbol is one operand |
| DebugMarkers.RegionNameIsCut | src/debug_info.rs:252-256 | The name of a region read is the written name up to its first blank |
| DebugMarkers.SyntheticMarkerIsSilent | src/debug_info.rs:66-72 | The marker of a compiler-made body opens no region |
| DebugMarkers.CloseMarkerIsRead | src/codegen/block_emit.rs:1504-1506 | The marker written at a function's end closes a region |
| DebugMarkers.PlainLineIsSilent | src/debug_info.rs:55-92 | A line without the marker sign means nothing |
| DebugMarkers.FunctionIsRecorded | src/debug_info.rs:55-92 | A function written between its markers is recorded under its name and symbol |
| DebugInfo.EmitSubprograms | src/debug_info.rs:197-207 | One record a subprogram, in order, whose name literal the assembler decodes to the name's UTF-8 bytes |
| DebugInfo.EncodingIsExact | src/debug_info.rs:212-227 | Those bytes spell exactly the characters of the name |
| DebugInfo.NamesKeepTheirBytes | src/debug_info.rs:212-227 | Different names have different bytes |
| DebugInfo.UnescapeInvertsEscape | src/codegen_support/runtime/data/instanceof.rs:105-118 | The assembler decodes an escaped string to the original bytes |
| DebugInfo.LiteralClosesAtItsQuote | src/debug_info.rs:212-227 | No byte string ends its literal before the quote written after it |
| SourceIdentity.HashBytes | build.rs:53-59 | The loop computes the specified hash |
| SourceIdentity.HashOfFoo | build.rs:53-59 | The hash of "foo" is the one published for 64-bit FNV-1a |
| SourceIdentity.HashOfConcatenation | build.rs:53-59 | Hashing distributes over concatenation |
| SourceIdentity.HashIsInjectiveInState | build.rs:53-59 | For fixed bytes the hash is injective in the 64-bit state |
| SourceIdentity.OneByteAlwaysShows | build.rs:53-59 | Changing exactly one byte of the stream always changes the hash |
| SourceIdentity.ReplacedByteShows | build.rs:53-59 | Putting another byte anywhere in the stream changes the hash |
| SourceIdentity.HashRustSources | build.rs:26-51 | The recursive walk hashes the specified stream |
| SourceIdentity.ListingOrderIsIrrelevant | build.rs:26-31 | The stream does not depend on the order a directory is listed in |
| SourceIdentity.EditingOneByteChangesTheIdentity | build.rs:26-71 | Editing one byte of one Rust source always changes the build identity |
| SourceIdentity.TreeStreamIsSources | build.rs:26-51 | The hashed stream is the paths and contents of the tree's Rust sources, run together |
| SourceIdentity.SourcesExactly | build.rs:26-51 | A path and content are hashed exactly when following the path from directory to directory ends at a Rust file of that content |
| SourceIdentity.RustNameExactly | build.rs:32-44 | A Rust source is named by a non-empty stem and `.rs` |
| SourceIdentity.StreamsAgreeExactly | build.rs:45-50 | Trees whose sources agree in number and lengths have one stream exactly when their sources are equal |
| SourceTwins.TreeInOrder | build.rs:26-51 | The sources of a tree are Rust paths in the order of the walk, none of them a directory of another |
| SourceTwins.HasTwinExactly | build.rs:26-51 | A tree shares its stream with a tree of other sources exactly when it has two sources or more, or its only one can be cut at a shorter, a longer or a second path |
| SourceIdentity.DifferentTreesCanCollide | build.rs:45-50 | Two different one-file trees with one identity |

## Left out

- libcurl itself, multipart bodies, information queries, share handles and error texts: the bridge's answers are given as codes, and deregistration and installing a closure are taken to succeed.
- Object identity of PHP streams and values: a stream is an id with a mode, and closing one during a transfer is not modelled.
- The statistics of the benchmark runner, its Markdown rendering and its JSON, git and archive access: files are already parsed, `git push` is a compare-and-swap on the tip of `main` that may also break down, a failing fetch or checkout raises at once and is left out, and rendering is a function of the histories.
- Floating-point medians: medians are exact reals and the closeness test between a median and its samples is not modelled.
- Printing with preserved roots (`describe_written_type`), which serves unresolved source text rather than identities.
- TypeCanonical.DecodeInvertsExactly: resolved types leave out `self`, `static` and `parent`, which instantiation replaces or refuses, relative names (`namespace\Foo`), pointers to pointers, a class named exactly like a printed type word or like `enum` or a predefined constant alone, and nestings whose spelling is that of another type: a union, intersection or nullable type inside another of these, a callable before a union's last member, two nulls in a union, `null` or `false` after the first member of an intersection, and a bare top-level `null`.
- The parser's position in a larger program: only type syntax is modelled, and a type followed by a by-reference variable is not reached from a printed name.
- GenericInference.Infer: the texts of inference errors are not modelled, only their kind and parameter.
- GenericFit.InferredTypesFit: a class written in other letters or named by a union the parser respells, a null passed to a nullable type, a closure and an intersection match but print as less than declared, so they are excluded.
- GenericInference.InferenceIsComplete: subtypes, `closure`, `object` and bare `array` beside a parameter, and unions in another order than declared, count as no match.
- GenericResolution.SpellingResolvesBack: pointers and buffers, which no spelling is made of, are left out of the resolver, and class lookup is membership in the given sets of names.
- BenchValidation.ValidateRecord: fields are already of their declared types, and the closeness test between median and samples is not modelled.
- DebugMarkers.OpenMarkerIsReadExactly: names and symbols with `@` or `=` are left out, which no function name or symbol has.
- GenericSharing.FromSharedBack: stated for terms whose names have no leading root except before a C width, which is all the compiler converts.
- ArgumentPlacement.ArgumentsInDeclarationOrder: static spreads are taken as already expanded by the call planner.
- CallGraphLayout.SortRow: barycenters are exact reals, not floating-point numbers.
- TraceBars.BarsStayOnTheAxis: percentages are exact reals and 64-bit overflow of timestamps is not modelled; colours and the HTML around the bars are left out.
- BridgeSources.LocalInputsNewerThan: the file system is a fixed snapshot, and the TOML manifests are already parsed.
- DebugInfo.InjectLineDirectives: the constant section text and the platform differences are not modelled.
- SourceIdentity.HashRustSources: links and read errors, which stop the build, and names that are not UTF-8, which are hashed in replaced form, are not modelled.
- SourceTwins.HasTwinExactly: names may have any length, so a twin may need one that no file system takes.
- The command line, the other preludes, metadata snapshots and documentation blocks: flag plumbing and declaration tables that would add only easy members.
