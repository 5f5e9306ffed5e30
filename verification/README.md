# Verified model of the platform's one-shot change decisions

This project models, in Dafny, the parts of the configuration repository that
decide whether a reviewed, one-shot change may go ahead, and proves what those
decisions guarantee over all inputs, all runs and all interleavings with other
writers.  Check it with `dafny verify dfyconfig.toml`.

| modules | what they model |
|---|---|
| `Text`, `Patterns` | decimal numerals, string order, sorting, the fixed regular expressions |
| `JsonString`, `Json`, `JsonRoundTrip`, `JsonText`, `JsonGrammar` | the JSON printer and reader (sections 2 to 7 of RFC 8259), over code points and over documents, and the grammar they meet |
| `Dicts`, `CanonicalJson`, `InsertionOrder` | dictionaries, the duplicate-rejecting hook, canonical texts of typed values, insertion order and sorting |
| `ActivationPlan`, `FailoverPlan`, `FailoverVerdict`, `PlanStore` | review plans: context, digest, validation, approval, publication, whole runs |
| `RunnerConfig`, `RunnerAssumptions`, `RunnerPublication` | the runner concurrency edit as a lens, and its publication among foreign writers |
| `HostsFile`, `HostsGuard` | the managed block of the hosts file, the declaration table, the conflict check |
| `Filesystem`, `PinnedSource`, `Pinning`, `TrustIngress` | a changing filesystem behind descriptors, pinned sources, the trust transfer |
| `AlloyPaths`, `EventLog` | path separation and directory order, the JSON-lines operation log |

How the outside world appears: SHA-256, the TOML parser and the IP address
parser are function parameters.  No hash is assumed to be free of collisions:
results that rest on a digest say "equal, or these two texts collide".  Time,
random identifiers, failing calls, short reads and writes and foreign changes
are arbitrary inputs of each run.  Bytes are modelled as characters.  In
`Filesystem` every change of a node advances its change time; in
`RunnerPublication` every foreign rewrite does.  A quiet filesystem is one in
which no call fails and nothing changes during the operation; results that
mention it hold in addition to those that hold among arbitrary foreign changes.

Some promises hold only under a condition.  String encoding is injective among
strings without surrogate pairs, and an encoding has no second preimage at all
exactly for strings without pairs and without code points above U+FFFF
(`JsonString`).  A successful recheck guarantees the path as long as its
directories keep the change times of their own checks, and a rename behind such
a check escapes it (`PinnedSource`, `Pinning`).  Failover plan jobs accept
prefixes up to 106 characters although their test and recover jobs stop at 102,
so the plans of longer prefixes can be published and never tested
(`FailoverPlan`, `PlanStore`); activation jobs differ by four characters in the
same way (`ActivationPlan`).

## Model

| member | source | states |
|---|---|---|
| `JsonString.ScanBodyEscape` | plugins/module_utils/platform_openbao_activation_plan.py:23-24 | for every string of code points and whatever text follows, reading an escaped string literal gives the string back with surrogate pairs fused, and stops exactly after the closing quote |
| `JsonString.EscapeEqualIffFuseEqual` | plugins/module_utils/platform_openbao_activation_plan.py:23-24 | two strings have the same encoding if and only if they fuse to the same text |
| `JsonString.FuseIdentityIffNoPair` | plugins/module_utils/platform_openbao_activation_plan.py:23-24 | a string survives the round trip if and only if no high surrogate is directly followed by a low one |
| `JsonString.PairFreeInjective` | plugins/module_utils/platform_openbao_activation_plan.py:23-24 | every encoding has exactly one pair-free preimage: the fused string is one, and among pair-free strings encoding is injective |
| `JsonString.EncodingUnique` | plugins/module_utils/platform_openbao_activation_plan.py:23-24 | a string is the only preimage of its encoding, among all strings, if and only if it holds neither a surrogate pair nor a code point above U+FFFF |
| `JsonString.SurrogatePairCollides` | plugins/module_utils/platform_openbao_activation_plan.py:23-24 | concrete collision: U+1F600 and the surrogate pair spelling it are different Python strings with one encoding |
| `JsonString.ScanBodyExtends` | plugins/module_utils/platform_openbao_activation_plan.py:53 | appending text to the input never changes a string literal that was already read |
| `JsonRoundTrip.PrintRoundTrip` | plugins/module_utils/platform_openbao_activation_plan.py:23-24 | every document is read back from its printed text, leaving exactly the text that follows |
| `JsonRoundTrip.ParsePrint` | plugins/module_utils/platform_openbao_activation_plan.py:53 | a printed document with any trailing white space parses to that document |
| `JsonRoundTrip.PrintInjective` | plugins/module_utils/platform_openbao_activation_plan.py:23-24 | different documents print differently |
| `JsonRoundTrip.ValueExtends` | plugins/module_utils/platform_openbao_activation_plan.py:53 | a value that was read stays the value read when text is appended, unless a number ended at the very end of the input |
| `JsonRoundTrip.ProperPrefixRejected` | plugins/module_utils/platform_openbao_activation_plan.py:53 | no proper prefix of a printed object or array is a JSON document |
| `JsonRoundTrip.PrintPrintable` | plugins/module_utils/platform_openbao_activation_plan.py:23-24 | printed text is printable ASCII, so it holds no line feed |
| `JsonText.PrintExactly` | plugins/module_utils/platform_openbao_activation_plan.py:23-24 | the text of every document: fixed words, decimal integers, quoted strings, elements joined by a comma and members with a colon, with no white space anywhere |
| `JsonText.EscapeExactly` | plugins/module_utils/platform_openbao_activation_plan.py:23-24 | the escape of every code point: seven two-character escapes, printable ASCII as it is, otherwise a backslash, u and four small hexadecimal digits, twice above U+FFFF |
| `JsonGrammar.ParseExactly` | plugins/module_utils/platform_openbao_activation_plan.py:53 | the reader accepts exactly the texts of the grammar of RFC 8259, described by trees of tokens and white space, with exactly the values these denote (lone surrogates aside) |
| `JsonGrammar.TreeRead` | plugins/module_utils/platform_openbao_activation_plan.py:53 | every value of the grammar is read as what it denotes, up to text that does not continue a number |
| `JsonGrammar.TreeOf` | plugins/module_utils/platform_openbao_activation_plan.py:53 | everything that is read as a value is the text of such a tree |
| `JsonGrammar.BodyRead` | plugins/module_utils/platform_openbao_activation_plan.py:53 | every string literal, with raw characters, short escapes and escapes with digits in either case, is read as its code points with surrogate pairs fused |
| `JsonGrammar.NumberRead` | plugins/module_utils/platform_openbao_activation_plan.py:53 | every number, with sign, integer part, fraction and exponent, is read as an integer or as a float with its text |
| `Text.LessExactly` | plugins/module_utils/platform_openbao_activation_plan.py:24 | the order of keys and hosts, by indices: one text is a proper prefix of the other, or has the smaller code point at the first index where they differ |
| `Text.SortedExactly` | plugins/module_utils/platform_openbao_activation_plan.py:162 | sorting gives the elements of the set, each once, every one before all later ones in that order |
| `Patterns.HexExactly` | plugins/module_utils/platform_openbao_activation_plan.py:145 | the pattern of fixed-length hexadecimal text, with the sixteen digits listed |
| `Patterns.NameExactly` | plugins/module_utils/platform_openbao_activation_plan.py:115 | the pattern of names, with the allowed characters listed |
| `Patterns.PositiveExactly` | plugins/module_utils/platform_openbao_activation_plan.py:130-131 | the pattern of identifiers accepts exactly the decimal texts of positive numbers |
| `Patterns.PinnedImageExactly` | plugins/module_utils/platform_openbao_activation_plan.py:132 | the pattern of images accepts exactly a nonempty name without white space, @sha256: and 64 hexadecimal digits, with the white-space code points listed |
| `Dicts.PairsExact` | plugins/module_utils/platform_openbao_activation_plan.py:31-37 | filling a dictionary fails exactly on a repeated key; otherwise its entries are exactly the items |
| `Dicts.InsertionOrderIrrelevant` | plugins/module_utils/platform_openbao_activation_plan.py:31-37 | two orders of the same distinct items fill the same dictionary |
| `CanonicalJson.Pairs` | plugins/module_utils/platform_openbao_activation_plan.py:31-37 | the loop of `_pairs` succeeds if and only if the keys are distinct, and then holds every item |
| `CanonicalJson.DocRoundTrip` | plugins/module_utils/platform_openbao_activation_plan.py:31-37 | building dictionaries with the duplicate-rejecting hook undoes sorting keys and listing members, at every depth |
| `CanonicalJson.HookRejectsDuplicates` | plugins/module_utils/platform_openbao_activation_plan.py:31-53 | the hook rejects a document if and only if some object in it, at any depth, repeats a key |
| `CanonicalJson.LoadsCanonical` | plugins/module_utils/platform_openbao_activation_plan.py:23-53 | the reader returns exactly the encoded value, with any trailing white space |
| `CanonicalJson.CanonicalInjective` | plugins/module_utils/platform_openbao_activation_plan.py:23-24 | canonical texts are equal if and only if the typed values are; true, 1 and "1" all differ |
| `CanonicalJson.CanonicalKeys` | plugins/module_utils/platform_openbao_activation_plan.py:24 | the keys of a canonical object are the keys of the dictionary, each once, each before all later ones in code-point order |
| `InsertionOrder.SortExactly` | plugins/module_utils/platform_openbao_activation_plan.py:23-24 | sorting the members of a dictionary keeps exactly its members and puts their keys in code-point order |
| `InsertionOrder.DumpForgets` | plugins/module_utils/platform_openbao_activation_plan.py:23-24 | encoding a value whose dictionaries have an insertion order, sorting at every depth, gives the canonical text of the value without that order |
| `InsertionOrder.CanonicalIgnoresInsertionOrder` | plugins/module_utils/platform_openbao_activation_plan.py:23-28 | the canonical texts of two values, hence their digest inputs, are equal if and only if the values are equal up to the order in which their dictionaries were filled, at every depth |
| `InsertionOrder.PermutationReorders` | plugins/module_utils/platform_openbao_activation_plan.py:23-28 | any permutation of the items of a dictionary is such a reordering |
| `CanonicalJson.CutFile` | plugins/module_utils/platform_openbao_activation_plan.py:71-79 | a plan file cut after n bytes is rejected if the cut is inside the object, and reads back as the whole plan if only the line feed is missing |
| `ActivationPlan.ContextValueInjective` | plugins/module_utils/platform_openbao_activation_plan.py:112-114 | two contexts with the same dictionary are the same context |
| `ActivationPlan.NewPlanWindow` | plugins/module_utils/platform_openbao_activation_plan.py:140-170 | a new plan, validated for its own operation, hosts, context and evidence, is accepted exactly for created <= now < created + 1800, and otherwise refused as stale |
| `ActivationPlan.OperatorContextExactly` | plugins/module_utils/platform_openbao_activation_plan.py:108-120 | outside CI a context is accepted if and only if the environment name is 1 to 64 listed characters and the mode is not ci, and it carries no CI identity |
| `ActivationPlan.JobContextExactly` | plugins/module_utils/platform_openbao_activation_plan.py:121-137 | in CI a context is accepted if and only if every variable has its required value, written out one by one, and each of its fields is the stated variable, with the plan job named by replacing the ending |
| `ActivationPlan.BindableExactly` | plugins/module_utils/platform_openbao_activation_plan.py:161-163 | hosts and evidence are bindable if and only if there are three hosts, each before the next in code-point order, and the evidence is a nonempty dictionary |
| `ActivationPlan.NewPlanFields` | plugins/module_utils/platform_openbao_activation_plan.py:168-170 | every field of a new plan, expiry after 1800 seconds and its own digest included |
| `ActivationPlan.AcceptedExactly` | plugins/module_utils/platform_openbao_activation_plan.py:140-154 | acceptance of any value as a plan, both ways and spelled out: the nine keys, version 1, 32 hexadecimal digits, an 1800-second window around now, the digest of the other fields, and equality of hosts, context and evidence |
| `ActivationPlan.JobContextsAgree` | plugins/module_utils/platform_openbao_activation_plan.py:121-137 | for every operation and prefix that fit the activate job, the plan job and the activate job get equal contexts or equal refusals |
| `ActivationPlan.JobLengths` | plugins/module_utils/platform_openbao_activation_plan.py:121-137 | in a pipeline whose variables have their required values, the plan job has a context exactly for prefixes of 1 to 122 - n characters and the activate job for 1 to 118 - n, where n is the length of the operation |
| `ActivationPlan.DigestDeterminesFields` | plugins/module_utils/platform_openbao_activation_plan.py:27-28 | dictionaries carrying their own digest and the same digest are equal, or their two canonical texts are a collision of the hash |
| `ActivationPlan.ApprovalBindsPlan` | plugins/action/openbao_activation_plan.py:44-45 | equal approval strings of two accepted plans mean the same digest and, unless the two canonical texts collide, the same operation, hosts, context, evidence and whole plan, for arbitrary host names and any hash with 64-digit results |
| `ActivationPlan.ApprovalParts` | plugins/action/openbao_activation_plan.py:44-45 | an approval splits at its bars into operation, hosts and digest |
| `FailoverPlan.ModeContext` | plugins/module_utils/platform_openbao_failover_plan.py:64-84 | in every mode, job-name translation followed by the shared checks gives one context that depends only on the prefix and the rest of the environment, or the same refusal |
| `FailoverPlan.ContextsAgree` | plugins/module_utils/platform_openbao_failover_plan.py:64-84 | for every prefix of 1 to 102 characters the plan, test and recover jobs, and recovery from the test job, get equal contexts or equal refusals |
| `FailoverPlan.PlanJobAccepted` | plugins/module_utils/platform_openbao_failover_plan.py:64-84 | in a pipeline whose variables have their required values, a plan job has a context if and only if its prefix has 1 to 106 listed characters |
| `FailoverPlan.LongJobRefused` | plugins/module_utils/platform_openbao_failover_plan.py:64-84 | an empty prefix, one over 106 for plan, or one over 102 for test and recover never yields a context |
| `FailoverPlan.RecoverJobNeverTests` | plugins/module_utils/platform_openbao_failover_plan.py:70-80 | a job named for recovery never yields a test context, whatever the environment |
| `FailoverPlan.FailoverContextExactly` | plugins/module_utils/platform_openbao_failover_plan.py:64-84 | in CI a failover context is accepted if and only if every variable has its required value, the job is named prefix, operation and a kind that may run the mode, and the source identity is proper; each field is stated |
| `FailoverPlan.FailoverOperatorExactly` | plugins/module_utils/platform_openbao_failover_plan.py:64-84 | outside CI a failover context is accepted in the three modes exactly for a proper source and environment, and carries no CI identity |
| `FailoverPlan.ValidContextExactly` | plugins/module_utils/platform_openbao_failover_plan.py:44-61 | a valid context is the dictionary of a context with two revisions, a relative inventory path without .. components, and either no CI identity or positive identifiers, an image with a digest and a plan job of at most 128 characters |
| `FailoverVerdict.RecoverExactly` | plugins/module_utils/platform_openbao_failover_plan.py:107-130 | recovery is accepted if and only if the plan is well formed, the hosts are equal, and the contexts are equal in every field but the pipeline |
| `FailoverVerdict.TestIsRecoverPlus` | plugins/module_utils/platform_openbao_failover_plan.py:107-130 | test acceptance is recover acceptance plus window, owner, evidence and pipeline |
| `FailoverVerdict.RecoverIndependent` | plugins/module_utils/platform_openbao_failover_plan.py:113-130 | the recover verdict, including the reason of a refusal, does not depend on time, owner, evidence or pipeline |
| `FailoverVerdict.NeverAcrossLanes` | plugins/module_utils/platform_openbao_failover_plan.py:44-61 | no mode accepts a plan whose lane, or any other context field but the pipeline, differs from the current one |
| `FailoverVerdict.SameDigestSamePlan` | plugins/module_utils/platform_openbao_failover_plan.py:87-104 | two well-formed plans with the same digest are equal, or their canonical texts collide |
| `FailoverVerdict.ShapeExactly` | plugins/module_utils/platform_openbao_failover_plan.py:87-104 | what a well-formed failover plan is, field by field: twelve keys, header, three ordered host names with the owner among them, evidence, context, size and digest |
| `FailoverVerdict.FailoverApprovalParts` | plugins/action/openbao_failover_plan.py:49-52 | an approval splits at its bars into route, owner, hosts and digest |
| `FailoverVerdict.ApprovalBindsPlan` | plugins/action/openbao_failover_plan.py:49-52 | equal approval strings of well-formed plans give the same route, owner and hosts and, unless the canonical texts collide, the same plan |
| `FailoverVerdict.AcceptedApprovalBindsPlan` | plugins/action/openbao_failover_plan.py:40-52 | the same for plans as the action returns them, accepted in any modes, contexts and times |
| `PlanStore.Store.WritePlan` | plugins/module_utils/platform_openbao_activation_plan.py:56-79 | publication succeeds if and only if the target is safe, the text fits and the path is new and the write completes; every existing file keeps its bytes; a successful publication reads back as the plan |
| `PlanStore.Store.Read` | plugins/module_utils/platform_openbao_activation_plan.py:40-53 | reading succeeds if and only if the file is trusted, present, bounded and one JSON document without repeated keys; a file left by publishing a plan, complete or cut at any byte, reads as exactly that plan or not at all |
| `PlanStore.Store.Prepare` | plugins/module_utils/platform_openbao_activation_plan.py:157-175 | both `prepare` operations over the file store: the outcome and the new files for every mode and error path, with every existing file unchanged |
| `PlanStore.ActivationExactly` | plugins/module_utils/platform_openbao_activation_plan.py:157-175 | every accepted activation, mode by mode, both ways: only an interactive one may go without a file, ci and interactive with a path validate the file, plan publishes whole to a new path; operation, hosts and evidence are checked in every mode |
| `PlanStore.FailoverExactly` | plugins/module_utils/platform_openbao_failover_plan.py:133-152 | every accepted failover request, mode by mode, both ways: a test has a path and validates its file, a recovery has no path and validates the retained plan, plan publishes a well-formed plan whole to a new path, and no other mode is accepted |
| `PlanStore.FilesExactly` | plugins/module_utils/platform_openbao_activation_plan.py:56-79 | what a request does to the files: only a plan request that passes every test adds its path, with its text up to where the write was cut |
| `PlanStore.FailoverPlanFields` | plugins/module_utils/platform_openbao_failover_plan.py:145-149 | every field of a new failover plan |
| `PlanStore.PublishedReadsBack` | plugins/module_utils/platform_openbao_activation_plan.py:157-175 | after a successful plan run the file holds exactly the signed plan |
| `PlanStore.PublishThenActivate` | plugins/module_utils/platform_openbao_activation_plan.py:140-175 | publish then apply through encoding, digest and validation: with file, hosts, context and evidence unchanged the later run returns exactly the published plan if created <= now < created + 1800 and is refused otherwise |
| `PlanStore.PublishThenTest` | plugins/module_utils/platform_openbao_failover_plan.py:133-152 | the same for a failover test with unchanged owner: accepted if and only if in the window, and then with exactly the published plan |
| `PlanStore.PlanJobThenTestJob` | plugins/module_utils/platform_openbao_failover_plan.py:64-152 | a plan published by the plan job of a prefix of 1 to 102 characters is accepted by the test job of that prefix, everything else unchanged, if and only if in the window, and then it is exactly that plan |
| `PlanStore.LongPrefixNeverTested` | plugins/module_utils/platform_openbao_failover_plan.py:64-152 | for a prefix of 103 to 106 characters the plan job has a context and publishes every well-formed plan, while its test and recover jobs are always refused |
| `PlanStore.RecoverAtAnyPoint` | plugins/module_utils/platform_openbao_failover_plan.py:133-138 | recovery of a retained plan gives the same answer in every file state, at every time, for every owner, evidence and pipeline, and touches no file |
| `PlanStore.PathNeverChanges` | plugins/module_utils/platform_openbao_activation_plan.py:74-79 | in every run, a path keeps its bytes from its first publication on |
| `PlanStore.CutPublication` | plugins/module_utils/platform_openbao_activation_plan.py:71-79 | a file left by a publication reads as its plan or not at all, wherever the write was cut |
| `PlanStore.AppliedPlanWasPublished` | plugins/module_utils/platform_openbao_activation_plan.py:157-175 | in every run from an empty store, an accepted failover test, CI activation or interactive activation with a file has a nonempty path and returns the plan of the first publication to it, whose write had reached the closing brace |
| `PlanStore.ActivationInRun` | plugins/module_utils/platform_openbao_activation_plan.py:140-175 | in every run, an accepted CI activation, or interactive one with a file, names a file that was published before for the same operation, hosts, context and evidence, less than 1800 seconds earlier; contexts that come from jobs or operators were then equal field by field |
| `PlanStore.FaultInRun` | plugins/module_utils/platform_openbao_failover_plan.py:107-152 | in every run, every accepted failover test names a file that was published before for the same hosts, context, owner and evidence, less than 1800 seconds earlier |
| `RunnerConfig.SoleMatchUnique` | roles/gitlab_runner/library/gitlab_runner_concurrency.py:21-28 | the sole match is line k if and only if k is before the first table header, is a canonical assignment, and is the only such line |
| `RunnerConfig.AssignExactly` | roles/gitlab_runner/library/gitlab_runner_concurrency.py:23-29 | the pattern of the assignment as a grammar, both ways: blanks, key, blanks, =, blanks, a positive numeral, blanks, an optional comment and an optional CR, with the span of the numeral |
| `RunnerConfig.HeaderExactly` | roles/gitlab_runner/library/gitlab_runner_concurrency.py:21 | a header line is blanks followed by an opening bracket |
| `RunnerConfig.CandidateExactly` | roles/gitlab_runner/library/gitlab_runner_concurrency.py:14-37 | when an edit is accepted and what it is: the root value is a positive integer, the prefix up to the sole match gives it, and the new text changes that value and no other |
| `RunnerConfig.SpliceKeepsMatch` | roles/gitlab_runner/library/gitlab_runner_concurrency.py:21-34 | splicing any positive numeral keeps the number of lines, the line of the first table header, the line of the sole match and the offset where its digits start |
| `RunnerConfig.PutGet` | roles/gitlab_runner/library/gitlab_runner_concurrency.py:14-37 | an accepted edit sets the value, keeps every other parsed value, and keeps the match, its offset and the header line, for every parser |
| `RunnerConfig.PutPut` | roles/gitlab_runner/library/gitlab_runner_concurrency.py:14-37 | an accepted second edit gives the bytes of editing the original directly, which is accepted too, for every parser |
| `RunnerConfig.CurrentIsDigits` | roles/gitlab_runner/library/gitlab_runner_concurrency.py:29-33 | under the prefix-parse assumption the reported current value is spelled by the digits that are replaced |
| `RunnerConfig.GetPut` | roles/gitlab_runner/library/gitlab_runner_concurrency.py:14-37 | under that assumption, editing to the current value is accepted and changes no byte |
| `RunnerConfig.EditBack` | roles/gitlab_runner/library/gitlab_runner_concurrency.py:14-37 | under that assumption, an accepted edit back restores the original file byte for byte, and it is accepted if and only if the parser accepts the edited prefix |
| `RunnerConfig.EditBackAlways` | roles/gitlab_runner/library/gitlab_runner_concurrency.py:14-37 | for a parser that also treats all positive numerals alike, editing back is always accepted and restores the file byte for byte |
| `RunnerAssumptions.AssumptionsHaveAParser` | roles/gitlab_runner/library/gitlab_runner_concurrency.py:14-37 | both assumptions can be met together with an accepted edit |
| `RunnerPublication.RunKeepsInv` | roles/gitlab_runner/library/gitlab_runner_concurrency.py:45-92 | an invariant of every interleaving of the module with foreign writers: what was read is the file's bytes as long as it keeps the identity taken at the start, and the candidate is the edit of what was read |
| `RunnerPublication.OnlyPrivateFiles` | roles/gitlab_runner/library/gitlab_runner_concurrency.py:59-64 | in every run, what is read, edited or replaced is a regular root-owned file with mode digits 0600 and one name |
| `RunnerPublication.EditedWasThere` | roles/gitlab_runner/library/gitlab_runner_concurrency.py:65-68 | what is edited was the whole content of one inode at one moment |
| `RunnerPublication.ReportIsTrue` | roles/gitlab_runner/library/gitlab_runner_concurrency.py:69-93 | a successful run reports the value of a file that was there, whose identity the path still had later, and whether it differs from the desired one |
| `RunnerPublication.MovePublishesSplice` | roles/gitlab_runner/library/gitlab_runner_concurrency.py:78-85 | if the path still has the checked identity at the move, the published bytes are the edit of the bytes they replace, with a strictly larger modification time |
| `RunnerPublication.NoUpdateLost` | roles/gitlab_runner/library/gitlab_runner_concurrency.py:80-85 | over every run in which no foreign step falls between the identity check and the move, no foreign update is lost |
| `RunnerPublication.ForeignStepInWindowIsLost` | roles/gitlab_runner/library/gitlab_runner_concurrency.py:80-85 | the exception is real: from every state after the check, any foreign bytes written before the move are replaced by the edit of the old ones |
| `RunnerPublication.OnlyMoveTouches` | roles/gitlab_runner/library/gitlab_runner_concurrency.py:69-85 | no step of the module but the move touches the files, and the move happens only outside check mode with a different value |
| `RunnerPublication.ExitLeavesNoTemp` | roles/gitlab_runner/library/gitlab_runner_concurrency.py:70-92 | at every exit, successful or not, the temporary file is gone, because whenever it exists the variable that names it was assigned |
| `HostsFile.OutsideBlock` | roles/common/library/platform_host_aliases_guard.py:91-109 | the marker loop computes the stripped text, or refuses |
| `HostsFile.LinesExactly` | roles/common/library/platform_host_aliases_guard.py:96 | how every text splits into lines: at LF, at CRLF, and at CR that no LF follows |
| `HostsFile.MarkersExactly` | roles/common/library/platform_host_aliases_guard.py:41-43 | the texts of the markers, and that a line bears one exactly when it contains it |
| `HostsFile.OutsideExactly` | roles/common/library/platform_host_aliases_guard.py:91-109 | a file is accepted if and only if no line bears the marker, or there is one exact BEGIN line before one exact END line and no other marker-bearing line; the result is the text without exactly those lines |
| `HostsFile.OutsideHasNoMarker` | roles/common/library/platform_host_aliases_guard.py:91-109 | the unmanaged text holds no marker, not even across lines |
| `HostsFile.OutsideIdempotent` | roles/common/library/platform_host_aliases_guard.py:91-109 | stripping twice is stripping once |
| `HostsFile.InsertThenStrip` | roles/common/library/platform_host_aliases_guard.py:91-109 | stripping undoes the insertion of any terminated marker-free body after any line break of a marker-free file, with CR, LF and CRLF, even between CR and LF |
| `HostsGuard.AddNames` | roles/common/library/platform_host_aliases_guard.py:67-80 | the inner loop extends the table by the alias's names, or refuses on an invalid or repeated name |
| `HostsGuard.Declarations` | roles/common/library/platform_host_aliases_guard.py:56-81 | the nested loops compute the declaration table of the flattened list of (name, address) items |
| `HostsGuard.HostnameExactly` | roles/common/library/platform_host_aliases_guard.py:67-76 | a host name has at most 253 characters, between its dots only labels of 1 to 63 listed characters with no dash at either end, and is no IP address |
| `HostsGuard.DeclaredExactly` | roles/common/library/platform_host_aliases_guard.py:56-81 | declarations are accepted if and only if there is an alias, each has an unscoped address and proper host names, and no name occurs twice ignoring case |
| `HostsGuard.DeclaredIgnoresOrder` | roles/common/library/platform_host_aliases_guard.py:56-81 | the table, or the refusal, depends neither on the order of the aliases nor on the order of the names inside each alias |
| `HostsGuard.DeclaredEntries` | roles/common/library/platform_host_aliases_guard.py:56-81 | one entry per listed name: each name in lower case has the address of its own alias, and there are as many entries as names |
| `HostsGuard.WordsOfSpaced` | roles/common/library/platform_host_aliases_guard.py:120 | for every interleaving of words with gaps of the six white-space bytes, the words of the text are exactly these words in order |
| `HostsGuard.WordsAreSpaced` | roles/common/library/platform_host_aliases_guard.py:120 | every text is such an interleaving of its words |
| `HostsGuard.FieldsExactly` | roles/common/library/platform_host_aliases_guard.py:120 | the fields of a line are its words before the first #; text from there on adds none |
| `HostsGuard.LowerExactly` | roles/common/library/platform_host_aliases_guard.py:124 | names are compared with each capital replaced by its small letter and each byte above ASCII by U+FFFD |
| `HostsGuard.CheckLine` | roles/common/library/platform_host_aliases_guard.py:119-127 | the inner loop accepts a line if and only if it gives no declared name another address |
| `HostsGuard.ConsistentExactly` | roles/common/library/platform_host_aliases_guard.py:119-127 | the conflict test on the shape of lines: on every line made of words, white space and an optional comment, each word after the first that is a declared name, ignoring case, has its declared unscoped address as first word |
| `HostsGuard.CheckHosts` | roles/common/library/platform_host_aliases_guard.py:112-127 | the file is accepted if and only if its markers are well formed and no unmanaged line, read as words, white space and comment, gives a declared name another address |
| `HostsGuard.AcceptedMerges` | roles/common/library/platform_host_aliases_guard.py:112-127 | if the check accepts, then any file made of the unmanaged lines and, at a line boundary, a block stating exactly the declared pairs resolves every declared name, ignoring case, to exactly its declared address |
| `AlloyPaths.SafePathExactly` | roles/grafana_alloy/filter_plugins/initial_activation.py:54-57 | the textual test with `normpath` accepts exactly the paths made of one or more nonempty allowed components other than "." and ".." |
| `AlloyPaths.InsideIsProperPrefix` | roles/grafana_alloy/filter_plugins/initial_activation.py:127-132 | the string-prefix test between safe paths is the proper-prefix order of their components |
| `Patterns.StartsEndsExactly` | roles/grafana_alloy/filter_plugins/initial_activation.py:131-132 | startswith and endswith, by what stands after and before |
| `AlloyPaths.ReservedExactly` | roles/grafana_alloy/filter_plugins/initial_activation.py:127-132 | the string tests against the six reserved paths, written out, are separation by components |
| `AlloyPaths.CheckCaFiles` | roles/grafana_alloy/filter_plugins/initial_activation.py:127-132 | the loops accept if and only if no CA file equals, contains or lies inside one of the six reserved paths, as strings and by components |
| `AlloyPaths.SeparateFromTree` | roles/grafana_alloy/filter_plugins/initial_activation.py:127-132 | a separated CA file is no path at or below a reserved path |
| `AlloyPaths.NeverClientFile` | roles/grafana_alloy/filter_plugins/initial_activation.py:116-132 | an accepted CA file is never a client certificate or key of any version of either writer |
| `AlloyPaths.BuildDirectories` | roles/grafana_alloy/filter_plugins/initial_activation.py:241-244 | the loop and sort compute the ordered list of all proper ancestors of the files |
| `AlloyPaths.DirectoriesParentFirst` | roles/grafana_alloy/filter_plugins/initial_activation.py:241-244 | the list holds exactly the proper ancestors of the files, each once, ordered by number of slashes and then by code points |
| `AlloyPaths.DirectoriesExactly` | roles/grafana_alloy/filter_plugins/initial_activation.py:241-244 | a directory is listed if and only if it is the root or a safe path that some file lies below |
| `AlloyPaths.AncestorsBefore` | roles/grafana_alloy/filter_plugins/initial_activation.py:241-244 | with a directory, the list holds every ancestor of it at an earlier position |
| `AlloyPaths.AncestorLess` | roles/grafana_alloy/filter_plugins/initial_activation.py:241-244 | a proper ancestor sorts first, including "/" against "/x", which have the same slash count |
| `EventLog.WrittenPrefix` | plugins/callback/platform_config_operation_summary.py:59-62 | for every schedule of short writes and errors, what reaches the log is a prefix of the line, and all of it if and only if no error came first |
| `EventLog.Callback.AppendRecord` | plugins/callback/platform_config_operation_summary.py:50-64 | the write loop appends what the schedule lets through and reports success exactly when the whole line was appended |
| `EventLog.Callback.WriteError` | plugins/callback/platform_config_operation_summary.py:86-94 | an error record is appended, and a failed append is remembered |
| `EventLog.Callback.WriteTask` | plugins/callback/platform_config_operation_summary.py:96-119 | a task record, or an error record for unsafe names, is appended, and a failed append is remembered |
| `EventLog.Callback.OnStats` | plugins/callback/platform_config_operation_summary.py:157-198 | after an earlier failure only an error record is tried; otherwise recaps are appended in sorted order up to the first bad host or failed append |
| `EventLog.ErrorLine` | plugins/callback/platform_config_operation_summary.py:92 | an error line parses to schema, kind and phase and nothing else |
| `EventLog.EventLine` | plugins/callback/platform_config_operation_summary.py:96-119 | a task line parses to exactly its six fields, or to an error if host or task name is not 1 to 255 printable characters or the host is an IP address |
| `EventLog.HostLine` | plugins/callback/platform_config_operation_summary.py:171-196 | a recap line parses to its fields with the seven counters, each the number of the summary or zero, or to an error if the name or a counter is not fine |
| `EventLog.SmoothRun` | plugins/callback/platform_config_operation_summary.py:50-198 | for every schedule of nonempty short writes, a run without I/O error leaves a log that splits on line feeds into exactly the emitted records in order, each reading back as its record |
| `EventLog.LogSplits` | plugins/callback/platform_config_operation_summary.py:59-62 | a log of records splits on line feeds into exactly their texts and a final empty text |
| `EventLog.TextsParse` | plugins/callback/platform_config_operation_summary.py:59-60 | line i of a log reads back as record i |
| `EventLog.FailureMeansNoRecap` | plugins/callback/platform_config_operation_summary.py:157-169 | if any append before the statistics failed, the statistics append no recap: only a prefix of one error record |
| `EventLog.BadHostEndsRecaps` | plugins/callback/platform_config_operation_summary.py:170-184 | the first bad host ends the recaps with exactly its sorted predecessors and one error |
| `Filesystem.Forward` | plugins/module_utils/platform_pki_secure_source.py:43-54 | when every change advances the change time, a node is unchanged or has a larger change time |
| `Filesystem.Steady` | plugins/module_utils/platform_pki_secure_source.py:43-54 | equal identities at two times mean that the node, bytes included, was the same all the time between |
| `Filesystem.Kernel.CloseAll` | plugins/module_utils/platform_pki_secure_source.py:190-195 | closing a list of descriptors removes each of them, once, and nothing else |
| `PinnedSource.Recheck` | plugins/module_utils/platform_pki_secure_source.py:67-86 | a recheck succeeds if and only if every check passes at its own time; in a filesystem that does not change, if and only if the pinned chain is in place |
| `PinnedSource.ClosePinned` | plugins/module_utils/platform_pki_secure_source.py:88-92 | closing releases exactly one descriptor per component and the file's |
| `PinnedSource.RecheckedPathReachesFile` | plugins/module_utils/platform_pki_secure_source.py:67-86 | after a successful recheck, walking the path by name from the root, without following links, meets exactly the pinned directories and the pinned inode at every later time at which those directories have the change times they had at their own checks |
| `PinnedSource.RecheckedPathHolds` | plugins/module_utils/platform_pki_secure_source.py:67-86 | if no foreign step touches an entry of the path during a successful recheck, the path leads to the pinned file at its end, and from then on it always does up to time v if and only if no foreign step touches an entry of the path before v |
| `PinnedSource.QuietRecheckReachesFile` | plugins/module_utils/platform_pki_secure_source.py:67-86 | in particular the walk reaches the pinned inode at the end of a recheck during which nothing changed |
| `Pinning.RenameDuringRecheckIsMissed` | plugins/module_utils/platform_pki_secure_source.py:67-86 | such steps during a recheck do escape it: for every policy that trusts the own user there is a pinnable path and a rename behind the check of its first directory that leave a successful recheck whose path no longer walks to the file |
| `PinnedSource.RecheckedBytes` | plugins/module_utils/platform_pki_secure_source.py:67-86 | if every change moves the identity, a successful recheck means the file still holds the pinned bytes |
| `PinnedSource.ReadPinned` | plugins/module_utils/platform_pki_secure_source.py:164-171 | for every schedule of short reads the loop ends, takes at most maximum + 1 bytes, fails only on a failed read, and returns the first min(maximum + 1, length) bytes of an unchanged file |
| `PinnedSource.ReadSource` | roles/grafana_alloy/filter_plugins/initial_activation.py:159-166 | the other bounded loop: the same bytes under every schedule |
| `Pinning.OpenAncestors` | plugins/module_utils/platform_pki_secure_source.py:133-145 | the ancestor loop holds one inspected descriptor per component, or all but the one being inspected on failure; in a quiet filesystem it succeeds exactly when every prefix of the path is a safe ancestor |
| `Pinning.ReadStable` | plugins/module_utils/platform_pki_secure_source.py:154-176 | accepted data are exactly the file's bytes under the recorded identity, with the recorded size, at most the maximum; in a quiet filesystem a file is accepted if and only if its metadata are safe |
| `Pinning.StableBytes` | plugins/module_utils/platform_pki_secure_source.py:154-176 | equal identities around the read loop and the right length make the data the file's bytes |
| `Pinning.SafeAncestorExactly` | plugins/module_utils/platform_pki_secure_source.py:33-40 | the ancestor test by octal digits: a directory of a trusted owner whose digits for group and others have no write bit, or with the sticky bit |
| `Pinning.WritableDirectoryRefused` | plugins/module_utils/platform_pki_secure_source.py:33-40 | a path through a directory that group or others may write without the sticky bit, or that a foreign user owns, is not pinnable |
| `Pinning.Pin` | plugins/module_utils/platform_pki_secure_source.py:121-195 | a successful pin holds one descriptor per component and the file's; every ancestor was seen as a directory of a trusted owner with safe mode digits, the file is the user's with digits 0600, one name and a bounded size, the data have the expected digest and the chain was just rechecked; a failed pin leaves everything closed but the ancestor under inspection; in a quiet filesystem pinning succeeds if and only if the path is pinnable in these terms |
| `Pinning.PinAndClose` | plugins/module_utils/platform_pki_secure_source.py:88-195 | pin then close restores the descriptor table |
| `Pinning.SourceBytes` | roles/grafana_alloy/filter_plugins/initial_activation.py:146-173 | every descriptor is closed on every path; the data were read by name in directories opened from the root; in a quiet filesystem it returns the bytes if and only if the path names a readable file |
| `Pinning.ReadAndCompare` | roles/grafana_alloy/filter_plugins/initial_activation.py:157-170 | the read is accepted only if identity by descriptor and by name are those of the first fstat, and then the data are the named file's bytes |
| `TrustIngress.AcceptableExactly` | plugins/action/platform_pki_trust_ingress.py:74-82 | the four names, the size bound, and the syntax test: 64 hexadecimal digits and the name as last component |
| `TrustIngress.PinAll` | plugins/action/platform_pki_trust_ingress.py:74-82 | sources are pinned in the fixed order up to the first refusal, with every descriptor accounted for; in a quiet filesystem all are pinned if and only if each is acceptable and pinnable |
| `TrustIngress.TransferOne` | plugins/action/platform_pki_trust_ingress.py:90-112 | one name: bytes are sent only directly after a successful recheck, and the loop goes on only after another one |
| `TrustIngress.TransferAll` | plugins/action/platform_pki_trust_ingress.py:88-116 | the sent names are a prefix of the fixed order, each between its two rechecks; status transferred means all four, all rechecked again after the last copy, with changed the disjunction of the copies; a stop at a copy is that copy's own failure |
| `TrustIngress.ClosePins` | plugins/action/platform_pki_trust_ingress.py:117-123 | every returned pin is closed, each descriptor exactly once, whatever else is open |
| `TrustIngress.AcceptableDistinct` | plugins/action/platform_pki_trust_ingress.py:80-84 | sources that pass the basename test have distinct paths, so the test for distinct paths never refuses |
| `TrustIngress.Run` | plugins/action/platform_pki_trust_ingress.py:71-123 | over every failure point: descriptors are as before but for the one a failed pin loses; deliveries are a prefix of the order, with their own digests, vouched for by a recheck of their own path; in a quiet filesystem the transfer succeeds if and only if all sources are pinnable, a remote temporary path is made and every copy succeeds, and then delivers exactly the files' bytes |

## Left out

- Strings inside plan values are Unicode scalar values; lone surrogates are covered only by the code-point results of `JsonString`. Object keys are strings.
- Floating-point values are carried as their number text: rounding and re-spelling of floats, the tokens NaN and Infinity, and the limits on digits and nesting depth are not modelled.
- Plan files are modelled as decoded text; the detection of other encodings of a JSON file is not modelled.
- The Git calls of `source_identity` (revisions and inventory name are inputs), the ownership, mode and parent checks of `read_plan` and `write_plan` (inputs `trustedFile` and `safeTarget`), UUID generation.
- The result dictionaries, messages and failure codes of the plan actions, beyond verdict, route and approval.
- RunnerConfig: TOML values are compared by type and value, so Python's equality of 1, 1.0 and true among other values is not modelled; decoding of UTF-8 is part of the parser parameter.
- RunnerPublication: `atomic_move` is one rename and `mkstemp` leaves no file when it fails; the copying fallback of the move, fsync and a failing unlink in the cleanup are not modelled.
- HostsGuard: type and shape checks of alias values are settled by the types; the `trusted` metadata checks and `check_resolution` are not modelled.
- Pinning.Pin: the syntax checks of path and digest before the first open, the repository check and `trusted_ancestor_owners` are not modelled; the owners are an input.
- Filesystem.Kernel.CloseAll: `os.close` never fails here; a raising close in the source skips the remaining closes.
- TrustIngress.Run: the checks of the task arguments and the removal of the remote temporary directory are not modelled.
- AlloyPaths: the URL, DNS and field checks of `validate`, file contents in `build`, `outcome` and `renewal_outcome` are not modelled.
- EventLog: `_write_failover`, the dispatch of runner events and the lookup of the phase in the environment are not modelled; a file that fails its ownership test is an open that fails.
- The target-side guards and `platform-alloy-initial-activate`, `loki_tls.py`, the preflight scripts, `platform_pki_reviewed_ca.py`, `platform_pki_transport_client.py`, playbooks, handlers and templates.
