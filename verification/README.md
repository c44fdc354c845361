# Bifrost API: a verified model

A Dafny model of the parts of the Bifrost API backend that carry an algorithm
or a protocol, with proofs of what they promise. `dafny verify dfyconfig.toml`
checks the whole project.

| file | what it models |
|---|---|
| `FormDependencies.dfy` | the form checker: reference graph, depth-first cycle search, position check |
| `Graphs.dfy`, `SearchTrail.dfy` | walks and cycles; what such a search reports, said without the search |
| `ContainerInit.dfy` | lazy creation of blob containers under two levels of locks, as interleaved steps |
| `TableStorage.dfy`, `OptimisticUpdates.dfy` | partition keys, ETag-guarded updates, and all interleavings of clients that use them |
| `KeyOrder.dfy` | the lexicographic order of keys and the ranges that stand for prefixes |
| `CircularRefs.dfy` | turning a cyclic object graph into a finite value |
| `DataProviderCache.dfy` | the cache of data-provider results and its keys |
| `Provisioning.dfy` | user provisioning, repeated and interrupted |
| `UserLookup.dfy` | staleness of cached organisation lookups |
| `Decimal.dfy`, `SystemLogKeys.dfy` | decimal notation, and newest-first row keys of the system log |
| `SecretNaming.dfy` | names of Key Vault secrets |
| `EntityModels.dfy` | row keys, and models to table entities and back |
| `ConfigValues.dfy` | config values into storage and back |
| `Requirements.dfy` | rewriting requirements.txt |
| `ResultPlacement.dfy` | execution results: inline or blob, and what a reader sees |
| `GitHubLifecycle.dfy` | the GitHub integration's configuration and secret |
| `Strings.dfy`, `Wrappers.dfy` | split, join and strip; optional values and results |

Code that computes is written as functions; code that changes things in place
is written as classes and methods proved against such functions; code that
awaits in the middle is written as a system of steps that interleave in any
way, and the theorems are about every run. Clocks, UUIDs, hashes, `str.lower`,
`json.dumps`/`json.loads`, datetime parsing and the outcome of remote calls
are parameters; where a parameter has to behave, the requirement is stated as
a predicate (`KeepsPlain`, `KeepsNames`, `Foreign`, `Good`, `RealIds`,
`Plausible`).

## Where the code does less than its documentation says

Each of these has a theorem that says exactly when the documented behaviour
holds.

- The cycle search stops a search without unwinding its stack, so a second or
  later message may name a path that is no cycle (`LaterMessageNamesNoCycle`).
  When no field has two dependencies that lead to a cycle, for instance when each
  field refers to at most one declared field, every message names a cycle if and
  only if each field that leads into the trouble of a field further up is itself
  led to by one (`MessagesAreCyclesIff`). On other forms the same condition, along
  every way the search could take, is sufficient (`MessagesAreCycles`); it is not
  necessary, because the place where a message jumps from one search to the next
  may happen to be an edge (`ApartIsNotNecessary`). `MessageIsCycleIff` is exact there too, message by
  message, in terms of those places.
- Organisation lookups are cached "for 30 seconds", but the entry is stamped
  after the database has answered; the bound is 30 seconds plus the time from
  the read to the stamp, and no smaller one is right (`StalenessBoundIff`).
- `is_secret_reference` accepts a generated name only if its scope or component
  keeps a hyphen, although the format it documents has no such condition
  (`PlainNameIsReferenceIff`; scope acme with component token:
  `SimpleNameIsNoReference`).
- `get_result` prefers JSON to HTML to text, so a later upload of lower priority
  is shadowed (`DownloadIsLastIff`, `EarlierDocumentHidesText`); a short text that
  is itself JSON is read back as that JSON (`JsonTextIsShownAsDocument`); and an
  update without a result brings an earlier small result back in place of a large
  one (`LastResultIsShownIff`, `IdleUpdateShowsOldResult`).
- Data-provider keys collide for a provider whose name looks like a hash
  (`KeysCoincideIff`, `HashLikeNameCollides`). A cached result with
  `success: false` comes back with status SUCCESS (`CachedResponseAgreesIff`).
- Provisioning is called idempotent; a repeated call may still change the
  display name once (`RepeatedCall`, `RepeatedCallChangesTheName`).
- `config.set` accepts any JSON-serialisable value, but floats and None come
  back as text (`RoundTripIff`).
- The range that looks up a user's organisation ends in `~` and selects more
  than one email's rows when one email continues another
  (`TildeRangeIsPrefixIff`; bob@x.co and bob@x.com: `TildeRangeHoldsAnotherEmail`).
  An email's own row comes first, so the lookup is wrong only for a user without
  one (`OrgLookup`); then an interrupted provisioning is not repaired
  (`NextCallRepairs`, `OtherUsersOrgIsTaken`).
- A first GitHub validation that stops between its two writes and is repeated
  leaves a secret in Key Vault that nothing refers to (`ValidationResumes`).
- Only `==`, `>=`, `<=` and `~=` are recognised in requirements.txt; a line of any
  other form is left standing beside a second entry for its package
  (`RecognisedIff`, `OtherFormsAreOtherLines`).

## Model

| member | source | states |
|---|---|---|
| FormDependencies.BuildDependencyGraph | shared/validators.py:48-99 | the graph that EdgeIff describes |
| FormDependencies.EdgeIff | shared/validators.py:72-97 | a leads to b exactly when b is declared and the last field named a that has inputs has one that names b as its field, or whose expression mentions b |
| FormDependencies.DepsComeFromAField | shared/validators.py:79-97 | every recorded dependency is a reference some field of that name makes |
| FormDependencies.CycleSearch.Dfs | shared/validators.py:126-157 | ends for every iteration order; the stack set stays equal to the duplicate-free path, also when left stale; without a cycle the stack is restored and the node is finished after all its dependencies; with one, the path has grown along the dependencies taken until it met itself, and there is exactly one message more |
| FormDependencies.CycleSearch.SearchFrom | shared/validators.py:160-162 | a search on top of a stale stack adds one round to the trail: nothing for a finished name or one on the path, else the path that its dependencies lead along and the message that closes it |
| FormDependencies.DetectCircularDependencies | shared/validators.py:102-164 | the messages are those of the trail of the dependencies taken; none exactly when the graph of declared fields has no closed walk; the first names one; when no field has two troubled dependencies, all do exactly when the names are apart; on every form all do if the names are apart whatever the iteration order; every message ends where it begins, by an edge |
| SearchTrail.MessagesAreCyclesIff | shared/validators.py:135-162 | with one troubled dependency a field, every message names a cycle exactly when each field that leads into the trouble of a field further up is led to by a field further up |
| SearchTrail.MessagesAreCycles | shared/validators.py:135-162 | on every form, if that is so along the dependencies the search took, every message names a cycle |
| SearchTrail.FollowedMessagesAreCyclesIff | shared/validators.py:143-162 | along the dependencies the search took, it is so exactly when every message goes round by them |
| SearchTrail.PathIsWhatNamesLeadTo | shared/validators.py:128-162 | what unfinished searches leave on the path is exactly what the fields searched so far lead to |
| SearchTrail.MessageIsCycleIff | shared/validators.py:146-152 | on every form, for every message: it is the piece of the path up to where its search ended, and names a cycle exactly when each start of a search that it crosses is referred to by the name before |
| FormDependencies.ApartIsNotNecessary | shared/validators.py:143-162 | on a form with several dependencies a field, a run whose messages are all cycles although its names are not apart |
| FormDependencies.OneReferenceIsOneWayOut | shared/validators.py:79-97 | a form whose fields each refer to at most one declared field has one way into trouble from each |
| FormDependencies.LaterMessageNamesNoCycle | shared/validators.py:143-162 | on the form a -> b -> a, c -> a the second message is a, b, c, a, which is not a cycle |
| FormDependencies.CycleThroughExpression | shared/validators.py:91-95 | a cycle that runs through an expression is reported |
| Graphs.DependenciesFirstIsUntroubled | shared/validators.py:154-157 | an order in which dependencies come first, as the finished names are in, holds nothing that leads to a cycle |
| FormDependencies.ValidateFieldReferences | shared/validators.py:167-219 | reports exactly the references, by field name or in an expression, to names that are not declared, and to names whose last field does not stand before the referrer's last; nothing exactly when every reference points backwards |
| FormDependencies.BackwardReferencesAreAcyclic | shared/validators.py:181-219 | a form that passes the position check is acyclic with the positions as topological order, duplicate names included |
| FormDependencies.AcyclicFormMayReferForward | shared/validators.py:211-217 | the converse fails: an acyclic form that the position check rejects |
| ContainerInit.SectionIsExclusive | shared/blob_storage.py:101-125 | at most one call per container is past its container lock |
| ContainerInit.SafeInEveryRun | shared/blob_storage.py:76-127 | in every interleaving: one call per container checks and creates, no container is created twice, a container in a service's set exists, a normal return leaves it existing and noted, a create meets an existing container only if another process made it, and storage is asked about a container only until the service has noted it |
| ContainerInit.RaisedIff | shared/blob_storage.py:106-117 | in every run, a call has raised exactly when a storage operation of its own has failed |
| ContainerInit.WithoutFailuresAllReturn | shared/blob_storage.py:106-127 | so while storage does not fail, every call that ends returns |
| ContainerInit.NotedReturnsAtOnce | shared/blob_storage.py:87-89 | a call for a container that its service has noted takes no lock and asks nothing of storage |
| ContainerInit.LockIsNeverReplaced | shared/blob_storage.py:95-98 | a container's lock object, once made, stays the same for the whole run |
| ContainerInit.NoDeadlock | shared/blob_storage.py:94-101 | while a call is unfinished, the call that holds what it waits for, or it itself, can step |
| ContainerInit.StepsAreBounded | shared/blob_storage.py:76-127 | the length of a run is bounded by ten steps per call plus outside creations, so calls that stop arriving all finish |
| KeyOrder.LessIff | shared/storage.py:530-537 | the key order without recursion: proper prefix, or smaller at the first difference |
| KeyOrder.RangeIff | shared/storage.py:535-537 | a range between two continuations of a front holds exactly the keys that continue the front in between |
| KeyOrder.PrefixRangeIff | shared/storage.py:530-537 | p <= k < succ(p) exactly when p is a prefix of k |
| KeyOrder.TildeRangeIff | shared/repositories/users.py:252-256 | the range from p: to p~ holds exactly the keys continuing p with a code point from ':' to '}' |
| KeyOrder.TildeRangeIsPrefixIff | shared/repositories/users.py:252-266 | it agrees with the prefix p: on the stored keys exactly when none continues p with a code point from ';' to '}' |
| KeyOrder.TildeRangeHoldsAnotherEmail | shared/repositories/users.py:252-256 | the range for bob@x.co holds the row of bob@x.com |
| TableStorage.WithPartitionKey | shared/storage.py:115-172 | an explicit key is kept, else a scoped table's is the context's scope and a global table's is GLOBAL; nothing but PartitionKey is touched, and the call fails exactly when there is neither a key, a scoped table with a context, nor a global table |
| TableStorage.OtherPartitionsStay | shared/async_storage.py:314-379 | an update without a partition key changes no row outside the caller's own partition, and leaves that partition in the caller's dictionary |
| TableStorage.GuardedUpdateIsExact | shared/async_storage.py:339-379 | when a guarded update goes through, what the row then holds in each mode, that no other row changes, and which refusal means which state of the row |
| TableStorage.DatetimesRoundTripIff | shared/async_storage.py:691-727 | an entity comes back from storage as it was exactly when its datetimes are in the seven known fields and no text there reads as one |
| TableStorage.TableStorageService.ApplyPartitionKey | shared/storage.py:115-172 | does that to the caller's dictionary in place, and nothing on failure |
| TableStorage.TableStorageService.GetEntity | shared/async_storage.py:419-455 | hands out the row with datetimes parsed and its current tag, None if there is no row |
| TableStorage.TableStorageService.UpdateEntityWithEtag | shared/async_storage.py:314-379 | table, caller's dictionary and answer after a guarded update |
| TableStorage.SecondAttemptIsRefused | shared/storage.py:249-254 | whatever the first attempt's outcome, a second with the same dictionary is refused and writes nothing |
| TableStorage.TableStorageService.QueryByOrg | shared/storage.py:513-539 | selects exactly the rows of the partition whose row key begins with the prefix; fails exactly when the prefix ends in the last code point |
| OptimisticUpdates.NoLostUpdates | shared/async_storage.py:314-379 | in every interleaving of reads, local changes, updates sent and updates that arrive once, again, or never, each row is its successful changes applied one after another in commit order |
| OptimisticUpdates.AcceptedIff | shared/async_storage.py:346-354 | an update goes through on arrival exactly when its copy had its tag when it was sent and no change to the row has been committed since the copy was read |
| OptimisticUpdates.AcceptedOnce | shared/async_storage.py:346-354 | an update that has been accepted is refused whenever it arrives again |
| OptimisticUpdates.SuccessIsApplyChange | shared/async_storage.py:339-361 | an accepted update writes what its local changes make of the row's latest content, in merge and in replace mode |
| OptimisticUpdates.UnguardedUpdateLosesAChange | shared/async_storage.py:266-301 | of two clients that read the same row and replace it by update_entity, the first one's change is lost, whatever it is |
| OptimisticUpdates.UnguardedIncrementIsLost | shared/async_storage.py:266-301 | a counter that two such clients increment goes up by one, in either mode |
| OptimisticUpdates.GuardedIncrementsAdd | shared/async_storage.py:339-361 | while any number of committed guarded increments all count |
| CircularRefs.MarkerExactlyAtOwnDescendants | shared/engine.py:711-743 | for every path: the result has a value there exactly when the path is a way down the objects on which none repeats before its end; it is the marker if the object is its own ancestor, else the object's own form, key by key |
| CircularRefs.EntryByEntry | shared/engine.py:728-735 | each entry of an object is cleaned and stands in its place, under its own key |
| CircularRefs.NoCircleReturnsUnfolding | shared/engine.py:725-740 | without a circle the result is the full unfolding, shared objects included |
| CircularRefs.UnfoldingIsReturned | shared/engine.py:711-743 | an object with a finite unfolding has that as its result |
| CircularRefs.ResultIsClean | shared/engine.py:736-743 | the result holds only atoms that JSON accepts |
| CircularRefs.Idempotent | shared/engine.py:711-743 | cleaning the result again, in any heap that holds it, gives it back |
| DataProviderCache.KeysCoincideIff | shared/engine.py:928-953 | for colon-free names and org ids, two keys coincide exactly for equal name, hash and org, or for a hash-like name against an org's name |
| DataProviderCache.KeysAreInjective | shared/engine.py:943-953 | so keys are injective when no name looks like a hash |
| DataProviderCache.HashLikeNameCollides | shared/engine.py:943-953 | every hash-like name does collide |
| DataProviderCache.ProviderCache.BeginExecute | shared/engine.py:171-184 | the lookup before the await |
| DataProviderCache.ProviderCache.FinishExecute | shared/engine.py:204-212 | the store after the await |
| DataProviderCache.CacheFollowsHistory | shared/engine.py:956-1000 | what the cache holds under a key is the most recent successful run, and what it has forgotten has expired |
| DataProviderCache.CachedIff | shared/engine.py:171-212 | a request is answered from the cache exactly when it may be and the most recent successful run under its key has not outlived its own TTL; the answer is that run's result |
| DataProviderCache.FailedRunsChangeNothing | shared/engine.py:204-211 | a failed run or a workflow's, anywhere in a history, can be taken out of it: the cache and the last success under every key stay the same |
| DataProviderCache.NoCacheRefreshes | shared/engine.py:172-211 | a request that declines the cache is run, and its result is what the next one gets |
| DataProviderCache.CachedResponseAgreesIff | shared/engine.py:249-253 | a cached response has the run's own status exactly when the result is not an explicit failure |
| Provisioning.EnsureUserProvisioned | shared/user_provisioning.py:52-203 | store and answer after a call, in the source's order of lookups and writes |
| Provisioning.UserRepository.UpdateUserProfile | shared/repositories/users.py:174-240 | a changed email moves the user and the organisation, or fails without a change if it is taken |
| Provisioning.UserRepository.GetUserOrgId | shared/repositories/users.py:242-269 | the organisation of the least row key in the range from userperm:email: to userperm:email~ |
| Provisioning.OrgLookup | shared/repositories/users.py:252-266 | that is the user's own organisation, or its absence, exactly when there is one or no email with an organisation continues this one with a character from ';' to '}' |
| Provisioning.ProvisionIsSound | shared/user_provisioning.py:85-203 | every call keeps the store consistent; an answer agrees with the store, and an ORG answer has an organisation, the user's own unless the lookup falls on another's row |
| Provisioning.MovedUserKeepsOrg | shared/repositories/users.py:174-240 | a user known by Entra id who signs in with a new email keeps type, Entra id and organisation, whatever the domain, and the name unless a new one is given |
| Provisioning.NewUserIs | shared/user_provisioning.py:206-285 | what becomes of a new user, from the parts of the email: administrator, member of its domain's organisation, or refused |
| Provisioning.CreatedIff | shared/user_provisioning.py:85-203 | a call says it has created a user exactly when it has created one; other calls leave the set of users, but for a move |
| Provisioning.RefusedIff | shared/user_provisioning.py:82-203 | when a call is refused, and why, exactly |
| Provisioning.FirstUserIsTheAdmin | shared/user_provisioning.py:194-228 | in every run of finished and interrupted calls, the first user is the platform administrator and every other one an ORG user |
| Provisioning.RepeatedCall | shared/user_provisioning.py:58-72 | a repeated call creates nothing and answers the same, whatever became of the organisations; nothing changes exactly when the display name is not behind |
| Provisioning.RepeatedCallChangesTheName | shared/user_provisioning.py:94-113 | a user whose old name a first call keeps and the repeated call changes |
| Provisioning.NextCallRepairs | shared/user_provisioning.py:260-277 | after a stop between create and assign, the next call ends where the first would have exactly when no email with an organisation continues this one; otherwise it answers that one's organisation and assigns nothing |
| Provisioning.OtherUsersOrgIsTaken | shared/repositories/users.py:252-266 | bob@x.co, stopped after its creation, is answered bob@x.com's organisation |
| UserLookup.OrgCache.CheckCache | shared/user_lookup.py:144-155 | serves an unexpired entry and drops an expired one |
| UserLookup.AlwaysWithin | shared/user_lookup.py:131-173 | every answer was the database's value less than 30 seconds plus the read-to-stamp latency ago |
| UserLookup.StalenessBoundIff | shared/user_lookup.py:157-162 | a bound holds for all runs exactly when it is at least 30 seconds plus that latency |
| UserLookup.ExpiredIsNotServed | shared/user_lookup.py:145-155 | in every run, a lookup is answered from the cache exactly when the last stamp of its email is less than 30 seconds old, and then with the answer that was stamped |
| Decimal.DigitsKeepOrder | shared/system_logger.py:114-116 | for numbers of equal length, text order is number order |
| Decimal.ValueOfDigits | bifrost/config.py:130-132 | reading back a printed number gives the number |
| SystemLogKeys.NewestFirst | shared/system_logger.py:103-116 | up to 8999999999999 ms a later event's row key is smaller, whatever the ids |
| SystemLogKeys.NewestFirstIff | shared/system_logger.py:103-116 | and that bound is exact |
| SystemLogKeys.RowKeyIsInjective | shared/system_logger.py:149-152 | a row key determines its time and event id |
| SecretNaming.SanitizeIsJoinedWords | shared/secret_naming.py:57-65 | sanitising yields the runs of letters and digits of the lowercased text, joined by single hyphens |
| SecretNaming.SanitizeFixesIff | shared/secret_naming.py:57-65 | the texts it leaves alone are exactly those of that form |
| SecretNaming.SanitizeIsIdempotent | shared/secret_naming.py:90-98 | sanitising twice is sanitising once |
| SecretNaming.PlainNameIff | shared/secret_naming.py:128-153 | a plain name is generated exactly for non-empty sanitised parts of at most 81 characters, too long means more, and every name passes the Key Vault check |
| SecretNaming.OauthNameIff | shared/secret_naming.py:181-208 | the same for OAuth names, with 74 |
| SecretNaming.PlainNameIsReferenceIff | shared/secret_naming.py:236-258 | a generated plain name is recognised exactly when its scope or component keeps a hyphen |
| SecretNaming.SimpleNameIsNoReference | shared/secret_naming.py:236-258 | the name generated for scope acme and component token is not |
| SecretNaming.OauthNameIsReference | shared/secret_naming.py:236-248 | a generated OAuth name always is |
| SecretNaming.LongNameIsReferenceIff | shared/secret_naming.py:236-248 | a bifrost name of nine parts or more is recognised exactly when a UUID ends it, or stands before a final newline |
| SecretNaming.LegacyNameIsReferenceIff | shared/secret_naming.py:250-258 | a legacy org--key name is recognised exactly when the halves it is cut into at its first doubled hyphen hold no other one and only letters, digits, underscores and hyphens |
| EntityModels.RowKeyRoundTripIff | shared/models.py:1437-1438 | type and id come back exactly when the type has no colon |
| EntityModels.KeyWithoutColon | shared/models.py:1437-1438 | a row key without a colon is all type |
| EntityModels.CompositeRoundTripIff | shared/models.py:1459-1462 | parsing undoes joining exactly for colon-free parts of the expected number; the number of colons alone decides rejection |
| EntityModels.ModelRoundTripIff | shared/models.py:1477-1539 | a stored model is restored exactly when each field that shares a name with storage metadata has its default as value |
| EntityModels.PlainModelRoundTrip | shared/models.py:1525-1539 | a model without such fields always is |
| EntityModels.JunctionRoundTripIff | shared/models.py:1488-1500 | a junction model is restored exactly when its row key has three parts ending in its two ids |
| EntityModels.UnreadableIff | shared/models.py:1477-1500 | when an entity cannot be read, and with which error, exactly |
| ConfigValues.ParseIntOfStr | shared/config_resolver.py:194-195 | int(str(n)) is n for every integer |
| ConfigValues.ParseIntReads | shared/config_resolver.py:194-195 | int() reads digits with an underscore between two of them, a sign before and blanks around |
| ConfigValues.ParseIntRefuses | shared/config_resolver.py:194-195 | and refuses the empty text, letters, and underscores anywhere else |
| ConfigValues.RoundTripIff | bifrost/config.py:123-135 | decoding what config.set stored gives the value back exactly for booleans, integers, strings and JSON documents |
| ConfigValues.DecodersAgreeIff | bifrost/config.py:270-285 | the two decoders agree except on "1" and "yes" and on texts that do not parse |
| ConfigValues.DecodersAgreeOnEncoded | shared/config_resolver.py:193-204 | they agree on everything config.set can store |
| ConfigValues.ConfigsToDict | bifrost/config.py:264-287 | the dictionary holds, for each key, the decoded last configuration |
| ConfigValues.SetThenGet | bifrost/config.py:46-142 | setting and then getting a key gives the value, and leaves other keys alone |
| Requirements.PackageManager.AppendToRequirements | shared/package_manager.py:338-385 | the file's text afterwards |
| Requirements.RecognisedRequirement | shared/package_manager.py:363-371 | a line is about a package if a spelling of its name, in any case, stands before ==, >=, <= or ~= |
| Requirements.RecognisedIff | shared/package_manager.py:363-371 | a line that begins with a name is about the package exactly when the name is a spelling of the package's and blanks, or blanks and one of the four operators, follow |
| Requirements.RewrittenLines | shared/package_manager.py:358-382 | lines about other things stay, in order; every matching line becomes the new spec; max(1, count before) of them are left; a second rewriting changes nothing |
| Requirements.CommentsAndBlanksStay | shared/package_manager.py:363-366 | comments and blank lines stay where they are, whatever the package |
| Requirements.LineEndings | shared/package_manager.py:355-356 | the file's lines are the same whether they end in a newline, a carriage return or both |
| Requirements.AppendedLines | shared/package_manager.py:355-385 | the lines of the written file are the rewritten lines of the file before |
| Requirements.AppendIsIdempotent | shared/package_manager.py:338-385 | running it again leaves the text as it is |
| Requirements.OtherFormsAreOtherLines | shared/package_manager.py:363-382 | a line of the package in any other form, anywhere in the file, stays as it is, and the package has a second entry afterwards |
| Requirements.OtherFormsAre | shared/package_manager.py:368-369 | such forms are strict bounds, !=, extras, markers, comments, and whatever else does not begin like an operator or goes on without = |
| Requirements.StrictBoundGetsASecondEntry | shared/package_manager.py:363-382 | updating requests in a file that says requests>2 leaves both entries |
| ResultPlacement.BlobStorageService.UploadResult | shared/blob_storage.py:221-241 | the upload replaces the blob of the result's format |
| ResultPlacement.HtmlIff | shared/blob_storage.py:228-236 | a text is stored as HTML exactly when its first character that is not blank is < and a > follows |
| ResultPlacement.BlobStorageService.GetResult | shared/blob_storage.py:258-312 | the first blob that exists and parses, in the order json, html, txt |
| ResultPlacement.DownloadIsByPriority | shared/blob_storage.py:272-312 | after any uploads: the latest JSON, else the latest HTML, else the latest text |
| ResultPlacement.DownloadIsLastIff | shared/blob_storage.py:221-312 | the last upload is read back exactly when no earlier one had a format of higher priority |
| ResultPlacement.EarlierDocumentHidesText | shared/blob_storage.py:272-312 | a document, then a text: the document is read back |
| ResultPlacement.ExecutionLogger.UpdateExecution | shared/execution_logger.py:139-181 | above 1024 encoded bytes a result goes to blob storage and not to the row; any other goes to the row and not to blob storage, except that "", {} and [] go to neither and leave the row's text |
| ResultPlacement.SizeIsEncodedLength | shared/execution_logger.py:139-146 | the size that decides is the length of the text's UTF-8 form |
| ResultPlacement.EncodedIsInjective | shared/execution_logger.py:139-146 | that form tells any two texts apart |
| ResultPlacement.LastResultIsShownIff | shared/handlers/executions_handlers.py:444-457 | after any run of updates with a result in it, also when updates without one follow, when exactly the reader sees the last result |
| ResultPlacement.IdleUpdateShowsOldResult | shared/execution_logger.py:139-181 | a small document, a large result, and an update without a result: the small document is shown again |
| ResultPlacement.JsonTextIsShownAsDocument | shared/handlers/executions_handlers.py:444-457 | a short text that is JSON for a document is shown as that document |
| ResultPlacement.FalseJsonTextIsNotShown | shared/handlers/executions_handlers.py:444-457 | a short text whose JSON value counts as false is not shown; the reader gets what blob storage has |
| GitHubLifecycle.GitHubIntegration.ValidateToken | functions/http/github_integration.py:247-295 | store and answer after a validation |
| GitHubLifecycle.GitHubIntegration.ConfigureRepo | functions/http/github_integration.py:105-156 | store and answer after a configuration |
| GitHubLifecycle.GitHubIntegration.DisconnectRepo | functions/http/github_integration.py:1083-1113 | store and answer after a disconnection |
| GitHubLifecycle.FreshNameIsReference | functions/http/github_integration.py:277-280 | generating the secret's name never fails, and the name is recognised as a secret reference |
| GitHubLifecycle.ReferenceNeverChanges | functions/http/github_integration.py:271-295 | in every run, with stops between writes, a secret reference once set stays the same |
| GitHubLifecycle.TokenIsTheLastWritten | functions/http/github_integration.py:60-83 | at every point of every run the token handed out is the one written last, none when disconnected or unconfigured; the reference is backed by Key Vault; configured means complete |
| GitHubLifecycle.DoneMeans | functions/http/github_integration.py:98-156 | what each successful request has changed and what it left alone |
| GitHubLifecycle.FailedGitLeavesNoTrace | functions/http/github_integration.py:136-145 | all configurations whose Git initialisation failed can be taken out of any history without changing where it leads |
| GitHubLifecycle.ValidationResumes | functions/http/github_integration.py:267-295 | a validation stopped between its two writes is completed by repeating it, under the reference there was or a new one; it ends where it would have exactly when there was a reference or the same name is generated, else the first secret is left behind |

## Left out

- HTTP plumbing, authentication, OpenAPI, and the Azure, Git, pip and Web PubSub
  calls: they appear only as writes, answers and failures.
- Module discovery, import hooks, tracing, logging handlers and script
  execution in the engine.
- The regular expressions of `extract_field_references`: any function from
  expressions to finite sets of names takes their place.
- The spelling of error messages; a cycle message is the list of its names.
- Quoting in table filters: keys and prefixes are compared as values, and what
  a quote character inside one does to a filter text is not modelled.
- `ensure_user_exists_in_db` and the user cache beside the organisation cache.
- FirstUserIsTheAdmin: does not cover provisioning calls that overlap, because two
  that both find no users would both create an administrator; each call is one
  step, or stops after creating the user.
- Stops inside `update_user_profile` and `assign_user_to_org`, and last-login and
  last-sync timestamps.
- EnsureUserProvisioned: does not cover emails that contain a colon, because a
  colon ends the email inside a row key and the lookup would cut there.
- The reverse row of an organisation assignment, orgperm:<org>:<email>, which
  provisioning never reads.
- ReferenceNeverChanges: does not cover GitHub requests that overlap, because two
  first validations would each generate a reference; requests follow one another.
- Keys of a captured dict that are not strings: remove_circular_refs passes keys
  through as they are.
- `int()` on digits other than ASCII, and the limit CPython puts on the number
  of digits it converts.
- Org-to-global fallback and listing of configurations over several
  organisations.
- Values of a result that json.loads gives for a short text but the response
  model may reject: they count as not being that text.
- Snapshots, logs and variables in blob storage, and uploads of files.
