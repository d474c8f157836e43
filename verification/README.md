# spring-data-semantic core, modelled in Dafny

This project models four parts of spring-data-semantic, a Spring Data module
over RDF stores (Sesame/openrdf), and proves properties of each.

- **Store-manager registry** (`SemanticDatabaseManager`). This is a
  process-wide map from an exact location string to one repository manager.
  - A manager is created on first use. It is remote exactly when the location
    starts with `"http"`, and it is registered only once it has initialized.
    `shutdownManager` shuts the manager down and evicts it.
  - `getRepository` reuses a repository the manager knows. Otherwise it
    refuses creation at a remote location and creates the repository locally,
    from the caller's configuration or a default one. A non-empty explicit id
    overrides the configuration's id in place.
  - Composite URLs `<base-url>/repositories/<repo-id>` are split the way
    `java.lang.String.split` does it: leftmost non-overlapping occurrences of
    the literal separator, trailing empty pieces dropped.
  - The Sesame collaborators (managers, repositories, configurations) are
    small classes in module `Sesame`. Every call to the file system, the
    network or the Turtle parser takes its outcome as a parameter, gathered
    in `Answers`.
- **Field-accessor cache** (`DelegatingFieldAccessorProvider`). This is a memo
  from type information to a property-to-accessor map. The map is built once
  per type by asking a factory for every direct property and every
  association inverse, keeping the non-null answers.
- **Exception translation** (`SemanticExceptionTranslator`). A runtime
  exception is classified by the class of its cause. A repository failure
  becomes a resource failure. A query evaluation or malformed query becomes
  API misuse. Anything else gives null.
- **MappingPolicy**. This is two flags with three named constants and
  `combineWith`. The class itself is not part of this model.
  - The constants are fixed by what `TestMappingPolicy` asserts.
  - `combineWith` is an **assumption**: dirty tracking from either side, eager
    loading only from both sides. This is the simplest definition that agrees
    with the one asserted combination. Every lemma about it beyond that
    assertion is derived from the assumption.

In the modelled methods, a Java `null` result is `Returned(null)`. A null
accessor is `None`, and an exception is `Thrown(...)` or `Threw(...)`.

The documented URL form suggests that both parts are non-empty. The code only
counts the parts of the split, though, and the model follows the code. So
`/repositories/x` is accepted with an empty base (`ParseExampleEmptyBase`), and
`base/repositories/a/repositories/` is accepted as `("base", "a")`.

## Model

| member | source | states |
|---|---|---|
| RepositoryUrl.FindFrom | src/main/java/org/springframework/data/semantic/core/SemanticDatabaseManager.java:218 | the separator occurrence found is the leftmost one at or after the start position, and none is missed |
| RepositoryUrl.Pieces | src/main/java/org/springframework/data/semantic/core/SemanticDatabaseManager.java:218 | there is at least one raw piece; with no occurrence it is the whole URL, with one there are at least two |
| RepositoryUrl.DropTrailingEmpty | src/main/java/org/springframework/data/semantic/core/SemanticDatabaseManager.java:218 | Java's split keeps a prefix of the pieces, removes only empty pieces and ends on a non-empty one |
| RepositoryUrl.Split | src/main/java/org/springframework/data/semantic/core/SemanticDatabaseManager.java:218 | `String.split`: the whole URL when the separator does not occur; otherwise the raw pieces up to the last non-empty one, everything dropped being empty; no part contains the separator |
| RepositoryUrl.ParseRepositoryUrl | src/main/java/org/springframework/data/semantic/core/SemanticDatabaseManager.java:217-221 | a rejection carries the expected-form message naming `repositories`; an accepted id is never empty |
| RepositoryUrl.JoinPieces | src/main/java/org/springframework/data/semantic/core/SemanticDatabaseManager.java:218 | the raw pieces joined with the separator give back the URL |
| RepositoryUrl.PiecesAvoidSeparator | src/main/java/org/springframework/data/semantic/core/SemanticDatabaseManager.java:218 | no piece of the split contains the separator |
| RepositoryUrl.PiecesAvoidSeparatorAll | src/main/java/org/springframework/data/semantic/core/SemanticDatabaseManager.java:218 | no raw piece of any split contains the separator, at any position |
| RepositoryUrl.AcceptedPieces | src/main/java/org/springframework/data/semantic/core/SemanticDatabaseManager.java:218-219 | an accepted URL's raw pieces are the base, the id, then only empty pieces; the base ends at the leftmost separator |
| RepositoryUrl.AcceptedShape | src/main/java/org/springframework/data/semantic/core/SemanticDatabaseManager.java:217-221 | an accepted URL is base, separator, a separator-free non-empty id, then nothing but repeated separators |
| RepositoryUrl.RoundTrip | src/main/java/org/springframework/data/semantic/core/SemanticDatabaseManager.java:217-221 | base + `/repositories/` + a non-empty id parses back to (base, id) when the separator occurs only there |
| RepositoryUrl.RejectedWithoutSeparator | src/main/java/org/springframework/data/semantic/core/SemanticDatabaseManager.java:218-220 | a URL without the separator is rejected |
| RepositoryUrl.ThreePiecesRejected | src/main/java/org/springframework/data/semantic/core/SemanticDatabaseManager.java:218-220 | for slash-free pieces x, y and a non-empty slash-free z, `x/repositories/y/repositories/z` splits into three parts and is rejected |
| RepositoryUrl.TrailingSeparatorAccepted | src/main/java/org/springframework/data/semantic/core/SemanticDatabaseManager.java:218-221 | for a slash-free base and a non-empty slash-free id, a trailing separator after the id yields an empty piece that is dropped, so the URL is accepted as (base, id) |
| RepositoryUrl.ParseExampleAccepted | src/main/java/org/springframework/data/semantic/core/SemanticDatabaseManager.java:217-221 | `base/repositories/myRepo` gives (`base`, `myRepo`) |
| RepositoryUrl.ParseExampleTwoSeparators | src/main/java/org/springframework/data/semantic/core/SemanticDatabaseManager.java:217-221 | `base/repositories/a/repositories/b` is rejected |
| RepositoryUrl.ParseExampleTrailingSeparator | src/main/java/org/springframework/data/semantic/core/SemanticDatabaseManager.java:217-221 | `base/repositories/a/repositories/` gives (`base`, `a`) |
| RepositoryUrl.ParseExampleEmptyBase | src/main/java/org/springframework/data/semantic/core/SemanticDatabaseManager.java:217-221 | `/repositories/x` gives (empty base, `x`): the leading empty piece is kept |
| RepositoryUrl.ParseExampleEmptyId | src/main/java/org/springframework/data/semantic/core/SemanticDatabaseManager.java:217-221 | `base/repositories/` is rejected: the empty id is dropped |
| RepositoryUrl.ParseExampleNoSeparator | src/main/java/org/springframework/data/semantic/core/SemanticDatabaseManager.java:217-221 | `base/myRepo` is rejected |
| Sesame.RepositoryConfig.SetId | src/main/java/org/springframework/data/semantic/core/SemanticDatabaseManager.java:166 | setID overwrites the id of the caller's configuration object |
| Sesame.Repository.Initialize | src/main/java/org/springframework/data/semantic/core/SemanticDatabaseManager.java:75 | initialize throws exactly when it fails and leaves the repository initialized when it succeeds |
| Sesame.StoreManager.Initialize | src/main/java/org/springframework/data/semantic/core/SemanticDatabaseManager.java:203 | a manager's initialize throws exactly when it fails and touches nothing else |
| Sesame.StoreManager.SetUsernameAndPassword | src/main/java/org/springframework/data/semantic/core/SemanticDatabaseManager.java:212 | the remote manager records the credentials |
| Sesame.StoreManager.ShutDown | src/main/java/org/springframework/data/semantic/core/SemanticDatabaseManager.java:126 | the manager is shut down, with its configurations and repositories unchanged |
| Sesame.StoreManager.GetRepository | src/main/java/org/springframework/data/semantic/core/SemanticDatabaseManager.java:74 | null exactly for an id without a configuration; an opened repository is returned again; a configured one is opened once |
| Sesame.StoreManager.AddRepositoryConfig | src/main/java/org/springframework/data/semantic/core/SemanticDatabaseManager.java:169 | the configuration is recorded under the id it holds at the call, or a RepositoryConfigException is thrown |
| SemanticDatabase.EffectiveId | src/main/java/org/springframework/data/semantic/core/SemanticDatabaseManager.java:164-167 | a non-empty explicit id wins over the configuration's id |
| SemanticDatabase.IsRemote | src/main/java/org/springframework/data/semantic/core/SemanticDatabaseManager.java:77 | `startsWith("http")`: remote exactly when "http" is a prefix of the location |
| SemanticDatabase.SecureIsRemote | src/main/java/org/springframework/data/semantic/core/SemanticDatabaseManager.java:184 | every `https` location is remote too |
| SemanticDatabase.SemanticDatabaseManager.constructor | src/main/java/org/springframework/data/semantic/core/SemanticDatabaseManager.java:50 | the registry starts empty |
| SemanticDatabase.SemanticDatabaseManager.CreateNewLocalRepositoryManager | src/main/java/org/springframework/data/semantic/core/SemanticDatabaseManager.java:198-205 | a new local manager for the directory, initialized, or RepositoryException |
| SemanticDatabase.SemanticDatabaseManager.CreateNewRemoteRepositoryManager | src/main/java/org/springframework/data/semantic/core/SemanticDatabaseManager.java:207-215 | a new remote manager for the URL carrying the credentials, initialized, or RepositoryException |
| SemanticDatabase.SemanticDatabaseManager.GetRepositoryManagerForLocation | src/main/java/org/springframework/data/semantic/core/SemanticDatabaseManager.java:175-196 | a registered manager is returned with the map unchanged and the credentials ignored; otherwise a fresh manager, remote iff the location starts with "http", is registered only when its initialize succeeds |
| SemanticDatabase.SemanticDatabaseManager.ShutdownManager | src/main/java/org/springframework/data/semantic/core/SemanticDatabaseManager.java:121-128 | removes only the given key, after shutting its manager down; a no-op for an unregistered key |
| SemanticDatabase.SemanticDatabaseManager.GetDefaultConfig | src/main/java/org/springframework/data/semantic/core/SemanticDatabaseManager.java:130-145 | a new configuration with the parsed content, or the parse's exception |
| SemanticDatabase.SemanticDatabaseManager.CreateRepository | src/main/java/org/springframework/data/semantic/core/SemanticDatabaseManager.java:150-173 | null config falls back to the default (null when it cannot be loaded); a non-empty id overrides the config id in place; the config is added and the repository of the final id is initialized and returned, the one already opened under that id if there was one, a fresh one otherwise; config and repository exceptions propagate; the manager's other repositories, their initialized flags and its credentials are unchanged |
| SemanticDatabase.SemanticDatabaseManager.RegisterAndOpen | src/main/java/org/springframework/data/semantic/core/SemanticDatabaseManager.java:169-172 | the configuration is recorded under the id it holds, the repository of that id is opened (the same object if it was open already) and initialized; a refused configuration changes nothing; no other repository is touched |
| SemanticDatabase.SemanticDatabaseManager.Provision | src/main/java/org/springframework/data/semantic/core/SemanticDatabaseManager.java:74-81 | corrected as in Findings: a known id is reused, the very repository already opened under it if any, with no configuration added (null if its initialize fails); a missing id at a remote location throws UnsupportedOperationException and changes nothing; locally it is created; on reuse and on refusal the caller's configuration keeps its id; the manager's other repositories, their initialized flags and its credentials are unchanged; a returned repository is initialized and, when repoId is non-empty, has the requested id |
| SemanticDatabase.SemanticDatabaseManager.ProvisionAsWritten | src/main/java/org/springframework/data/semantic/core/SemanticDatabaseManager.java:74-81 | as written: as Provision (same frame, same configuration and credential clauses, a created repository returned initialized), except that a known repository is returned even when its initialize throws, uninitialized if it was not opened before |
| SemanticDatabase.SemanticDatabaseManager.OpenOrCreate | src/main/java/org/springframework/data/semantic/core/SemanticDatabaseManager.java:72-81 | corrected: Provision with the manager registered for the location; only that manager, its repositories and the caller's configuration may change, the configuration only on creation; the registry stays valid |
| SemanticDatabase.SemanticDatabaseManager.OpenOrCreateAsWritten | src/main/java/org/springframework/data/semantic/core/SemanticDatabaseManager.java:72-81 | ProvisionAsWritten with the manager registered for the location, under the same frame; a created repository comes back initialized |
| SemanticDatabase.SemanticDatabaseManager.GetRepository | src/main/java/org/springframework/data/semantic/core/SemanticDatabaseManager.java:66-90 | corrected as in Findings: null when no manager can be obtained, with the registry and the caller's configuration unchanged; a newly built remote manager carries the call's username and password; otherwise the registry keeps every other location and gains at most this one, the manager stays registered (also when remote creation is refused) and the outcome is that of Provision against the configurations and opened repositories known before the call, so the caller's configuration changes only on creation; only the registry, that location's manager and its repositories and the caller's configuration may change; a registered manager keeps its credentials; the opened repositories other than the returned one keep their initialized flags |
| SemanticDatabase.SemanticDatabaseManager.GetRepositoryAsWritten | src/main/java/org/springframework/data/semantic/core/SemanticDatabaseManager.java:66-90 | getRepository as written, with the same registry, frame, credential, flag and configuration clauses and a created repository returned initialized, except that a stored repository is returned even when its initialize throws, uninitialized if it was not opened before |
| SemanticDatabase.SemanticDatabaseManager.GetRepositoryByUrl | src/main/java/org/springframework/data/semantic/core/SemanticDatabaseManager.java:111-114 | a malformed URL throws InvalidParameterException with the registry and the caller's configuration untouched; otherwise the registry keeps every other location and gains at most the parsed base, a newly built remote manager carries the call's credentials, a failed manager leaves the configuration as it was, and the outcome is that of GetRepository for the parsed base and id, under the same frame, with a returned repository's id equal to the parsed id |
| SemanticDatabase.RepeatedLookup | src/main/java/org/springframework/data/semantic/core/SemanticDatabaseManager.java:179-182 | a second lookup of a location returns the same manager, with the first call's credentials |
| SemanticDatabase.ReopenAfterShutdown | src/main/java/org/springframework/data/semantic/core/SemanticDatabaseManager.java:121-128 | after shutdownManager, a lookup of the same location builds a new live manager |
| SemanticDatabase.RemoteCreationRefused | src/main/java/org/springframework/data/semantic/core/SemanticDatabaseManager.java:77-78 | a missing repository at an http location throws UnsupportedOperationException, the manager stays registered, and the caller's configuration keeps its id |
| SemanticDatabase.ReuseKeepsConfig | src/main/java/org/springframework/data/semantic/core/SemanticDatabaseManager.java:74-75 | reusing a repository the manager knows leaves the caller's configuration id as it was |
| SemanticDatabase.ExplicitIdOverridesConfig | src/main/java/org/springframework/data/semantic/core/SemanticDatabaseManager.java:164-167 | the explicit id replaces the caller's config id and names the new, initialized repository |
| SemanticDatabase.UrlLookupCreates | src/main/java/org/springframework/data/semantic/core/SemanticDatabaseManager.java:111-114 | `base/repositories/myRepo` on an empty registry creates and initializes repository `myRepo` from the default configuration |
| SemanticDatabase.UrlLookupReuses | src/main/java/org/springframework/data/semantic/core/SemanticDatabaseManager.java:74-75 | a URL naming a repository the registered manager has opened returns that same object and adds no configuration |
| SemanticDatabase.UrlLookupKeepsOthers | src/main/java/org/springframework/data/semantic/core/SemanticDatabaseManager.java:111-114 | a URL lookup leaves every other registered location with the same manager |
| SemanticDatabase.LookupLeavesRestAlone | src/main/java/org/springframework/data/semantic/core/SemanticDatabaseManager.java:66-81 | getRepository at one location leaves another location's manager, the repositories already opened and the credentials as they were |
| SemanticDatabase.MalformedUrlRefused | src/main/java/org/springframework/data/semantic/core/SemanticDatabaseManager.java:111-113 | `base/myRepo` throws InvalidParameterException before any manager is created, and the caller's configuration keeps its id |
| SemanticDatabase.NewRemoteManagerGetsCredentials | src/main/java/org/springframework/data/semantic/core/SemanticDatabaseManager.java:72 | the username and password of a getRepository call end up on the remote manager it creates |
| SemanticDatabase.FailedManagerKeepsConfig | src/main/java/org/springframework/data/semantic/core/SemanticDatabaseManager.java:72 | when no manager can be obtained the result is null, nothing is registered and the caller's configuration keeps its id |
| SemanticDatabase.StoredRepositoryInitFailureAsWritten | src/main/java/org/springframework/data/semantic/core/SemanticDatabaseManager.java:74-75 | the code as written hands out an uninitialized repository when its initialize throws |
| SemanticDatabase.StoredRepositoryInitFailure | src/main/java/org/springframework/data/semantic/core/SemanticDatabaseManager.java:74-75 | the corrected code yields null in that case |
| SemanticDatabase.AsWrittenCreationInitializes | src/main/java/org/springframework/data/semantic/core/SemanticDatabaseManager.java:80 | the code as written returns a newly created repository initialized |
| FieldAccessors.Inverses | src/main/java/org/springframework/data/semantic/support/convert/access/DelegatingFieldAccessorProvider.java:45-48 | the inverse property of each association, in order |
| FieldAccessors.DelegatingFieldAccessorProvider.constructor | src/main/java/org/springframework/data/semantic/support/convert/access/DelegatingFieldAccessorProvider.java:19-23 | the cache starts empty and the factory is the one given |
| FieldAccessors.DelegatingFieldAccessorProvider.ResolvedUnique | src/main/java/org/springframework/data/semantic/support/convert/access/DelegatingFieldAccessorProvider.java:34-54 | the entity and the factory determine the accessor map |
| FieldAccessors.DelegatingFieldAccessorProvider.CollectFieldAccessors | src/main/java/org/springframework/data/semantic/support/convert/access/DelegatingFieldAccessorProvider.java:34-54 | every key is a direct property or an association inverse bound to the factory's non-null answer; every such property with a non-null answer is a key; the factory is asked for the properties, then the inverses |
| FieldAccessors.DelegatingFieldAccessorProvider.ProvideFieldAccessors | src/main/java/org/springframework/data/semantic/support/convert/access/DelegatingFieldAccessorProvider.java:26-58 | a cached type gets its cached map with no factory call and no change; on a miss the map is built as above and the only cache change is its new entry; every cache entry stays the accessor map of its entity |
| FieldAccessors.SecondCallHitsCache | src/main/java/org/springframework/data/semantic/support/convert/access/DelegatingFieldAccessorProvider.java:30-31 | two calls for one entity return the same map, the entity's accessor map, and the second leaves the cache unchanged |
| FieldAccessors.EmptyMapIsCached | src/main/java/org/springframework/data/semantic/support/convert/access/DelegatingFieldAccessorProvider.java:30-55 | a type whose map is empty is cached all the same |
| ExceptionTranslation.TranslateExceptionIfPossible | src/main/java/org/springframework/data/semantic/core/SemanticExceptionTranslator.java:18-28 | a RepositoryException cause gives a resource failure, checked first; a QueryEvaluationException or MalformedQueryException cause gives API misuse; both carry the cause and its message; no cause or any other cause gives null |
| ExceptionTranslation.OnlyCauseInspected | src/main/java/org/springframework/data/semantic/core/SemanticExceptionTranslator.java:19-23 | exceptions with the same cause translate alike, whatever their own class |
| ExceptionTranslation.TranslationKeepsCause | src/main/java/org/springframework/data/semantic/core/SemanticExceptionTranslator.java:20-25 | a translation carries the original cause and its message |
| ExceptionTranslation.OuterKindIgnored | src/main/java/org/springframework/data/semantic/core/SemanticExceptionTranslator.java:19-27 | an outer RepositoryException without a cause is not translated |
| MappingPolicies.DefaultPolicyFlags | src/test/java/org/springframework/data/semantic/mapping/TestMappingPolicy.java:12-13 | DEFAULT: no dirty tracking, eager loading |
| MappingPolicies.MapFieldDirectPolicyFlags | src/test/java/org/springframework/data/semantic/mapping/TestMappingPolicy.java:18-19 | MAP_FIELD_DIRECT: dirty tracking, eager loading |
| MappingPolicies.LazyLoadPolicyFlags | src/test/java/org/springframework/data/semantic/mapping/TestMappingPolicy.java:24-25 | LAZY_LOAD: neither |
| MappingPolicies.DirectCombinedWithLazy | src/test/java/org/springframework/data/semantic/mapping/TestMappingPolicy.java:30-32 | MAP_FIELD_DIRECT combined with LAZY_LOAD keeps dirty tracking and drops eager loading |
| MappingPolicies.MappingPolicy.CombineWith | src/test/java/org/springframework/data/semantic/mapping/TestMappingPolicy.java:30 | assumed: dirty tracking from either side, eager loading only from both |
| MappingPolicies.CombineCommutative | src/test/java/org/springframework/data/semantic/mapping/TestMappingPolicy.java:30 | derived from the assumption: the order of combination does not matter |
| MappingPolicies.CombineAssociative | src/test/java/org/springframework/data/semantic/mapping/TestMappingPolicy.java:30 | derived from the assumption: grouping does not matter |
| MappingPolicies.CombineIdempotent | src/test/java/org/springframework/data/semantic/mapping/TestMappingPolicy.java:30 | derived from the assumption: a policy combined with itself is unchanged |
| MappingPolicies.DefaultIsNeutral | src/test/java/org/springframework/data/semantic/mapping/TestMappingPolicy.java:30 | derived from the assumption: DEFAULT is the neutral element of combination |
| MappingPolicies.GeneratedByConstants | src/test/java/org/springframework/data/semantic/mapping/TestMappingPolicy.java:30 | derived from the assumption: every policy combines two of the named constants |

## Left out

- Concurrency: `synchronized` on the registry methods. The registry is one sequential object.
- Logging.
- Path and URL canonicalisation. The code does not do it, so keys are exact strings.
- Java `null` for `repoId`, for messages and for configuration ids. Strings are never null here; an empty `repoId` plays the role of "no explicit id".
- The overloads of `getRepository` without credentials or without a configuration. They pass `""` credentials and/or a `null` configuration to the modelled ones.
- Sesame internals. These are the file system and network behind managers, the Turtle parse and subject lookup in `getDefaultConfig`, and the stored configurations, which a new manager receives as `Answers.persisted`.
  - Library calls succeed or fail only as `Answers` says.
  - A failure of `manager.getRepository` itself is not modelled, for example an unreadable stored configuration.
- Sesame.StoreManager.GetRepository: a repository the manager opens is handed out uninitialized. Whatever initialization the library does while opening it is not modelled; only the explicit `initialize()` calls of the source are.
- `shutDown` does not close the manager's repositories in the model.
- Sesame.StoreManager.AddRepositoryConfig: replacing the configuration of an already opened repository does not evict the opened instance.
- Map identity in the field-accessor cache. Dafny maps are values, so the model cannot express that the cache returns the very `HashMap` it stores, or that a caller who mutates that map changes the cache.
- FieldAccessors.DelegatingFieldAccessorProvider.ProvideFieldAccessors: on a hit, the model states that the result is the accessor map of the entity the entry was built from. That the entity is the same for the same type information is the mapping context's guarantee, and the model does not capture it.
- The delegating factory is a pure function. A factory whose answers change over time is not modelled.
- The `MappingPolicy` class is not part of this model. MappingPolicies.MappingPolicy.CombineWith is an assumption; see above.

## Findings

| source | as written | input that shows it | evidently intended | confidence | as-written member | corrected member |
|---|---|---|---|---|---|---|
| src/main/java/org/springframework/data/semantic/core/SemanticDatabaseManager.java:74-75 | the lookup assigns `repo` before `initialize()`; a RepositoryException thrown by `initialize()` is caught and logged, and the assigned, uninitialized repository is returned | location `/data` whose stored configuration `stored` exists, `initialize()` of that repository throwing | null, as for every other caught failure, matching the documented "the initialized repository" | medium, not executed | SemanticDatabase.StoredRepositoryInitFailureAsWritten | SemanticDatabase.SemanticDatabaseManager.GetRepository |
