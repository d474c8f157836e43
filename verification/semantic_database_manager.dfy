/** SemanticDatabaseManager: the process-wide registry of repository managers,
    one per exact location string, and the provisioning of repositories
    through them. The static state of the Java class is the one object of
    the class below; calls are sequential. */
module SemanticDatabase {

  import opened Wrappers
  import opened Sesame
  import opened RepositoryUrl

  /** The exceptions on the paths of this class. */
  datatype Failure =
    | RepositoryException
    | RepositoryConfigException
      /** any of the exceptions getDefaultConfig declares */
    | DefaultConfigException
    | UnsupportedOperationException(message: string)
    | InvalidParameterException(message: string)

  /** A call that returns a value or throws. */
  datatype Attempt<+T> = Done(value: T) | Threw(failure: Failure)

  /** What a getRepository overload gives its caller: a repository reference,
      null after a logged failure, or an unchecked exception. */
  datatype Outcome = Returned(repo: Repository?) | Thrown(failure: Failure)

  /** The content of a configuration: its id and the rest of its description. */
  datatype ConfigData = ConfigData(id: string, implementation: string)

  /** The answers the library gives to the calls one getRepository makes. */
  datatype Answers = Answers(
    /** initialize() of a newly constructed manager returns normally */
    managerInitializes: bool,
    /** configurations already stored at the location, seen by a new manager */
    persisted: map<string, string>,
    /** the parse of the bundled default configuration, or None when it throws */
    defaultConfig: Option<ConfigData>,
    /** addRepositoryConfig returns normally */
    configAccepted: bool,
    /** initialize() of the repository returns normally */
    repositoryInitializes: bool)

  const RemoteCreationMessage: string :=
    "Repository creation for remote locations is not currently supported."

  /** A location is remote when it starts with "http" (so also "https"). */
  predicate IsRemote(location: string): (remote: bool)
    ensures remote <==> "http" <= location
  {
    |location| >= 4 && location[..4] == "http"
  }

  /** Every https location is remote. */
  lemma SecureIsRemote(location: string)
    requires "https" <= location
    ensures IsRemote(location)
  {
    assert location[..4] == "https"[..4];
  }

  /** The id a new repository gets: the explicit one unless it is empty. */
  function EffectiveId(repositoryId: string, configId: string): (id: string)
    ensures repositoryId != "" ==> id == repositoryId
    ensures repositoryId == "" ==> id == configId
  {
    if repositoryId != "" then repositoryId else configId
  }

  /** The configuration createRepository works from: the caller's, or else the default. */
  ghost function Chosen(config: RepositoryConfig?, defaultConfig: Option<ConfigData>): Option<ConfigData>
    reads config
  {
    if config != null then Some(ConfigData(config.id, config.implementation)) else defaultConfig
  }

  class SemanticDatabaseManager {
    /** openRepositoryManagers: exact location string to its manager. */
    var openRepositoryManagers: map<string, StoreManager>

    /** Every registered manager is bound to its key, classified by it, and live. */
    ghost predicate Valid()
      reads this, openRepositoryManagers.Values
    {
      forall location :: location in openRepositoryManagers ==>
        && openRepositoryManagers[location].location == location
        && openRepositoryManagers[location].remote == IsRemote(location)
        && openRepositoryManagers[location].initialized
        && !openRepositoryManagers[location].isShutDown
        && openRepositoryManagers[location].Valid()
    }

    /** The configurations known for `location` before a call: those of its
        registered manager, or else those a new manager would find there. */
    ghost function KnownConfigs(location: string, persisted: map<string, string>): map<string, string>
      reads this, openRepositoryManagers.Values
    {
      if location in openRepositoryManagers then openRepositoryManagers[location].configs else persisted
    }

    /** The repositories the manager for `location` has opened, by id. */
    ghost function OpenedRepositories(location: string): map<string, Repository>
      reads this, openRepositoryManagers.Values
    {
      if location in openRepositoryManagers then openRepositoryManagers[location].repositories else map[]
    }

    /** What provisioning a repository at `location` may change besides the
        registry itself: the registered manager and the repositories it has
        opened (nothing when no manager is registered yet). */
    ghost function Footprint(location: string): set<object>
      reads this, openRepositoryManagers.Values
    {
      if location in openRepositoryManagers then
        var manager: set<object> := {openRepositoryManagers[location]};
        manager + openRepositoryManagers[location].repositories.Values
      else {}
    }

    constructor ()
      ensures Valid() && openRepositoryManagers == map[]
    {
      openRepositoryManagers := map[];
    }

    // -------------------------------------------------------------------
    // Managers

    static method CreateNewLocalRepositoryManager(baseDir: string, initializes: bool,
                                                  persisted: map<string, string>)
      returns (r: Attempt<StoreManager>)
      ensures r.Done? <==> initializes
      ensures r.Threw? ==> r.failure == RepositoryException
      ensures r.Done? ==> fresh(r.value) && r.value.Valid()
      ensures r.Done? ==> r.value.location == baseDir && !r.value.remote
      ensures r.Done? ==> r.value.initialized && !r.value.isShutDown
      ensures r.Done? ==> r.value.username == "" && r.value.password == ""
      ensures r.Done? ==> r.value.configs == persisted && r.value.repositories == map[]
    {
      var manager := new StoreManager(baseDir, false, persisted);
      var threw := manager.Initialize(initializes);
      r := if threw then Threw(RepositoryException) else Done(manager);
    }

    static method CreateNewRemoteRepositoryManager(serverUrl: string, username: string, password: string,
                                                   initializes: bool, persisted: map<string, string>)
      returns (r: Attempt<StoreManager>)
      ensures r.Done? <==> initializes
      ensures r.Threw? ==> r.failure == RepositoryException
      ensures r.Done? ==> fresh(r.value) && r.value.Valid()
      ensures r.Done? ==> r.value.location == serverUrl && r.value.remote
      ensures r.Done? ==> r.value.initialized && !r.value.isShutDown
      ensures r.Done? ==> r.value.username == username && r.value.password == password
      ensures r.Done? ==> r.value.configs == persisted && r.value.repositories == map[]
    {
      var manager := new StoreManager(serverUrl, true, persisted);
      manager.SetUsernameAndPassword(username, password);
      var threw := manager.Initialize(initializes);
      r := if threw then Threw(RepositoryException) else Done(manager);
    }

    /** Create-if-absent: a registered manager is returned as it is (the
        credentials are then ignored); otherwise a new one, remote exactly when
        the location starts with "http", is registered once it has initialized. */
    method GetRepositoryManagerForLocation(serverUrl: string, username: string, password: string,
                                           initializes: bool, persisted: map<string, string>)
      returns (r: Attempt<StoreManager>)
      requires Valid()
      modifies this
      ensures Valid()
      ensures serverUrl in old(openRepositoryManagers) ==>
        r == Done(old(openRepositoryManagers)[serverUrl])
        && openRepositoryManagers == old(openRepositoryManagers)
      ensures serverUrl !in old(openRepositoryManagers) && !initializes ==>
        r == Threw(RepositoryException) && openRepositoryManagers == old(openRepositoryManagers)
      ensures serverUrl !in old(openRepositoryManagers) && initializes ==>
        && r.Done? && fresh(r.value)
        && openRepositoryManagers == old(openRepositoryManagers)[serverUrl := r.value]
        && r.value.configs == persisted && r.value.repositories == map[]
        && (IsRemote(serverUrl) ==> r.value.username == username && r.value.password == password)
    {
      if serverUrl in openRepositoryManagers {
        return Done(openRepositoryManagers[serverUrl]);
      }
      if IsRemote(serverUrl) {
        r := CreateNewRemoteRepositoryManager(serverUrl, username, password, initializes, persisted);
      } else {
        r := CreateNewLocalRepositoryManager(serverUrl, initializes, persisted);
      }
      if r.Done? {
        openRepositoryManagers := openRepositoryManagers[serverUrl := r.value];
      }
    }

    /** shutdownManager: shut the registered manager down and forget it; a
        no-op for an unregistered location. */
    method ShutdownManager(baseUrl: string)
      requires Valid()
      modifies this, if baseUrl in openRepositoryManagers then {openRepositoryManagers[baseUrl]} else {}
      ensures Valid()
      ensures openRepositoryManagers == old(openRepositoryManagers) - {baseUrl}
      ensures baseUrl in old(openRepositoryManagers) ==> old(openRepositoryManagers)[baseUrl].isShutDown
    {
      if baseUrl !in openRepositoryManagers {
        return;
      }
      var manager := openRepositoryManagers[baseUrl];
      manager.ShutDown();
      openRepositoryManagers := openRepositoryManagers - {baseUrl};
    }

    // -------------------------------------------------------------------
    // Repositories

    /** getDefaultConfig: a new configuration parsed from the bundled
        description, or the exception the parse throws. */
    static method GetDefaultConfig(loaded: Option<ConfigData>) returns (r: Attempt<RepositoryConfig>)
      ensures loaded.None? ==> r == Threw(DefaultConfigException)
      ensures loaded.Some? ==> r.Done? && fresh(r.value)
      ensures loaded.Some? ==> r.value.id == loaded.value.id && r.value.implementation == loaded.value.implementation
    {
      if loaded.None? {
        return Threw(DefaultConfigException);
      }
      var config := new RepositoryConfig(loaded.value.id, loaded.value.implementation);
      r := Done(config);
    }

    /** createRepository: use the caller's configuration or else the default
        (null when that cannot be loaded), let a non-empty id override the
        configuration's id in place, register the configuration, and return
        the repository of the final id, initialized. */
    static method CreateRepository(manager: StoreManager, repositoryId: string,
                                   config: RepositoryConfig?, answers: Answers)
      returns (r: Attempt<Repository?>)
      requires manager.Valid()
      modifies manager, manager.repositories.Values, config
      ensures manager.Valid()
      ensures manager.username == old(manager.username) && manager.password == old(manager.password)
      ensures manager.initialized == old(manager.initialized) && manager.isShutDown == old(manager.isShutDown)
      ensures config != null ==> config.id == EffectiveId(repositoryId, old(config.id))
      ensures old(Chosen(config, answers.defaultConfig)).None? ==>
        r == Done(null) && manager.configs == old(manager.configs)
        && manager.repositories == old(manager.repositories)
      ensures old(Chosen(config, answers.defaultConfig)).Some? && !answers.configAccepted ==>
        r == Threw(RepositoryConfigException) && manager.configs == old(manager.configs)
        && manager.repositories == old(manager.repositories)
      ensures old(Chosen(config, answers.defaultConfig)).Some? && answers.configAccepted ==>
        var data := old(Chosen(config, answers.defaultConfig)).value;
        var id := EffectiveId(repositoryId, data.id);
        && manager.configs == old(manager.configs)[id := data.implementation]
        && Opens(manager, id, old(manager.repositories))
        && (id !in old(manager.repositories) ==> fresh(manager.repositories[id]))
        && r == (if answers.repositoryInitializes then Done(manager.repositories[id]) else Threw(RepositoryException))
      ensures r.Done? && r.value != null ==> r.value.initialized
      ensures forall repo :: repo in old(manager.repositories.Values) ==>
        repo.initialized == old(repo.initialized) || r == Done(repo)
    {
      var cfg: RepositoryConfig;
      if config == null {
        var loaded := GetDefaultConfig(answers.defaultConfig);
        if loaded.Threw? {
          return Done(null);
        }
        cfg := loaded.value;
      } else {
        cfg := config;
      }
      if repositoryId != "" {
        cfg.SetId(repositoryId);
      }
      var registered := RegisterAndOpen(manager, cfg, answers);
      r := if registered.Done? then Done(registered.value) else Threw(registered.failure);
    }

    /** The end of createRepository: add the configuration to the manager,
        open the repository of its id and initialize it. */
    static method RegisterAndOpen(manager: StoreManager, config: RepositoryConfig, answers: Answers)
      returns (r: Attempt<Repository>)
      requires manager.Valid()
      modifies manager, manager.repositories.Values
      ensures manager.Valid()
      ensures manager.username == old(manager.username) && manager.password == old(manager.password)
      ensures manager.initialized == old(manager.initialized) && manager.isShutDown == old(manager.isShutDown)
      ensures !answers.configAccepted ==>
        r == Threw(RepositoryConfigException) && manager.configs == old(manager.configs)
        && manager.repositories == old(manager.repositories)
      ensures answers.configAccepted ==>
        && manager.configs == old(manager.configs)[config.id := config.implementation]
        && Opens(manager, config.id, old(manager.repositories))
        && (config.id !in old(manager.repositories) ==> fresh(manager.repositories[config.id]))
        && r == (if answers.repositoryInitializes then Done(manager.repositories[config.id])
                 else Threw(RepositoryException))
      ensures r.Done? ==> r.value.initialized
      ensures forall repo :: repo in old(manager.repositories.Values) ==>
        repo.initialized == old(repo.initialized) || r == Done(repo)
    {
      var threw := manager.AddRepositoryConfig(config, answers.configAccepted);
      if threw {
        return Threw(RepositoryConfigException);
      }
      var repo := manager.GetRepository(config.id);
      threw := repo.Initialize(answers.repositoryInitializes);
      r := if threw then Threw(RepositoryException) else Done(repo);
    }

    /** The part of getRepository after the manager for `baseUrl` is obtained:
        reuse the repository `repoId` if the manager knows it, refuse to create
        one at a remote location, and create one locally otherwise. A failed
        library call yields null; a returned repository is initialized. */
    static method Provision(manager: StoreManager, baseUrl: string, repoId: string,
                            config: RepositoryConfig?, answers: Answers)
      returns (r: Outcome)
      requires manager.Valid()
      modifies manager, manager.repositories.Values, config
      ensures manager.Valid()
      ensures manager.initialized == old(manager.initialized) && manager.isShutDown == old(manager.isShutDown)
      ensures manager.username == old(manager.username) && manager.password == old(manager.password)
      ensures Provisioned(manager, baseUrl, repoId, config, old(manager.configs), old(manager.repositories),
                          old(Chosen(config, answers.defaultConfig)), answers, r)
      ensures forall repo :: repo in old(manager.repositories.Values) ==>
        repo.initialized == old(repo.initialized) || r == Returned(repo)
      ensures r.Returned? && r.repo != null ==> r.repo.initialized
      ensures r.Returned? && r.repo != null && repoId != "" ==> r.repo.id == repoId
    {
      var repo := manager.GetRepository(repoId);
      if repo != null {
        var threw := repo.Initialize(answers.repositoryInitializes);
        r := if threw then Returned(null) else Returned(repo);
      } else if IsRemote(baseUrl) {
        r := Thrown(UnsupportedOperationException(RemoteCreationMessage));
      } else {
        var created := CreateRepository(manager, repoId, config, answers);
        r := if created.Done? then Returned(created.value) else Returned(null);
      }
    }

    /** Provision as the source has it: when initialize() of an existing
        repository throws, the exception is caught and logged, and the
        repository, already assigned, is still returned. */
    static method ProvisionAsWritten(manager: StoreManager, baseUrl: string, repoId: string,
                                      config: RepositoryConfig?, answers: Answers)
      returns (r: Outcome)
      requires manager.Valid()
      modifies manager, manager.repositories.Values, config
      ensures manager.Valid()
      ensures manager.initialized == old(manager.initialized) && manager.isShutDown == old(manager.isShutDown)
      ensures manager.username == old(manager.username) && manager.password == old(manager.password)
      ensures ProvisionedAsWritten(manager, baseUrl, repoId, config, old(manager.configs), old(manager.repositories),
                                   old(Chosen(config, answers.defaultConfig)), answers, r)
      ensures forall repo :: repo in old(manager.repositories.Values) ==>
        repo.initialized == old(repo.initialized) || r == Returned(repo)
      ensures repoId in old(manager.configs) ==>
        && (answers.repositoryInitializes ==> r.repo.initialized)
        && (!answers.repositoryInitializes && repoId !in old(manager.repositories) ==> !r.repo.initialized)
      ensures repoId !in old(manager.configs) && r.Returned? && r.repo != null ==> r.repo.initialized
    {
      var repo := manager.GetRepository(repoId);
      if repo != null {
        var threw := repo.Initialize(answers.repositoryInitializes);
        r := Returned(repo);
      } else if IsRemote(baseUrl) {
        r := Thrown(UnsupportedOperationException(RemoteCreationMessage));
      } else {
        var created := CreateRepository(manager, repoId, config, answers);
        r := if created.Done? then Returned(created.value) else Returned(null);
      }
    }

    /** Provision at a registered location: only the manager registered there,
        its repositories and the caller's configuration change. */
    method OpenOrCreate(baseUrl: string, repoId: string, config: RepositoryConfig?, answers: Answers)
      returns (r: Outcome)
      requires Valid() && baseUrl in openRepositoryManagers
      modifies openRepositoryManagers[baseUrl], openRepositoryManagers[baseUrl].repositories.Values, config
      ensures Valid()
      ensures Provisioned(openRepositoryManagers[baseUrl], baseUrl, repoId, config,
                          old(openRepositoryManagers[baseUrl].configs), old(openRepositoryManagers[baseUrl].repositories),
                          old(Chosen(config, answers.defaultConfig)), answers, r)
      ensures openRepositoryManagers[baseUrl].username == old(openRepositoryManagers[baseUrl].username)
      ensures openRepositoryManagers[baseUrl].password == old(openRepositoryManagers[baseUrl].password)
      ensures forall repo :: repo in old(openRepositoryManagers[baseUrl].repositories.Values) ==>
        repo.initialized == old(repo.initialized) || r == Returned(repo)
      ensures r.Returned? && r.repo != null ==> r.repo.initialized
      ensures r.Returned? && r.repo != null && repoId != "" ==> r.repo.id == repoId
    {
      var manager := openRepositoryManagers[baseUrl];
      r := Provision(manager, baseUrl, repoId, config, answers);
      forall location | location in openRepositoryManagers && location != baseUrl
        ensures openRepositoryManagers[location] != manager
      {
        assert openRepositoryManagers[location].location == location;
      }
    }

    /** ProvisionAsWritten at a registered location. */
    method OpenOrCreateAsWritten(baseUrl: string, repoId: string, config: RepositoryConfig?, answers: Answers)
      returns (r: Outcome)
      requires Valid() && baseUrl in openRepositoryManagers
      modifies openRepositoryManagers[baseUrl], openRepositoryManagers[baseUrl].repositories.Values, config
      ensures Valid()
      ensures ProvisionedAsWritten(openRepositoryManagers[baseUrl], baseUrl, repoId, config,
                                   old(openRepositoryManagers[baseUrl].configs),
                                   old(openRepositoryManagers[baseUrl].repositories),
                                   old(Chosen(config, answers.defaultConfig)), answers, r)
      ensures openRepositoryManagers[baseUrl].username == old(openRepositoryManagers[baseUrl].username)
      ensures openRepositoryManagers[baseUrl].password == old(openRepositoryManagers[baseUrl].password)
      ensures forall repo :: repo in old(openRepositoryManagers[baseUrl].repositories.Values) ==>
        repo.initialized == old(repo.initialized) || r == Returned(repo)
      ensures repoId in old(openRepositoryManagers[baseUrl].configs) ==>
        && (answers.repositoryInitializes ==> r.repo.initialized)
        && (!answers.repositoryInitializes && repoId !in old(openRepositoryManagers[baseUrl].repositories) ==>
              !r.repo.initialized)
      ensures repoId !in old(openRepositoryManagers[baseUrl].configs) && r.Returned? && r.repo != null ==>
        r.repo.initialized
    {
      var manager := openRepositoryManagers[baseUrl];
      r := ProvisionAsWritten(manager, baseUrl, repoId, config, answers);
      forall location | location in openRepositoryManagers && location != baseUrl
        ensures openRepositoryManagers[location] != manager
      {
        assert openRepositoryManagers[location].location == location;
      }
    }

    /** getRepository(baseURL, repoId, username, password, config): obtain the
        manager for `baseUrl` (a failure yields null), then open or create the
        repository. The manager stays registered whatever happens next, also
        when remote creation is refused. A returned repository is initialized. */
    method GetRepository(baseUrl: string, repoId: string, username: string, password: string,
                         config: RepositoryConfig?, answers: Answers)
      returns (r: Outcome)
      requires Valid()
      modifies this, config, Footprint(baseUrl)
      ensures Valid()
      ensures baseUrl !in old(openRepositoryManagers) && !answers.managerInitializes ==>
        && r == Returned(null) && openRepositoryManagers == old(openRepositoryManagers)
        && (config != null ==> config.id == old(config.id))
      ensures baseUrl !in old(openRepositoryManagers) && answers.managerInitializes && IsRemote(baseUrl) ==>
        && baseUrl in openRepositoryManagers
        && openRepositoryManagers[baseUrl].username == username
        && openRepositoryManagers[baseUrl].password == password
      ensures baseUrl in old(openRepositoryManagers) ==>
        openRepositoryManagers == old(openRepositoryManagers)
      ensures baseUrl !in old(openRepositoryManagers) && answers.managerInitializes ==>
        && baseUrl in openRepositoryManagers && fresh(openRepositoryManagers[baseUrl])
        && openRepositoryManagers == old(openRepositoryManagers)[baseUrl := openRepositoryManagers[baseUrl]]
      ensures baseUrl in old(openRepositoryManagers) || answers.managerInitializes ==>
        Provisioned(openRepositoryManagers[baseUrl], baseUrl, repoId, config,
                    old(KnownConfigs(baseUrl, answers.persisted)), old(OpenedRepositories(baseUrl)),
                    old(Chosen(config, answers.defaultConfig)), answers, r)
      ensures baseUrl in old(openRepositoryManagers) ==>
        && openRepositoryManagers[baseUrl].username == old(openRepositoryManagers[baseUrl].username)
        && openRepositoryManagers[baseUrl].password == old(openRepositoryManagers[baseUrl].password)
      ensures forall repo :: repo in old(OpenedRepositories(baseUrl).Values) ==>
        repo.initialized == old(repo.initialized) || r == Returned(repo)
      ensures r.Returned? && r.repo != null ==> r.repo.initialized
      ensures r.Returned? && r.repo != null && repoId != "" ==> r.repo.id == repoId
    {
      ghost var footprint := Footprint(baseUrl);
      var lookup := GetRepositoryManagerForLocation(baseUrl, username, password,
                                                    answers.managerInitializes, answers.persisted);
      if lookup.Threw? {
        return Returned(null);
      }
      assert !fresh(lookup.value) ==> lookup.value.repositories.Values <= footprint;
      r := OpenOrCreate(baseUrl, repoId, config, answers);
    }

    /** GetRepository as the source has it (see OpenOrCreateAsWritten): an
        existing repository whose initialize() throws is returned anyway. */
    method GetRepositoryAsWritten(baseUrl: string, repoId: string, username: string, password: string,
                                  config: RepositoryConfig?, answers: Answers)
      returns (r: Outcome)
      requires Valid()
      modifies this, config, Footprint(baseUrl)
      ensures Valid()
      ensures baseUrl !in old(openRepositoryManagers) && !answers.managerInitializes ==>
        && r == Returned(null) && openRepositoryManagers == old(openRepositoryManagers)
        && (config != null ==> config.id == old(config.id))
      ensures baseUrl !in old(openRepositoryManagers) && answers.managerInitializes && IsRemote(baseUrl) ==>
        && baseUrl in openRepositoryManagers
        && openRepositoryManagers[baseUrl].username == username
        && openRepositoryManagers[baseUrl].password == password
      ensures baseUrl in old(openRepositoryManagers) ==>
        openRepositoryManagers == old(openRepositoryManagers)
      ensures baseUrl !in old(openRepositoryManagers) && answers.managerInitializes ==>
        && baseUrl in openRepositoryManagers && fresh(openRepositoryManagers[baseUrl])
        && openRepositoryManagers == old(openRepositoryManagers)[baseUrl := openRepositoryManagers[baseUrl]]
      ensures baseUrl in old(openRepositoryManagers) || answers.managerInitializes ==>
        ProvisionedAsWritten(openRepositoryManagers[baseUrl], baseUrl, repoId, config,
                             old(KnownConfigs(baseUrl, answers.persisted)), old(OpenedRepositories(baseUrl)),
                             old(Chosen(config, answers.defaultConfig)), answers, r)
      ensures (baseUrl in old(openRepositoryManagers) || answers.managerInitializes)
              && repoId in old(KnownConfigs(baseUrl, answers.persisted)) ==>
        && (answers.repositoryInitializes ==> r.repo.initialized)
        && (!answers.repositoryInitializes && repoId !in old(OpenedRepositories(baseUrl)) ==> !r.repo.initialized)
      ensures repoId !in old(KnownConfigs(baseUrl, answers.persisted)) && r.Returned? && r.repo != null ==>
        r.repo.initialized
      ensures baseUrl in old(openRepositoryManagers) ==>
        && openRepositoryManagers[baseUrl].username == old(openRepositoryManagers[baseUrl].username)
        && openRepositoryManagers[baseUrl].password == old(openRepositoryManagers[baseUrl].password)
      ensures forall repo :: repo in old(OpenedRepositories(baseUrl).Values) ==>
        repo.initialized == old(repo.initialized) || r == Returned(repo)
    {
      ghost var footprint := Footprint(baseUrl);
      var lookup := GetRepositoryManagerForLocation(baseUrl, username, password,
                                                    answers.managerInitializes, answers.persisted);
      if lookup.Threw? {
        return Returned(null);
      }
      assert !fresh(lookup.value) ==> lookup.value.repositories.Values <= footprint;
      r := OpenOrCreateAsWritten(baseUrl, repoId, config, answers);
    }

    /** getRepository(repoURL, username, password, config): split the
        composite URL (a malformed one throws InvalidParameterException before
        anything else happens) and open the repository it names. The parsed id
        is never empty, so it always decides the repository's id. */
    method GetRepositoryByUrl(repoUrl: string, username: string, password: string,
                              config: RepositoryConfig?, answers: Answers)
      returns (r: Outcome)
      requires Valid()
      modifies this, config, var parts := ParseRepositoryUrl(repoUrl); if parts.Parts? then Footprint(parts.baseUrl) else {}
      ensures Valid()
      ensures var parts := ParseRepositoryUrl(repoUrl);
        && (parts.InvalidParameter? ==>
              && r == Thrown(InvalidParameterException(ExpectedForm))
              && openRepositoryManagers == old(openRepositoryManagers)
              && (config != null ==> config.id == old(config.id)))
        && (parts.Parts? && !old(parts.baseUrl in openRepositoryManagers) && !answers.managerInitializes ==>
              && r == Returned(null) && openRepositoryManagers == old(openRepositoryManagers)
              && (config != null ==> config.id == old(config.id)))
        && (parts.Parts? && !old(parts.baseUrl in openRepositoryManagers) && answers.managerInitializes
            && IsRemote(parts.baseUrl) ==>
              && parts.baseUrl in openRepositoryManagers
              && openRepositoryManagers[parts.baseUrl].username == username
              && openRepositoryManagers[parts.baseUrl].password == password)
        && (parts.Parts? && old(parts.baseUrl in openRepositoryManagers) ==>
              openRepositoryManagers == old(openRepositoryManagers))
        && (parts.Parts? && !old(parts.baseUrl in openRepositoryManagers) && answers.managerInitializes ==>
              && parts.baseUrl in openRepositoryManagers
              && openRepositoryManagers == old(openRepositoryManagers)[parts.baseUrl := openRepositoryManagers[parts.baseUrl]])
        && (parts.Parts? && (old(parts.baseUrl in openRepositoryManagers) || answers.managerInitializes) ==>
              && parts.baseUrl in openRepositoryManagers
              && Provisioned(openRepositoryManagers[parts.baseUrl], parts.baseUrl, parts.repoId, config,
                             old(KnownConfigs(parts.baseUrl, answers.persisted)),
                             old(OpenedRepositories(parts.baseUrl)),
                             old(Chosen(config, answers.defaultConfig)), answers, r))
        && (parts.Parts? && old(parts.baseUrl in openRepositoryManagers) ==>
              && openRepositoryManagers[parts.baseUrl].username == old(openRepositoryManagers[parts.baseUrl].username)
              && openRepositoryManagers[parts.baseUrl].password == old(openRepositoryManagers[parts.baseUrl].password))
        && (parts.Parts? ==> forall repo :: repo in old(OpenedRepositories(parts.baseUrl).Values) ==>
              repo.initialized == old(repo.initialized) || r == Returned(repo))
        && (r.Returned? && r.repo != null ==> r.repo.initialized && r.repo.id == parts.repoId)
    {
      var parts := ParseRepositoryUrl(repoUrl);
      if parts.InvalidParameter? {
        return Thrown(InvalidParameterException(parts.message));
      }
      r := GetRepository(parts.baseUrl, parts.repoId, username, password, config, answers);
    }
  }

  /** What getRepository leaves behind once it has the manager, for `known`
      and `instances` the manager's configurations and opened repositories and
      `chosen` the configuration in use before the call: a repository the
      manager knows is reused (the one already opened, if any), or null when
      its initialize() throws, and no configuration is added; a missing one
      is refused at a remote location and created at a local one. */
  ghost predicate Provisioned(manager: StoreManager, baseUrl: string, repoId: string, config: RepositoryConfig?,
                              known: map<string, string>, instances: map<string, Repository>,
                              chosen: Option<ConfigData>, answers: Answers, r: Outcome)
    reads manager, config
  {
    && (repoId in known ==>
          && manager.configs == known
          && Opens(manager, repoId, instances)
          && Untouched(config, chosen)
          && r == (if answers.repositoryInitializes then Returned(manager.repositories[repoId]) else Returned(null)))
    && (repoId !in known && IsRemote(baseUrl) ==>
          && r == Thrown(UnsupportedOperationException(RemoteCreationMessage))
          && manager.configs == known && manager.repositories == instances
          && Untouched(config, chosen))
    && (repoId !in known && !IsRemote(baseUrl) ==>
          Created(manager, repoId, config, known, instances, chosen, answers, r))
  }

  /** Provisioned as the source has it: a repository the manager knows is
      returned whether or not its initialize() threw. */
  ghost predicate ProvisionedAsWritten(manager: StoreManager, baseUrl: string, repoId: string, config: RepositoryConfig?,
                                       known: map<string, string>, instances: map<string, Repository>,
                                       chosen: Option<ConfigData>, answers: Answers, r: Outcome)
    reads manager, config
  {
    && (repoId in known ==>
          && manager.configs == known
          && Opens(manager, repoId, instances)
          && Untouched(config, chosen)
          && r == Returned(manager.repositories[repoId]))
    && (repoId !in known && IsRemote(baseUrl) ==>
          && r == Thrown(UnsupportedOperationException(RemoteCreationMessage))
          && manager.configs == known && manager.repositories == instances
          && Untouched(config, chosen))
    && (repoId !in known && !IsRemote(baseUrl) ==>
          Created(manager, repoId, config, known, instances, chosen, answers, r))
  }

  /** The caller's configuration, if any, still has the id it had before the
      call, `chosen` being its content then. */
  ghost predicate Untouched(config: RepositoryConfig?, chosen: Option<ConfigData>)
    reads config
  {
    config != null && chosen.Some? ==> config.id == chosen.value.id
  }

  /** The manager's opened repositories are `instances` plus the one for
      `id`, which is the one already opened under `id` if there was one. */
  ghost predicate Opens(manager: StoreManager, id: string, instances: map<string, Repository>)
    reads manager
  {
    && id in manager.repositories
    && manager.repositories == instances[id := manager.repositories[id]]
    && (id in instances ==> manager.repositories[id] == instances[id])
  }

  /** What local creation leaves behind, for `known` and `instances` the
      manager's configurations and opened repositories and `chosen` the
      configuration in use before the call: a non-empty `repoId` has
      overwritten the caller's config id, the configuration is registered and
      its repository opened under the effective id when the manager accepts
      it, and the result is that repository once initialized, or null after
      any failure. */
  ghost predicate Created(manager: StoreManager, repoId: string, config: RepositoryConfig?,
                          known: map<string, string>, instances: map<string, Repository>,
                          chosen: Option<ConfigData>, answers: Answers, r: Outcome)
    reads manager, config
  {
    && (config != null && chosen.Some? ==> config.id == EffectiveId(repoId, chosen.value.id))
    && (chosen.None? ==> r == Returned(null) && manager.configs == known && manager.repositories == instances)
    && (chosen.Some? && !answers.configAccepted ==>
          r == Returned(null) && manager.configs == known && manager.repositories == instances)
    && (chosen.Some? && answers.configAccepted ==>
          var id := EffectiveId(repoId, chosen.value.id);
          && manager.configs == known[id := chosen.value.implementation]
          && Opens(manager, id, instances)
          && r == (if answers.repositoryInitializes then Returned(manager.repositories[id]) else Returned(null)))
  }
  // ---------------------------------------------------------------------
  // Call sequences on a fresh registry

  /** One location, one manager: a second lookup returns the registered one
      and ignores the new credentials. */
  method RepeatedLookup() returns (first: StoreManager, second: StoreManager)
    ensures first == second
    ensures first.username == "alice" && first.password == "secret"
  {
    var registry := new SemanticDatabaseManager();
    var a := registry.GetRepositoryManagerForLocation("http://host", "alice", "secret", true, map[]);
    var b := registry.GetRepositoryManagerForLocation("http://host", "bob", "other", true, map[]);
    first, second := a.value, b.value;
  }

  /** After shutdownManager the location is free again: the next lookup
      builds a new, live manager, and the old one stays shut down. */
  method ReopenAfterShutdown() returns (first: StoreManager, second: StoreManager)
    ensures first != second
    ensures first.isShutDown && !second.isShutDown && second.initialized
  {
    var registry := new SemanticDatabaseManager();
    var a := registry.GetRepositoryManagerForLocation("/data", "", "", true, map[]);
    registry.ShutdownManager("/data");
    var b := registry.GetRepositoryManagerForLocation("/data", "", "", true, map[]);
    first, second := a.value, b.value;
  }

  /** A remote location never gets a new repository, its manager stays
      registered after the refusal, and the caller's configuration keeps its id. */
  method RemoteCreationRefused() returns (r: Outcome, registered: bool, configId: string)
    ensures r == Thrown(UnsupportedOperationException(RemoteCreationMessage))
    ensures registered
    ensures configId == "theirs"
  {
    var registry := new SemanticDatabaseManager();
    var config := new RepositoryConfig("theirs", "memory");
    var answers := Answers(true, map[], None, true, true);
    r := registry.GetRepository("http://host", "id", "", "", config, answers);
    registered := "http://host" in registry.openRepositoryManagers;
    configId := config.id;
  }

  /** Reusing a repository the manager knows leaves the caller's configuration
      as it was: only creation applies an explicit id to it. */
  method ReuseKeepsConfig(registry: SemanticDatabaseManager, config: RepositoryConfig, answers: Answers)
    returns (r: Outcome)
    requires registry.Valid() && "base" in registry.openRepositoryManagers
    requires "myRepo" in registry.openRepositoryManagers["base"].configs
    modifies registry, config, registry.Footprint("base")
    ensures config.id == old(config.id)
  {
    r := registry.GetRepository("base", "myRepo", "", "", config, answers);
  }

  /** An explicit repository id overrides the id of the caller's configuration,
      in the caller's own object, and names the new repository. */
  method ExplicitIdOverridesConfig() returns (r: Outcome, configId: string)
    ensures configId == "mine"
    ensures r.Returned? && r.repo != null && r.repo.id == "mine" && r.repo.initialized
  {
    var registry := new SemanticDatabaseManager();
    var config := new RepositoryConfig("theirs", "memory");
    var answers := Answers(true, map[], None, true, true);
    assert "/data"[..4][0] != "http"[0];
    r := registry.GetRepository("/data", "mine", "", "", config, answers);
    configId := config.id;
  }

  /** A composite URL opens the repository it names: a fresh registry with a
      loadable default configuration yields an initialized repository of the
      id in the URL, registered under that id with the default's description. */
  method UrlLookupCreates() returns (r: Outcome, configs: map<string, string>)
    ensures r.Returned? && r.repo != null && r.repo.id == "myRepo" && r.repo.initialized
    ensures configs == map["myRepo" := "memory"]
  {
    var registry := new SemanticDatabaseManager();
    ParseExampleAccepted();
    assert "base"[..4][0] != "http"[0];
    var answers := Answers(true, map[], Some(ConfigData("default", "memory")), true, true);
    r := registry.GetRepositoryByUrl("base/repositories/myRepo", "", "", null, answers);
    configs := registry.openRepositoryManagers["base"].configs;
  }

  /** A composite URL naming a repository the registered manager has already
      opened returns that same repository object, and adds no configuration. */
  method UrlLookupReuses(registry: SemanticDatabaseManager, answers: Answers) returns (r: Outcome)
    requires registry.Valid() && "base" in registry.openRepositoryManagers
    requires "myRepo" in registry.openRepositoryManagers["base"].repositories
    requires answers.repositoryInitializes
    modifies registry, registry.Footprint("base")
    ensures r == Returned(old(registry.openRepositoryManagers["base"].repositories["myRepo"]))
    ensures "base" in registry.openRepositoryManagers
    ensures registry.openRepositoryManagers["base"].configs == old(registry.openRepositoryManagers["base"].configs)
  {
    ParseExampleAccepted();
    r := registry.GetRepositoryByUrl("base/repositories/myRepo", "", "", null, answers);
  }

  /** getRepository at one registered location leaves every other location's
      manager as it was, keeps the repositories its own manager had opened,
      and keeps that manager's credentials. */
  method LookupLeavesRestAlone(registry: SemanticDatabaseManager, baseUrl: string, other: string,
                               repoId: string, answers: Answers)
    returns (r: Outcome)
    requires registry.Valid() && baseUrl in registry.openRepositoryManagers
    requires other in registry.openRepositoryManagers && other != baseUrl
    modifies registry, registry.Footprint(baseUrl)
    ensures other in registry.openRepositoryManagers && baseUrl in registry.openRepositoryManagers
    ensures registry.openRepositoryManagers[other].configs == old(registry.openRepositoryManagers[other].configs)
    ensures registry.openRepositoryManagers[other].repositories
            == old(registry.openRepositoryManagers[other].repositories)
    ensures forall id :: id in old(registry.openRepositoryManagers[baseUrl].repositories) ==>
      && id in registry.openRepositoryManagers[baseUrl].repositories
      && registry.openRepositoryManagers[baseUrl].repositories[id]
         == old(registry.openRepositoryManagers[baseUrl].repositories[id])
    ensures registry.openRepositoryManagers[baseUrl].username == old(registry.openRepositoryManagers[baseUrl].username)
  {
    r := registry.GetRepository(baseUrl, repoId, "someone", "secret", null, answers);
  }

  /** A composite URL touches only the location it names: every other
      registered location keeps its manager, whether or not `base` was
      registered before. */
  method UrlLookupKeepsOthers(registry: SemanticDatabaseManager, other: string, answers: Answers)
    returns (r: Outcome)
    requires registry.Valid() && other in registry.openRepositoryManagers && other != "base"
    modifies registry, registry.Footprint("base")
    ensures other in registry.openRepositoryManagers
    ensures registry.openRepositoryManagers[other] == old(registry.openRepositoryManagers[other])
  {
    ParseExampleAccepted();
    r := registry.GetRepositoryByUrl("base/repositories/myRepo", "", "", null, answers);
  }

  /** The source's getRepository also hands back a newly created repository
      initialized: only a stored one can come back uninitialized. */
  method AsWrittenCreationInitializes() returns (r: Outcome)
    ensures r.Returned? && r.repo != null && r.repo.id == "mine" && r.repo.initialized
  {
    var registry := new SemanticDatabaseManager();
    var answers := Answers(true, map[], Some(ConfigData("default", "memory")), true, true);
    assert "/data"[..4][0] != "http"[0];
    r := registry.GetRepositoryAsWritten("/data", "mine", "", "", null, answers);
  }

  /** A malformed composite URL is refused before any manager is created,
      and the caller's configuration keeps its id. */
  method MalformedUrlRefused() returns (r: Outcome, managers: nat, configId: string)
    ensures r == Thrown(InvalidParameterException(ExpectedForm))
    ensures managers == 0
    ensures configId == "theirs"
  {
    var registry := new SemanticDatabaseManager();
    ParseExampleNoSeparator();
    var config := new RepositoryConfig("theirs", "memory");
    var answers := Answers(true, map[], None, true, true);
    r := registry.GetRepositoryByUrl("base/myRepo", "", "", config, answers);
    managers := |registry.openRepositoryManagers|;
    configId := config.id;
  }

  /** The credentials of the call reach the remote manager it creates. */
  method NewRemoteManagerGetsCredentials() returns (username: string, password: string)
    ensures username == "alice" && password == "pw"
  {
    var registry := new SemanticDatabaseManager();
    var answers := Answers(true, map["id" := "memory"], None, true, true);
    assert "http://h"[..4] == "http";
    var r := registry.GetRepository("http://h", "id", "alice", "pw", null, answers);
    username := registry.openRepositoryManagers["http://h"].username;
    password := registry.openRepositoryManagers["http://h"].password;
  }

  /** When no manager can be obtained, the call yields null, registers
      nothing, and leaves the caller's configuration as it was. */
  method FailedManagerKeepsConfig() returns (r: Outcome, managers: nat, configId: string)
    ensures r == Returned(null)
    ensures managers == 0
    ensures configId == "theirs"
  {
    var registry := new SemanticDatabaseManager();
    var config := new RepositoryConfig("theirs", "memory");
    var answers := Answers(false, map[], None, true, true);
    r := registry.GetRepository("/data", "mine", "", "", config, answers);
    managers := |registry.openRepositoryManagers|;
    configId := config.id;
  }


  /** The source's getRepository on a stored repository whose initialize()
      throws: the uninitialized repository reaches the caller. */
  method StoredRepositoryInitFailureAsWritten() returns (r: Outcome)
    ensures r.Returned? && r.repo != null && !r.repo.initialized
  {
    var registry := new SemanticDatabaseManager();
    var answers := Answers(true, map["stored" := "memory"], None, true, false);
    r := registry.GetRepositoryAsWritten("/data", "stored", "", "", null, answers);
  }

  /** The same call with the corrected getRepository yields null. */
  method StoredRepositoryInitFailure() returns (r: Outcome)
    ensures r == Returned(null)
  {
    var registry := new SemanticDatabaseManager();
    var answers := Answers(true, map["stored" := "memory"], None, true, false);
    r := registry.GetRepository("/data", "stored", "", "", null, answers);
  }
}
