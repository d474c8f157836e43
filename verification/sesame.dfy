/** The Sesame (openrdf) collaborators of the store-manager registry, reduced
    to the state the registry observes. Every call that reaches the file
    system, the network or the Turtle parser takes its outcome as a
    parameter: `succeeds`/`accepted` say whether the library call returns
    normally or throws. */
module Sesame {

  /** A repository configuration (RepositoryConfig). The id is mutable:
      setID overwrites it in place, in the caller's own object. */
  class RepositoryConfig {
    var id: string
    /** The rest of the description (store kind, indexes, ...), opaque here. */
    const implementation: string

    constructor (id: string, implementation: string)
      ensures this.id == id && this.implementation == implementation
    {
      this.id := id;
      this.implementation := implementation;
    }

    /** RepositoryConfig.setID */
    method SetId(id: string)
      modifies this
      ensures this.id == id
    {
      this.id := id;
    }
  }

  /** A repository handle (Repository). */
  class Repository {
    const id: string
    var initialized: bool

    constructor (id: string)
      ensures this.id == id && !initialized
    {
      this.id := id;
      initialized := false;
    }

    /** Repository.initialize: `threw` is a RepositoryException. A failed
        call leaves the handle as it was. */
    method Initialize(succeeds: bool) returns (threw: bool)
      modifies this
      ensures threw == !succeeds
      ensures initialized == (old(initialized) || succeeds)
    {
      threw := !succeeds;
      if succeeds {
        initialized := true;
      }
    }
  }

  /** A repository manager (LocalRepositoryManager or RemoteRepositoryManager),
      bound to one location. */
  class StoreManager {
    const location: string
    const remote: bool
    var username: string
    var password: string
    var initialized: bool
    var isShutDown: bool
    /** Configurations the manager knows, by repository id: those stored at
        the location when it was opened and those added since. */
    var configs: map<string, string>
    /** Repositories instantiated so far, by id. */
    var repositories: map<string, Repository>

    ghost predicate Valid()
      reads this
    {
      forall id :: id in repositories ==> id in configs && repositories[id].id == id
    }

    /** `persisted` is what is already stored at the location. */
    constructor (location: string, remote: bool, persisted: map<string, string>)
      ensures Valid()
      ensures this.location == location && this.remote == remote
      ensures username == "" && password == ""
      ensures !initialized && !isShutDown
      ensures configs == persisted && repositories == map[]
    {
      this.location := location;
      this.remote := remote;
      username, password := "", "";
      initialized, isShutDown := false, false;
      configs := persisted;
      repositories := map[];
    }

    /** RemoteRepositoryManager.setUsernameAndPassword */
    method SetUsernameAndPassword(username: string, password: string)
      modifies this
      ensures this.username == username && this.password == password
      ensures initialized == old(initialized) && isShutDown == old(isShutDown)
      ensures configs == old(configs) && repositories == old(repositories)
    {
      this.username, this.password := username, password;
    }

    /** RepositoryManager.initialize: `threw` is a RepositoryException. */
    method Initialize(succeeds: bool) returns (threw: bool)
      modifies this
      ensures threw == !succeeds
      ensures initialized == (old(initialized) || succeeds)
      ensures username == old(username) && password == old(password)
      ensures isShutDown == old(isShutDown)
      ensures configs == old(configs) && repositories == old(repositories)
    {
      threw := !succeeds;
      if succeeds {
        initialized := true;
      }
    }

    /** RepositoryManager.shutDown */
    method ShutDown()
      modifies this
      ensures isShutDown
      ensures initialized == old(initialized)
      ensures username == old(username) && password == old(password)
      ensures configs == old(configs) && repositories == old(repositories)
    {
      isShutDown := true;
    }

    /** RepositoryManager.getRepository: the instantiated repository, a new
        one for a known configuration, or null for an unknown id. */
    method GetRepository(id: string) returns (r: Repository?)
      requires Valid()
      modifies this
      ensures Valid()
      ensures r != null <==> id in configs
      ensures id in old(repositories) ==> r == old(repositories[id]) && repositories == old(repositories)
      ensures id !in old(repositories) && id in configs ==>
        r != null && fresh(r) && !r.initialized && repositories == old(repositories)[id := r]
      ensures id !in configs ==> repositories == old(repositories)
      ensures r != null ==> r.id == id && id in repositories && repositories[id] == r
      ensures configs == old(configs)
      ensures username == old(username) && password == old(password)
      ensures initialized == old(initialized) && isShutDown == old(isShutDown)
    {
      if id in repositories {
        r := repositories[id];
      } else if id in configs {
        r := new Repository(id);
        repositories := repositories[id := r];
      } else {
        r := null;
      }
    }

    /** RepositoryManager.addRepositoryConfig: `threw` is a
        RepositoryConfigException. The configuration is recorded under the
        id the config object holds at the time of the call. */
    method AddRepositoryConfig(config: RepositoryConfig, accepted: bool) returns (threw: bool)
      requires Valid()
      modifies this
      ensures Valid()
      ensures threw == !accepted
      ensures configs == if accepted then old(configs)[config.id := config.implementation] else old(configs)
      ensures repositories == old(repositories)
      ensures username == old(username) && password == old(password)
      ensures initialized == old(initialized) && isShutDown == old(isShutDown)
    {
      threw := !accepted;
      if accepted {
        configs := configs[config.id := config.implementation];
      }
    }
  }
}
