/**
 * The dependency container: repositories and services looked up by the name
 * of their class, overrides that take precedence, app-scoped caching of
 * services built without arguments, temporary overrides that are undone
 * afterwards, shared values built once per key, and the process-wide
 * singleton container.
 *
 * Classes are named by their `__name__` strings, objects are abstract
 * `Instance` values, and constructors and factories are function parameters
 * whose `Failure` stands for the exception they raise. The locks are not
 * modelled: every operation is atomic.
 */
module Container {
  import opened Wrappers

  /** An object (a repository, a service, a session, a mock, a shared value), by identity. */
  datatype Instance = Instance(id: nat)

  /** Keyword arguments handed to a constructor. */
  type Kwargs = map<string, Instance>

  /** A repository class: called with the session when one is given, and the keyword arguments. */
  type RepositoryClass = (Option<Instance>, Kwargs) -> Result<Instance, string>

  /** A service class, called with the keyword arguments. */
  type ServiceClass = Kwargs -> Result<Instance, string>

  /**
   * The `RuntimeError` the container raises around a failing constructor:
   * "Failed to create <kind> <name>: <message>"; a success is passed through.
   */
  function Wrapped(kind: string, typeName: string, outcome: Result<Instance, string>): (r: Result<Instance, string>)
    ensures outcome.Success? <==> r.Success?
    ensures outcome.Success? ==> r == outcome
    ensures outcome.Failure? ==> r.error == "Failed to create " + kind + " " + typeName + ": " + outcome.error
  {
    match outcome
    case Success(i) => Success(i)
    case Failure(e) => Failure("Failed to create " + kind + " " + typeName + ": " + e)
  }

  // ---------------------------------------------------------------------------
  // Substring test: `'Service' in name`
  // ---------------------------------------------------------------------------

  /** Whether `sub` occurs in `s` starting at index `i`. */
  predicate OccursAt(s: string, sub: string, i: nat)
  {
    i + |sub| <= |s| && s[i..i + |sub|] == sub
  }

  /** Python's `sub in s` on strings. */
  function Contains(s: string, sub: string): bool
    decreases |s|
  {
    |sub| <= |s| && (s[..|sub|] == sub || Contains(s[1..], sub))
  }

  lemma {:induction false} ContainsIffOccurs(s: string, sub: string)
    ensures Contains(s, sub) <==> exists i: nat :: OccursAt(s, sub, i)
    decreases |s|
  {
    if |sub| <= |s| {
      if s[..|sub|] == sub {
        assert OccursAt(s, sub, 0);
      } else {
        ContainsIffOccurs(s[1..], sub);
        if Contains(s[1..], sub) {
          var i: nat :| OccursAt(s[1..], sub, i);
          assert s[1..][i..i + |sub|] == s[i + 1..i + 1 + |sub|];
          assert OccursAt(s, sub, i + 1);
        } else if exists i: nat :: OccursAt(s, sub, i) {
          var i: nat :| OccursAt(s, sub, i);
          if i > 0 {
            assert s[1..][i - 1..i - 1 + |sub|] == s[i..i + |sub|];
            assert OccursAt(s[1..], sub, i - 1);
          }
        }
      }
    }
  }

  // ---------------------------------------------------------------------------
  // temporary_override, as values
  // ---------------------------------------------------------------------------

  /** The two override tables of a container. */
  datatype Registrations = Registrations(repositories: map<string, Instance>, services: map<string, Instance>)

  /** What `temporary_override` remembers between entering and leaving its block. */
  datatype OverrideToken = OverrideToken(key: string, original: Option<Instance>, isService: bool)

  datatype Entered = Entered(tables: Registrations, token: OverrideToken)

  /** The table a token's key lives in. */
  function TableOf(t: Registrations, isService: bool): map<string, Instance>
  {
    if isService then t.services else t.repositories
  }

  /**
   * Entering `temporary_override(type, instance)`: an existing service entry
   * is replaced first, then an existing repository entry; a name in neither
   * table goes to the services exactly when it contains "Service".
   */
  function EnterOverride(t: Registrations, key: string, instance: Instance): (e: Entered)
    ensures e.token.key == key
    ensures e.token.isService <==> key in t.services || (key !in t.repositories && Contains(key, "Service"))
    ensures e.token.original.Some? <==> key in t.services || key in t.repositories
    ensures e.token.original.Some? ==> e.token.original.value == TableOf(t, e.token.isService)[key]
    ensures TableOf(e.tables, e.token.isService) == TableOf(t, e.token.isService)[key := instance]
    ensures TableOf(e.tables, !e.token.isService) == TableOf(t, !e.token.isService)
  {
    if key in t.services then
      Entered(Registrations(t.repositories, t.services[key := instance]), OverrideToken(key, Some(t.services[key]), true))
    else if key in t.repositories then
      Entered(Registrations(t.repositories[key := instance], t.services), OverrideToken(key, Some(t.repositories[key]), false))
    else if Contains(key, "Service") then
      Entered(Registrations(t.repositories, t.services[key := instance]), OverrideToken(key, None, true))
    else
      Entered(Registrations(t.repositories[key := instance], t.services), OverrideToken(key, None, false))
  }

  /**
   * Leaving the block, whatever it did to the tables: the remembered entry is
   * put back, or the key is removed when there was none; every other entry
   * stays as the block left it.
   */
  function ExitOverride(t: Registrations, token: OverrideToken): (r: Registrations)
    ensures TableOf(r, !token.isService) == TableOf(t, !token.isService)
    ensures token.original.Some? ==> TableOf(r, token.isService) == TableOf(t, token.isService)[token.key := token.original.value]
    ensures token.original.None? ==> TableOf(r, token.isService) == TableOf(t, token.isService) - {token.key}
  {
    var table := TableOf(t, token.isService);
    var restored := if token.original.Some? then table[token.key := token.original.value] else table - {token.key};
    if token.isService then Registrations(t.repositories, restored) else Registrations(restored, t.services)
  }

  /** Entering and leaving an override with nothing in between restores both tables exactly. */
  lemma ExitAfterEnterRestores(t: Registrations, key: string, instance: Instance)
    ensures var e := EnterOverride(t, key, instance);
      ExitOverride(e.tables, e.token) == t
  {
    var e := EnterOverride(t, key, instance);
    var r := ExitOverride(e.tables, e.token);
    var side := e.token.isService;
    assert TableOf(r, side) == TableOf(t, side) by {
      if e.token.original.None? {
        assert key !in TableOf(t, side);
        assert TableOf(t, side)[key := instance] - {key} == TableOf(t, side);
      } else {
        assert TableOf(t, side)[key := instance][key := TableOf(t, side)[key]] == TableOf(t, side);
      }
    }
    assert TableOf(r, !side) == TableOf(t, !side);
    if side {
      assert r.services == t.services && r.repositories == t.repositories;
    } else {
      assert r.repositories == t.repositories && r.services == t.services;
    }
  }

  // ---------------------------------------------------------------------------
  // The container
  // ---------------------------------------------------------------------------

  class DependencyContainer {
    /** Repository overrides, by class name. */
    var repositories: map<string, Instance>
    /** Services, cached or overridden, by class name. */
    var services: map<string, Instance>
    /** Values made by `GetShared`, by key. */
    var sharedInstances: map<string, Instance>

    ghost function Registered(): Registrations
      reads this
    {
      Registrations(repositories, services)
    }

    predicate IsEmpty()
      reads this
    {
      repositories == map[] && services == map[] && sharedInstances == map[]
    }

    constructor ()
      ensures IsEmpty()
    {
      repositories := map[];
      services := map[];
      sharedInstances := map[];
    }

    /**
     * An override registered under the class name always wins; otherwise a
     * new instance is built (with the session when one is given) and nothing
     * is cached.
     */
    method GetRepository(typeName: string, db: Option<Instance>, kwargs: Kwargs, repoClass: RepositoryClass)
      returns (r: Result<Instance, string>)
      ensures typeName in repositories ==> r == Success(repositories[typeName])
      ensures typeName !in repositories ==> r == Wrapped("repository", typeName, repoClass(db, kwargs))
    {
      if typeName in repositories {
        return Success(repositories[typeName]);
      }
      // repositories are request-scoped: a new instance is not cached
      var built := repoClass(db, kwargs);
      r := Wrapped("repository", typeName, built);
    }

    /**
     * An entry under the class name is returned whatever the arguments;
     * without one, a service built without arguments is cached for later
     * calls, and one built with arguments is not.
     */
    method GetService(typeName: string, kwargs: Kwargs, serviceClass: ServiceClass)
      returns (r: Result<Instance, string>)
      modifies this
      ensures repositories == old(repositories) && sharedInstances == old(sharedInstances)
      ensures typeName in old(services) ==> r == Success(old(services)[typeName]) && services == old(services)
      ensures typeName !in old(services) && kwargs == map[] ==>
        && r == Wrapped("service", typeName, serviceClass(map[]))
        && services == (if r.Success? then old(services)[typeName := r.value] else old(services))
      ensures typeName !in old(services) && kwargs != map[] ==>
        r == Wrapped("service", typeName, serviceClass(kwargs)) && services == old(services)
    {
      if typeName in services {
        return Success(services[typeName]);
      }
      if kwargs == map[] {
        var built := serviceClass(map[]);
        r := Wrapped("service", typeName, built);
        if r.Success? {
          services := services[typeName := r.value];
        }
        return;
      }
      var built := serviceClass(kwargs);
      r := Wrapped("service", typeName, built);
    }

    /** Entering `temporary_override`: installs `instance` and returns what leaving needs. */
    method BeginOverride(typeName: string, instance: Instance) returns (token: OverrideToken)
      modifies this
      ensures Registered() == EnterOverride(old(Registered()), typeName, instance).tables
      ensures token == EnterOverride(old(Registered()), typeName, instance).token
      ensures sharedInstances == old(sharedInstances)
    {
      var original: Option<Instance> := None;
      var isService := false;
      if typeName in services {
        isService := true;
        original := Some(services[typeName]);
        services := services[typeName := instance];
      } else if typeName in repositories {
        original := Some(repositories[typeName]);
        repositories := repositories[typeName := instance];
      } else {
        // not registered yet: guess the table from the name
        isService := Contains(typeName, "Service");
        if isService {
          services := services[typeName := instance];
        } else {
          repositories := repositories[typeName := instance];
        }
      }
      token := OverrideToken(typeName, original, isService);
    }

    /** Leaving `temporary_override`: restores the original entry or removes the key. */
    method EndOverride(token: OverrideToken)
      modifies this
      ensures Registered() == ExitOverride(old(Registered()), token)
      ensures sharedInstances == old(sharedInstances)
    {
      if token.original.Some? {
        if token.isService {
          services := services[token.key := token.original.value];
        } else {
          repositories := repositories[token.key := token.original.value];
        }
      } else {
        if token.isService {
          services := services - {token.key};
        } else {
          repositories := repositories - {token.key};
        }
      }
    }

    /** Empties the override tables, the service cache and the shared values. */
    method ClearCache()
      modifies this
      ensures IsEmpty()
    {
      repositories := map[];
      services := map[];
      sharedInstances := map[];
    }

    /**
     * The value shared under `key`: the factory is called only when there is
     * none yet, and what it returns is kept for every later call.
     */
    method GetShared(key: string, factory: () -> Result<Instance, string>) returns (r: Result<Instance, string>)
      modifies this
      ensures repositories == old(repositories) && services == old(services)
      ensures key in old(sharedInstances) ==> r == Success(old(sharedInstances)[key]) && sharedInstances == old(sharedInstances)
      ensures key !in old(sharedInstances) ==>
        && r == factory()
        && sharedInstances == (if r.Success? then old(sharedInstances)[key := r.value] else old(sharedInstances))
    {
      if key !in sharedInstances {
        var made := factory();
        if made.Failure? {
          return made;
        }
        sharedInstances := sharedInstances[key := made.value];
      }
      r := Success(sharedInstances[key]);
    }
  }

  /** A service built without arguments is built once: a second lookup returns the same instance. */
  method GetServiceTwice(c: DependencyContainer, typeName: string, serviceClass: ServiceClass)
    returns (first: Result<Instance, string>, second: Result<Instance, string>)
    modifies c
    ensures first.Success? ==> second == first
  {
    first := c.GetService(typeName, map[], serviceClass);
    second := c.GetService(typeName, map[], serviceClass);
  }

  /** A shared value is made once: a second `GetShared` returns the first value, whatever the factory. */
  method GetSharedTwice(c: DependencyContainer, key: string, f: () -> Result<Instance, string>, g: () -> Result<Instance, string>)
    returns (first: Result<Instance, string>, second: Result<Instance, string>)
    modifies c
    ensures first.Success? ==> second == first
  {
    first := c.GetShared(key, f);
    second := c.GetShared(key, g);
  }

  /**
   * A mocked service (a name already among the services, or a name with
   * "Service" in it that is not registered as a repository): inside the
   * override `GetService` returns the mock, and afterwards both tables are
   * as they were.
   */
  method OverrideServiceScenario(c: DependencyContainer, typeName: string, mock: Instance, serviceClass: ServiceClass)
    returns (inside: Result<Instance, string>)
    requires typeName in c.services || (typeName !in c.repositories && Contains(typeName, "Service"))
    modifies c
    ensures inside == Success(mock)
    ensures c.repositories == old(c.repositories) && c.services == old(c.services)
  {
    var token := c.BeginOverride(typeName, mock);
    assert token.isService;
    inside := c.GetService(typeName, map[], serviceClass);
    ExitAfterEnterRestores(old(c.Registered()), typeName, mock);
    c.EndOverride(token);
  }

  /**
   * A mocked repository (a name without "Service" in it, not registered as
   * a service): inside the override `GetRepository` returns the mock, and
   * afterwards both tables are as they were.
   */
  method OverrideRepositoryScenario(c: DependencyContainer, typeName: string, mock: Instance, repoClass: RepositoryClass)
    returns (inside: Result<Instance, string>)
    requires !Contains(typeName, "Service") && typeName !in c.services
    modifies c
    ensures inside == Success(mock)
    ensures c.repositories == old(c.repositories) && c.services == old(c.services)
  {
    var token := c.BeginOverride(typeName, mock);
    assert !token.isService;
    inside := c.GetRepository(typeName, None, map[], repoClass);
    ExitAfterEnterRestores(old(c.Registered()), typeName, mock);
    c.EndOverride(token);
  }

  // ---------------------------------------------------------------------------
  // The process-wide container
  // ---------------------------------------------------------------------------

  /** Holds the class attribute `_instance` of the container class. */
  class InstanceRegistry {
    var instance: DependencyContainer?

    constructor ()
      ensures instance == null
    {
      instance := null;
    }

    /** The current container; a new, empty one when there is none. */
    method GetInstance() returns (c: DependencyContainer)
      modifies this
      ensures old(instance) != null ==> c == old(instance)
      ensures old(instance) == null ==> fresh(c) && c.IsEmpty()
      ensures instance == c
    {
      if instance == null {
        instance := new DependencyContainer();
      }
      c := instance;
    }

    /** Forgets the current container. */
    method ResetInstance()
      modifies this
      ensures instance == null
    {
      instance := null;
    }
  }

  /** After a reset, the container handed out is a different object. */
  method ResetGivesNewContainer(registry: InstanceRegistry) returns (before: DependencyContainer, after: DependencyContainer)
    modifies registry
    ensures before != after
    ensures fresh(after) && after.IsEmpty()
  {
    before := registry.GetInstance();
    registry.ResetInstance();
    after := registry.GetInstance();
  }
}
