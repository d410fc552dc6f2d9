/** The flag table and the service that reads it through its cache. */
module FeatureFlagService {
  import opened Wrappers
  import opened Clock
  import opened FeatureFlags

  class Repository {
    var flags: map<string, Flag>

    /** Rows stand under their own key. */
    ghost predicate Valid()
      reads this
    {
      forall key <- flags :: flags[key].key == key
    }

    constructor (flags: map<string, Flag>)
      requires forall key <- flags :: flags[key].key == key
      ensures Valid() && this.flags == flags
    {
      this.flags := flags;
    }

    method Get(key: string) returns (flag: Option<Flag>)
      ensures flag == if key in flags then Some(flags[key]) else None
    {
      flag := if key in flags then Some(flags[key]) else None;
    }

    /** Every row once, in no promised order. */
    method List() returns (rows: seq<Flag>)
      requires Valid()
      ensures forall f <- rows :: f.key in flags && flags[f.key] == f
      ensures forall key <- flags :: flags[key] in rows
      ensures forall i, j :: 0 <= i < j < |rows| ==> rows[i].key != rows[j].key
    {
      rows := [];
      var todo := flags.Keys;
      while todo != {}
        invariant todo <= flags.Keys
        invariant forall f <- rows :: f.key in flags.Keys - todo && flags[f.key] == f
        invariant forall key <- flags.Keys - todo :: flags[key] in rows
        invariant forall i, j :: 0 <= i < j < |rows| ==> rows[i].key != rows[j].key
      {
        var key :| key in todo;
        todo := todo - {key};
        rows := rows + [flags[key]];
      }
    }

    /** Overwrites what the input gives, field by field, in the row or in a blank one. */
    method Upsert(key: string, input: UpdateInput) returns (flag: Flag)
      requires Valid()
      modifies this
      ensures Valid() && flag == Upserted(old(flags), key, input)
      ensures flags == old(flags)[key := flag]
    {
      var found := Get(key);
      var current := if found.Some? then found.value else Blank(key);
      if input.enabledGlobally.Some? {
        current := current.(enabledGlobally := input.enabledGlobally.value);
      }
      if input.defaultValue.Some? {
        current := current.(defaultValue := input.defaultValue.value);
      }
      if input.description.Some? {
        current := current.(description := input.description.value);
      }
      if input.overrides.Some? {
        current := current.(overrides := input.overrides.value);
      }
      flag := current;
      flags := flags[key := flag];
    }
  }

  class Service {
    const repository: Repository
    var cache: map<string, Entry>

    ghost predicate Valid()
      reads this, repository
    {
      repository.Valid()
    }

    ghost function Model(): State
      reads this, repository
    {
      State(repository.flags, cache)
    }

    constructor (repository: Repository)
      requires repository.Valid()
      ensures Valid() && this.repository == repository && Model() == After(repository.flags, [])
    {
      this.repository, cache := repository, map[];
    }

    method Load(key: string, readAt: int, setAt: int) returns (flag: Option<Flag>)
      requires Valid()
      modifies this
      ensures Valid() && Model() == Step(old(Model()), Lookup(key, readAt, setAt))
      ensures flag == Loaded(old(Model()), key, readAt)
    {
      if key in cache && readAt < cache[key].until {
        return Some(cache[key].flag);
      }
      flag := repository.Get(key);
      if flag.Some? {
        cache := cache[key := Entry(flag.value, setAt + CACHE_TTL)];
      }
    }

    /** A flag that does not exist is off. */
    method Enabled(key: string, customerId: string, readAt: int, setAt: int) returns (on: bool)
      requires Valid()
      modifies this
      ensures Valid() && Model() == Step(old(Model()), Lookup(key, readAt, setAt))
      ensures on == FeatureFlags.Enabled(old(Model()), key, customerId, readAt)
    {
      var flag := Load(key, readAt, setAt);
      on := flag.Some? && flag.value.Resolve(customerId);
    }

    /** Every flag for one customer, straight from the table. */
    method EnabledFor(customerId: string) returns (out: map<string, bool>)
      requires Valid()
      ensures out == AllResolved(repository.flags, customerId)
    {
      var rows := repository.List();
      out := map[];
      for i := 0 to |rows|
        invariant forall key <- out :: key in repository.flags && out[key] == repository.flags[key].Resolve(customerId)
        invariant forall k :: 0 <= k < i ==> rows[k].key in out
      {
        out := out[rows[i].key := rows[i].Resolve(customerId)];
      }
    }

    /** `cacheUp` says whether the cache can be reached to drop its entry. */
    method Update(key: string, input: UpdateInput, now: int, cacheUp: bool) returns (flag: Flag)
      requires Valid()
      modifies this, repository
      ensures Valid() && Model() == Step(old(Model()), FeatureFlags.Update(key, input, now, cacheUp))
      ensures Stored(Model(), key) == Some(flag)
    {
      flag := repository.Upsert(key, input);
      if cacheUp {
        cache := cache - {key};
      }
    }
  }
}
