/**
 * A store of resources keyed by compact-string identifiers
 * (src/resource/named_resource_provider.rs): inserting never overwrites unless
 * asked to, and removing hands the resource back.
 */
module NamedResources {
  import opened Wrappers

  /** The error `insert_with` returns when the identifier is taken. */
  const AlreadyExists: string := "Entry with ID already exists"

  class NamedResourceProvider<K(==), T> {
    var resources: map<K, T>

    /** An empty provider. */
    constructor ()
      ensures resources == map[]
    {
      resources := map[];
    }

    /** `get`: the resource stored under `id`, if any. */
    function Get(id: K): (r: Option<T>)
      reads this
      ensures r.None? <==> id !in resources
      ensures r.Some? ==> r.value == resources[id]
    {
      if id in resources then Some(resources[id]) else None
    }

    /** `has`: whether `get` finds a resource. */
    predicate Has(id: K)
      reads this
      ensures Has(id) <==> Get(id).Some?
    {
      id in resources
    }

    /**
     * `insert_with`: when `id` is taken, an error and no change (and `value` is
     * not called); otherwise `id` maps to `value()`, which is returned.
     */
    method InsertWith(id: K, value: () -> T) returns (r: Result<T>)
      modifies this
      ensures id in old(resources) ==> r == Err(AlreadyExists) && resources == old(resources)
      ensures id !in old(resources) ==> r == Ok(value()) && resources == old(resources)[id := value()]
    {
      if id in resources {
        return Err(AlreadyExists);
      }
      var v := value();
      resources := resources[id := v];
      return Ok(v);
    }

    /** `insert`: `insert_with` of the given value. */
    method Insert(id: K, value: T) returns (r: Result<T>)
      modifies this
      ensures id in old(resources) ==> r == Err(AlreadyExists) && resources == old(resources)
      ensures id !in old(resources) ==> r == Ok(value) && resources == old(resources)[id := value]
    {
      r := InsertWith(id, () => value);
    }

    /** `insert_default`: `insert_with` of the type's default value, given here as `default`. */
    method InsertDefault(id: K, default: T) returns (r: Result<T>)
      modifies this
      ensures id in old(resources) ==> r == Err(AlreadyExists) && resources == old(resources)
      ensures id !in old(resources) ==> r == Ok(default) && resources == old(resources)[id := default]
    {
      r := InsertWith(id, () => default);
    }

    /** `insert_or_replace`: `id` maps to `value` whether or not it was taken. */
    method InsertOrReplace(id: K, value: T) returns (r: T)
      modifies this
      ensures resources == old(resources)[id := value] && r == value
      ensures Get(id) == Some(value)
    {
      resources := resources[id := value];
      r := resources[id];
    }

    /** `insert_or_replace_default`: `insert_or_replace` of the default value, given here as `default`. */
    method InsertOrReplaceDefault(id: K, default: T) returns (r: T)
      modifies this
      ensures resources == old(resources)[id := default] && r == default
    {
      r := InsertOrReplace(id, default);
    }

    /** `remove`: the resource under `id` is taken out and returned; `None` when there was none. */
    method Remove(id: K) returns (r: Option<T>)
      modifies this
      ensures resources == old(resources) - {id}
      ensures r == old(Get(id))
    {
      if id in resources {
        r := Some(resources[id]);
        resources := resources - {id};
      } else {
        r := None;
      }
    }
  }
}
