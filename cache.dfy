/** The application cache as the framework's cache facade exposes it: a key-value store whose
    entries remember the tags they were written under and their time-to-live. Whether the
    configured store supports tags is fixed when it is created. */
module CacheStore {

  datatype Entry<V> = Entry(value: V, tags: set<string>, ttl: nat)

  /** The entries that do not carry `tag`, unchanged. */
  function WithoutTag<V>(m: map<string, Entry<V>>, tag: string): (r: map<string, Entry<V>>)
    ensures forall k :: k in r <==> k in m && tag !in m[k].tags
    ensures forall k :: k in r ==> r[k] == m[k]
  {
    map k | k in m && tag !in m[k].tags :: m[k]
  }

  class Cache<V> {
    var entries: map<string, Entry<V>>
    const taggable: bool

    constructor (taggable: bool)
      ensures this.taggable == taggable && entries == map[]
    {
      this.taggable := taggable;
      entries := map[];
    }

    /** `remember(key, ttl, compute)`, or `tags(tags)->remember(...)` when `tags` is not empty:
        a hit returns the stored value and leaves `compute` unused; a miss evaluates `compute`
        and stores its value under `key`. `computed` reports which of the two happened. */
    method Remember(key: string, tags: set<string>, ttl: nat, compute: () -> V) returns (v: V, computed: bool)
      requires tags != {} ==> taggable
      modifies this
      ensures computed == (key !in old(entries))
      ensures !computed ==> v == old(entries)[key].value && entries == old(entries)
      ensures computed ==> v == compute() && entries == old(entries)[key := Entry(v, tags, ttl)]
    {
      if key in entries {
        v, computed := entries[key].value, false;
      } else {
        v, computed := compute(), true;
        entries := entries[key := Entry(v, tags, ttl)];
      }
    }

    method Forget(key: string)
      modifies this
      ensures entries == old(entries) - {key}
    {
      entries := entries - {key};
    }

    method Flush()
      modifies this
      ensures entries == map[]
    {
      entries := map[];
    }

    /** `tags([tag])->flush()`: only a taggable store offers it. */
    method FlushTag(tag: string)
      requires taggable
      modifies this
      ensures entries == WithoutTag(old(entries), tag)
    {
      entries := WithoutTag(entries, tag);
    }
  }
}
