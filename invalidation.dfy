/** What the lifecycle hook shared by the Article and Comment models does to the cache:
    forget the statistics entry, then clear every entry tagged for the article list when the
    store supports tags, or the whole cache when it does not. */
module Invalidation {

  import opened CacheStore

  const StatsKey := "api.stats"
  const ListTag := "articles_list"

  function AfterHook<V>(m: map<string, Entry<V>>, taggable: bool): (r: map<string, Entry<V>>)
    ensures StatsKey !in r
    ensures !taggable ==> r == map[]
    ensures taggable ==> forall k :: k in r ==> ListTag !in r[k].tags
    ensures taggable ==> forall k :: k in m && k != StatsKey && ListTag !in m[k].tags ==> k in r && r[k] == m[k]
    ensures forall k :: k in r ==> k in m && r[k] == m[k]
  {
    var forgotten := m - {StatsKey};
    if taggable then WithoutTag(forgotten, ListTag) else map[]
  }

  /** The closure both models register on created, updated and deleted. */
  method RunHook<V>(cache: Cache<V>)
    modifies cache
    ensures cache.entries == AfterHook(old(cache.entries), cache.taggable)
  {
    cache.Forget(StatsKey);
    if cache.taggable {
      cache.FlushTag(ListTag);
    } else {
      cache.Flush();
    }
  }

  /** Running the hook a second time changes nothing. */
  lemma HookIdempotent<V>(m: map<string, Entry<V>>, taggable: bool)
    ensures AfterHook(AfterHook(m, taggable), taggable) == AfterHook(m, taggable)
  {
    var once := AfterHook(m, taggable);
    var twice := AfterHook(once, taggable);
    if taggable {
      assert forall k :: k in once ==> k in twice;
    }
    assert twice.Keys == once.Keys;
  }
}
