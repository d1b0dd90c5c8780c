/**
 * `LinkPreviewCache`: at most 64 fetched link previews, kept in an
 * access-ordered `LinkedHashMap`, each valid for ten minutes.
 *
 * The map is the sequence of its entries from least to most recently used;
 * reading or writing a key moves it to the end, and inserting a 65th key
 * drops the first. The clock is the `now` parameter of the operations.
 */
module PreviewCache {
  import opened Wrappers
  import Text

  /** `CACHE_MAX_ENTRIES`. */
  const MaxEntries: nat := 64

  /** `CACHE_TTL_MS`: ten minutes in milliseconds. */
  const TtlMs: int := 600000

  /** `LinkPreview`: what a fetched page says about itself. */
  datatype LinkPreview = LinkPreview(
    url: string,
    title: Option<string>,
    description: Option<string>,
    siteName: Option<string>,
    imageUrl: Option<string>)

  /** `CachedLinkPreview`: a preview (none for a failed fetch) and when it was stored. */
  datatype CachedLinkPreview = CachedLinkPreview(preview: Option<LinkPreview>, successful: bool, timestamp: int)

  datatype Entry = Entry(url: string, value: CachedLinkPreview)

  // ---------------------------------------------------------------------
  // The access-ordered map
  // ---------------------------------------------------------------------

  predicate DistinctKeys(es: seq<Entry>) {
    forall i, j :: 0 <= i < j < |es| ==> es[i].url != es[j].url
  }

  /** `cache[url]` without the access: the value stored under `url`. */
  function Lookup(es: seq<Entry>, url: string): (r: Option<CachedLinkPreview>)
    ensures r.Some? <==> exists k :: 0 <= k < |es| && es[k].url == url
  {
    if es == [] then None
    else if es[0].url == url then Some(es[0].value)
    else
      assert forall k :: 0 < k < |es| ==> es[k] == es[1..][k - 1];
      Lookup(es[1..], url)
  }

  /** `cache.remove(url)`: the entries without `url`, in their order. */
  function Remove(es: seq<Entry>, url: string): (r: seq<Entry>)
    ensures |r| <= |es|
    ensures forall k :: 0 <= k < |r| ==> r[k].url != url
  {
    if es == [] then []
    else if es[0].url == url then Remove(es[1..], url)
    else [es[0]] + Remove(es[1..], url)
  }

  /** Whether storing a new `url` in `es` overflows the map, so that its eldest entry goes. */
  predicate Evicts(es: seq<Entry>, url: string) {
    Lookup(es, url).None? && |es| + 1 > MaxEntries
  }

  /**
   * `cache[url] = value`: the entry goes to the most recent end, and
   * `removeEldestEntry` drops the least recent one when a new key makes
   * the map larger than 64.
   */
  function Put(es: seq<Entry>, url: string, value: CachedLinkPreview): seq<Entry> {
    var stored := Remove(es, url) + [Entry(url, value)];
    if Lookup(es, url).None? && |stored| > MaxEntries then stored[1..] else stored
  }

  /** The result of `get(url)` at time `now`, and the entries it leaves. */
  function GetAt(es: seq<Entry>, url: string, now: int): (Option<CachedLinkPreview>, seq<Entry>) {
    match Lookup(es, url)
    case None => (None, es)
    case Some(entry) =>
      if Text.WrapInt64(now - entry.timestamp) > TtlMs then (None, Remove(es, url))
      else (Some(entry), Remove(es, url) + [Entry(url, entry)])
  }

  /** The map's invariant: no key twice, and never more than 64 entries. */
  predicate Bounded(es: seq<Entry>) {
    DistinctKeys(es) && |es| <= MaxEntries
  }

  // ---------------------------------------------------------------------
  // Lemmas about the map
  // ---------------------------------------------------------------------

  lemma {:induction false} RemoveLookup(es: seq<Entry>, url: string, u: string)
    ensures Lookup(Remove(es, url), u) == if u == url then None else Lookup(es, u)
    decreases |es|
  {
    if es != [] {
      RemoveLookup(es[1..], url, u);
    }
  }

  /** Removing keeps the order of what stays, so distinct keys stay distinct. */
  lemma {:induction false} RemoveDistinct(es: seq<Entry>, url: string)
    requires DistinctKeys(es)
    ensures DistinctKeys(Remove(es, url))
    ensures forall k :: 0 <= k < |Remove(es, url)| ==> Lookup(es, Remove(es, url)[k].url).Some?
    decreases |es|
  {
    if es != [] {
      assert DistinctKeys(es[1..]) by {
        forall i, j | 0 <= i < j < |es[1..]| ensures es[1..][i].url != es[1..][j].url {
          assert es[1..][i] == es[i + 1] && es[1..][j] == es[j + 1];
        }
      }
      RemoveDistinct(es[1..], url);
      var rest := Remove(es[1..], url);
      forall k | 0 <= k < |rest| ensures rest[k].url != es[0].url {
        var w := rest[k].url;
        assert Lookup(es[1..], w).Some?;
        var m :| 0 <= m < |es[1..]| && es[1..][m].url == w;
        assert es[m + 1].url == w;
      }
      forall k | 0 <= k < |rest| ensures Lookup(es, rest[k].url).Some? {
        assert Lookup(es[1..], rest[k].url).Some?;
        if rest[k].url != es[0].url {
          assert Lookup(es, rest[k].url) == Lookup(es[1..], rest[k].url);
        }
      }
    }
  }

  /** Removing a present key shortens the entries by one; removing an absent key changes nothing. */
  lemma {:induction false} RemoveLength(es: seq<Entry>, url: string)
    requires DistinctKeys(es)
    ensures |Remove(es, url)| == if Lookup(es, url).Some? then |es| - 1 else |es|
    ensures Lookup(es, url).None? ==> Remove(es, url) == es
    decreases |es|
  {
    if es != [] {
      assert DistinctKeys(es[1..]) by {
        forall i, j | 0 <= i < j < |es[1..]| ensures es[1..][i].url != es[1..][j].url {
          assert es[1..][i] == es[i + 1] && es[1..][j] == es[j + 1];
        }
      }
      RemoveLength(es[1..], url);
      if es[0].url == url {
        forall k | 0 <= k < |es[1..]| ensures es[1..][k].url != url {
          assert es[1..][k] == es[k + 1];
        }
        assert Lookup(es[1..], url).None?;
      } else {
        assert [es[0]] + es[1..] == es;
      }
    }
  }

  lemma {:induction false} LookupSnoc(es: seq<Entry>, e: Entry, u: string)
    requires forall k :: 0 <= k < |es| ==> es[k].url != e.url
    ensures Lookup(es + [e], u) == if u == e.url then Some(e.value) else Lookup(es, u)
    decreases |es|
  {
    if es == [] {
      assert [] + [e] == [e];
    } else {
      assert (es + [e])[1..] == es[1..] + [e];
      LookupSnoc(es[1..], e, u);
    }
  }

  /** A stored value is what the next lookup of its key finds. */
  lemma PutThenLookup(es: seq<Entry>, url: string, value: CachedLinkPreview)
    ensures Lookup(Put(es, url, value), url) == Some(value)
    ensures |Put(es, url, value)| > 0 && Put(es, url, value)[|Put(es, url, value)| - 1] == Entry(url, value)
  {
    var stored := Remove(es, url) + [Entry(url, value)];
    LookupSnoc(Remove(es, url), Entry(url, value), url);
    if Lookup(es, url).None? && |stored| > MaxEntries {
      var k := |stored| - 2;
      assert stored[k + 1] == Entry(url, value);
      assert stored[1..][k] == Entry(url, value);
    }
  }

  /**
   * Storing `url` leaves every other key as it was, except the least
   * recently used one, which goes when a new key overflows the map.
   */
  lemma PutKeepsOthers(es: seq<Entry>, url: string, value: CachedLinkPreview, u: string)
    requires Bounded(es) && u != url
    ensures Lookup(Put(es, url, value), u)
            == if Evicts(es, url) && es[0].url == u then None else Lookup(es, u)
  {
    var removed := Remove(es, url);
    var stored := removed + [Entry(url, value)];
    RemoveLength(es, url);
    LookupSnoc(removed, Entry(url, value), u);
    RemoveLookup(es, url, u);
    if Lookup(es, url).None? && |stored| > MaxEntries {
      assert removed == es;
      assert stored[1..] == es[1..] + [Entry(url, value)];
      assert forall k :: 0 <= k < |es[1..]| ==> es[1..][k].url != url by {
        forall k | 0 <= k < |es[1..]| ensures es[1..][k].url != url {
          assert es[1..][k] == removed[k + 1];
        }
      }
      LookupSnoc(es[1..], Entry(url, value), u);
      if es[0].url == u {
        forall k | 0 <= k < |es[1..]| ensures es[1..][k].url != u {
          assert es[1..][k] == es[k + 1];
        }
      } else {
        assert Lookup(es, u) == Lookup(es[1..], u);
      }
    }
  }

  /** Storing keeps the invariant, and a key that replaces itself evicts nothing. */
  lemma PutKeepsBounded(es: seq<Entry>, url: string, value: CachedLinkPreview)
    requires Bounded(es)
    ensures Bounded(Put(es, url, value))
    ensures Lookup(es, url).Some? ==> |Put(es, url, value)| == |es|
    ensures Lookup(es, url).None? ==> |Put(es, url, value)| == if |es| == MaxEntries then |es| else |es| + 1
  {
    var removed := Remove(es, url);
    var stored := removed + [Entry(url, value)];
    RemoveLength(es, url);
    RemoveDistinct(es, url);
    assert DistinctKeys(stored);
    if Lookup(es, url).None? && |stored| > MaxEntries {
      var t := stored[1..];
      forall i, j | 0 <= i < j < |t| ensures t[i].url != t[j].url {
        assert t[i] == stored[i + 1] && t[j] == stored[j + 1];
      }
    }
  }

  /** `get` of a key that is not stored answers `null` and changes nothing. */
  lemma GetMissing(es: seq<Entry>, url: string, now: int)
    requires Lookup(es, url).None?
    ensures GetAt(es, url, now) == (None, es)
  {
  }

  /**
   * `get` of an entry at most ten minutes old returns it and makes it the
   * most recently used, leaving every lookup as it was.
   */
  lemma GetFresh(es: seq<Entry>, url: string, now: int)
    requires DistinctKeys(es) && Lookup(es, url).Some?
    requires Text.WrapInt64(now - Lookup(es, url).value.timestamp) <= TtlMs
    ensures GetAt(es, url, now).0 == Lookup(es, url)
    ensures var after := GetAt(es, url, now).1;
      |after| == |es| && after[|after| - 1] == Entry(url, Lookup(es, url).value)
      && forall u :: Lookup(after, u) == Lookup(es, u)
  {
    var entry := Lookup(es, url).value;
    RemoveLength(es, url);
    forall u ensures Lookup(Remove(es, url) + [Entry(url, entry)], u) == Lookup(es, u) {
      LookupSnoc(Remove(es, url), Entry(url, entry), u);
      RemoveLookup(es, url, u);
    }
  }

  /** `get` of an entry older than ten minutes drops it and answers `null`. */
  lemma GetExpired(es: seq<Entry>, url: string, now: int)
    requires Lookup(es, url).Some?
    requires Text.WrapInt64(now - Lookup(es, url).value.timestamp) > TtlMs
    ensures GetAt(es, url, now).0 == None
    ensures forall u :: Lookup(GetAt(es, url, now).1, u) == if u == url then None else Lookup(es, u)
  {
    forall u ensures Lookup(Remove(es, url), u) == if u == url then None else Lookup(es, u) {
      RemoveLookup(es, url, u);
    }
  }

  /** `get` keeps the invariant. */
  lemma GetKeepsBounded(es: seq<Entry>, url: string, now: int)
    requires Bounded(es)
    ensures Bounded(GetAt(es, url, now).1)
  {
    if Lookup(es, url).Some? {
      RemoveLength(es, url);
      RemoveDistinct(es, url);
      var entry := Lookup(es, url).value;
      assert DistinctKeys(Remove(es, url) + [Entry(url, entry)]);
    }
  }

  /**
   * A preview stored at `stored` is returned by a `get` at any `now` up to
   * ten minutes later, the last millisecond included, and not after.
   */
  lemma StoredPreviewLifetime(es: seq<Entry>, url: string, value: CachedLinkPreview, now: int)
    requires now >= value.timestamp && Text.IsInt64(now - value.timestamp)
    ensures GetAt(Put(es, url, value), url, now).0 == if now - value.timestamp <= TtlMs then Some(value) else None
  {
    PutThenLookup(es, url, value);
  }

  // ---------------------------------------------------------------------
  // The cache object
  // ---------------------------------------------------------------------

  /** The `LinkPreviewCache` object and its `cache` map. */
  class LinkPreviewCache {
    /** The entries of `cache`, least recently used first. */
    var entries: seq<Entry>

    ghost predicate Valid()
      reads this
    {
      Bounded(entries)
    }

    constructor()
      ensures entries == [] && Valid()
    {
      entries := [];
    }

    /** `putSuccess`: a successful fetch, stamped `now`. */
    method PutSuccess(url: string, preview: LinkPreview, now: int)
      requires Valid()
      modifies this
      ensures Valid()
      ensures entries == Put(old(entries), url, CachedLinkPreview(Some(preview), true, now))
    {
      PutKeepsBounded(entries, url, CachedLinkPreview(Some(preview), true, now));
      entries := Put(entries, url, CachedLinkPreview(Some(preview), true, now));
    }

    /** `putFailure`: a failed fetch, stamped `now`, with no preview. */
    method PutFailure(url: string, now: int)
      requires Valid()
      modifies this
      ensures Valid()
      ensures entries == Put(old(entries), url, CachedLinkPreview(None, false, now))
    {
      PutKeepsBounded(entries, url, CachedLinkPreview(None, false, now));
      entries := Put(entries, url, CachedLinkPreview(None, false, now));
    }

    /** `get` at time `now`: the entry if it is fresh; an expired one is removed. */
    method Get(url: string, now: int) returns (r: Option<CachedLinkPreview>)
      requires Valid()
      modifies this
      ensures Valid()
      ensures (r, entries) == GetAt(old(entries), url, now)
    {
      GetKeepsBounded(entries, url, now);
      var found := Lookup(entries, url);
      if found.None? {
        return None;
      }
      var entry := found.value;
      if Text.WrapInt64(now - entry.timestamp) > TtlMs {
        entries := Remove(entries, url);
        return None;
      }
      entries := Remove(entries, url) + [Entry(url, entry)];
      r := Some(entry);
    }

    /** `invalidate`: forget `url`. */
    method Invalidate(url: string)
      requires Valid()
      modifies this
      ensures Valid()
      ensures entries == Remove(old(entries), url)
      ensures forall u :: Lookup(entries, u) == if u == url then None else Lookup(old(entries), u)
    {
      RemoveDistinct(entries, url);
      forall u ensures Lookup(Remove(entries, url), u) == if u == url then None else Lookup(entries, u) {
        RemoveLookup(entries, url, u);
      }
      entries := Remove(entries, url);
    }

    /** `clear`. */
    method Clear()
      modifies this
      ensures entries == [] && Valid()
    {
      entries := [];
    }
  }
}
