/**
 * The cache engine of service/LRU.go: a key -> entry map and a recency list
 * (front = most recently used) describing the same entries, with lazy expiry
 * on `Get`, capacity eviction on `Set` and a sweep pass from the back.
 *
 * Time is an integer clock `now` in seconds; values have a type parameter `V`.
 * The list of `container/list` elements is modelled by the sequence of their
 * keys; the element a key maps to is found through the map, so the entry of
 * the i-th list element is `cache[list[i]]`.
 *
 * The value-level functions `GetSpec`, `SetSpec`, `DeleteSpec`, `EvictSpec`
 * and `SweepSpec` state what one operation does to a `State`; the class
 * `LruCache` performs the operations in place and is proved against them.
 * `SweepSpec` is the sweep pass as intended; `SweepAsWritten` is the pass as
 * the code writes it, which stops after one deletion.
 */
module Lru {
  import opened LinkedList

  datatype Option<T> = None | Some(value: T)

  /** 9999-12-31T23:59:59Z in seconds since the Unix epoch: the expiry given when there is no TTL. */
  const NoExpiry: int := 253402300799

  datatype CacheEntry<V> = CacheEntry(key: string, value: V, expiration: int)

  /** One item of the `GetAll` snapshot. */
  datatype GetAllResponse<V> = GetAllResponse(key: string, value: V, expiration: int)

  /** The two views of the cache: `cache` from key to entry, `list` the keys from front to back. */
  datatype State<V> = State(cache: map<string, CacheEntry<V>>, list: seq<string>)

  /**
   * The map and the list describe the same keys, each key once in the list,
   * and every entry stores the key it is filed under.
   */
  ghost predicate Consistent<V>(s: State<V>) {
    && (forall k :: k in s.cache <==> k in s.list)
    && (forall k :: k in s.cache ==> s.cache[k].key == k)
    && Distinct(s.list)
  }

  /** The most entries the cache ever holds: capacity + 1, and at least one. */
  function MaxLen(capacity: int): nat {
    if capacity <= 0 then 1 else capacity + 1
  }

  /** The absolute expiry of an entry set at `now` with the given TTL in seconds. */
  function Expiry(ttl: int, now: int): int {
    if ttl > 0 then now + ttl else NoExpiry
  }

  /** The tail of a list of distinct keys has distinct keys and lacks the head. */
  lemma DistinctTail(s: seq<string>)
    requires Distinct(s) && s != []
    ensures Distinct(s[1..]) && s[0] !in s[1..]
  {
    forall j | 0 <= j < |s[1..]| ensures s[1..][j] != s[0] {
      assert s[1..][j] == s[j + 1];
    }
    forall a, b | 0 <= a < b < |s[1..]| ensures s[1..][a] != s[1..][b] {
      assert s[1..][a] == s[a + 1] && s[1..][b] == s[b + 1];
    }
  }

  // ---------------------------------------------------------------------------
  // The recency list: removing one key and moving one key to the front
  // ---------------------------------------------------------------------------

  /** The list without key `k` (what `list.Remove` does to the element holding `k`). */
  function Without(s: seq<string>, k: string): (r: seq<string>)
    ensures forall x :: x in r <==> x in s && x != k
    ensures k !in s ==> r == s
    ensures Distinct(s) ==> Distinct(r) && |r| == if k in s then |s| - 1 else |s|
  {
    if s == [] then []
    else if s[0] == k then Without(s[1..], k)
    else
      var rest := Without(s[1..], k);
      assert Distinct(s) ==> Distinct(s[1..]) && s[0] !in s[1..] by {
        if Distinct(s) {
          DistinctTail(s);
        }
      }
      assert Distinct(s[1..]) && s[0] !in rest ==> Distinct([s[0]] + rest);
      [s[0]] + rest
  }

  /**
   * `list.MoveToFront` of the element holding `k`: `k` becomes the front
   * (`ToFrontKeepsOrder`: the other keys keep their order).
   */
  function ToFront(s: seq<string>, k: string): (r: seq<string>)
    requires Distinct(s) && k in s
    ensures Distinct(r) && |r| == |s|
    ensures forall x :: x in r <==> x in s
    ensures r[0] == k
  {
    [k] + Without(s, k)
  }

  /** Moving the key at index `i` to the front keeps the other keys in their order. */
  lemma ToFrontKeepsOrder(s: seq<string>, i: nat)
    requires Distinct(s) && i < |s|
    ensures ToFront(s, s[i]) == [s[i]] + s[..i] + s[i + 1..]
  {
    WithoutAt(s, i);
  }

  /** On a list with unique keys, removing the key at index `i` cuts out exactly that position. */
  lemma {:induction false} WithoutAt(s: seq<string>, i: nat)
    requires Distinct(s) && i < |s|
    ensures Without(s, s[i]) == s[..i] + s[i + 1..]
  {
    DistinctTail(s);
    var k := s[i];
    if i == 0 {
      assert Without(s, k) == Without(s[1..], k) == s[1..];
      assert s[..0] + s[1..] == s[1..];
    } else {
      var t := s[1..];
      assert t[i - 1] == k && s[0] != k;
      WithoutAt(t, i - 1);
      calc {
        Without(s, k);
        [s[0]] + Without(t, k);
        [s[0]] + (t[..i - 1] + t[i..]);
        { assert s[..i] == [s[0]] + t[..i - 1] && s[i + 1..] == t[i..]; }
        s[..i] + s[i + 1..];
      }
    }
  }

  /** Removing the back key drops the last element of the list. */
  lemma WithoutBack(s: seq<string>)
    requires Distinct(s) && s != []
    ensures Without(s, s[|s| - 1]) == s[..|s| - 1]
  {
    WithoutAt(s, |s| - 1);
  }

  // ---------------------------------------------------------------------------
  // One operation each, on values
  // ---------------------------------------------------------------------------

  /** `delete(key)`: remove the key from both views if present; a no-op otherwise. */
  function DeleteSpec<V>(s: State<V>, key: string): (r: State<V>)
    requires Consistent(s)
    ensures Consistent(r)
    ensures key !in s.cache ==> r == s
    ensures key in s.cache ==> |r.list| == |s.list| - 1 && r.cache == s.cache - {key}
    ensures key !in r.cache && forall k :: k in r.list <==> k in s.list && k != key
    ensures forall k :: k in r.cache ==> k in s.cache && r.cache[k] == s.cache[k]
    ensures forall i :: 0 <= i < |s.list| && s.list[i] == key ==> r.list == s.list[..i] + s.list[i + 1..]
  {
    assert forall i :: 0 <= i < |s.list| && s.list[i] == key ==> Without(s.list, key) == s.list[..i] + s.list[i + 1..] by {
      forall i | 0 <= i < |s.list| && s.list[i] == key ensures Without(s.list, key) == s.list[..i] + s.list[i + 1..] {
        WithoutAt(s.list, i);
      }
    }
    if key in s.cache then State(s.cache - {key}, Without(s.list, key)) else s
  }

  /**
   * Removing the back element and its map entry: the step `evict` takes, and
   * the `delete` of the back entry that a sweep makes.
   */
  function DropBack<V>(s: State<V>): (r: State<V>)
    requires Consistent(s) && s.list != []
    ensures Consistent(r)
    ensures r.list == s.list[..|s.list| - 1] && r.cache == s.cache - {s.list[|s.list| - 1]}
  {
    var back := s.list[|s.list| - 1];
    var entry := s.cache[back];
    WithoutBack(s.list);
    State(s.cache - {entry.key}, Without(s.list, back))
  }

  /**
   * `evict()`: only when the list is longer than the capacity is the back
   * entry removed; otherwise nothing changes.
   */
  function EvictSpec<V>(s: State<V>, capacity: int): (r: State<V>)
    requires Consistent(s)
    ensures Consistent(r)
    ensures |s.list| > capacity && s.list != [] ==>
      r.list == s.list[..|s.list| - 1] && r.cache == s.cache - {s.list[|s.list| - 1]}
    ensures !(|s.list| > capacity && s.list != []) ==> r == s
  {
    if |s.list| > capacity && s.list != [] then DropBack(s) else s
  }

  /**
   * `Get(key)` returns the value and the new state. The element is moved to
   * the front before its expiry is tested; an expired entry is then deleted.
   */
  function GetSpec<V>(s: State<V>, key: string, now: int): (r: (State<V>, Option<V>))
    requires Consistent(s)
    ensures Consistent(r.0)
    ensures key !in s.cache ==> r == (s, None)
    ensures key in s.cache && now < s.cache[key].expiration ==>
      r.1 == Some(s.cache[key].value) && r.0.cache == s.cache && r.0.list == [key] + Without(s.list, key)
    ensures key in s.cache && now >= s.cache[key].expiration ==>
      r.1 == None && r.0.cache == s.cache - {key} && r.0.list == Without(s.list, key)
  {
    if key in s.cache then
      var moved := State(s.cache, ToFront(s.list, key));
      var entry := s.cache[key];
      if now < entry.expiration then (moved, Some(entry.value))
      else
        assert Without([key] + Without(s.list, key), key) == Without(s.list, key);
        (DeleteSpec(moved, key), None)
    else (s, None)
  }

  /**
   * `Set(key, value, ttl)`: an existing key gets the new value and expiry and
   * moves to the front; a new key is pushed at the front after `evict` when
   * the list holds at least `capacity` entries.
   */
  function SetSpec<V>(s: State<V>, capacity: int, key: string, value: V, ttl: int, now: int): (r: State<V>)
    requires Consistent(s)
    ensures Consistent(r)
    ensures r.list != [] && r.list[0] == key
    ensures key in r.cache && r.cache[key] == CacheEntry(key, value, Expiry(ttl, now))
    ensures forall k :: k in r.cache && k != key ==> k in s.cache && r.cache[k] == s.cache[k]
    ensures key in s.cache ==> r.cache.Keys == s.cache.Keys && |r.list| == |s.list|
    ensures |s.list| <= MaxLen(capacity) ==> |r.list| <= MaxLen(capacity)
  {
    var expire := Expiry(ttl, now);
    if key in s.cache then
      var entry := s.cache[key];
      State(s.cache[key := entry.(value := value, expiration := expire)], ToFront(s.list, key))
    else
      var t := if |s.list| >= capacity then EvictSpec(s, capacity) else s;
      State(t.cache[key := CacheEntry(key, value, expire)], [key] + t.list)
  }

  /**
   * One sweep pass, as intended: starting from the back, delete every entry
   * with `now > expiration` and stop at the first that has not expired.
   */
  function SweepSpec<V>(s: State<V>, now: int): (r: State<V>)
    requires Consistent(s)
    ensures Consistent(r)
    ensures |r.list| <= |s.list| && r.list == s.list[..|r.list|]
    ensures forall k :: k in r.cache ==> k in s.cache && r.cache[k] == s.cache[k]
    decreases |s.list|
  {
    if s.list == [] then s
    else
      var back := s.list[|s.list| - 1];
      var entry := s.cache[back];
      if now > entry.expiration then SweepSpec(DropBack(s), now) else s
  }

  /**
   * The sweep pass as service/LRU.go writes it: after `c.delete` removes the
   * back element, `element.Prev()` on that removed element is nil
   * (`container/list` clears its links), so the loop ends after one removal.
   */
  function SweepAsWritten<V>(s: State<V>, now: int): (r: State<V>)
    requires Consistent(s)
    ensures Consistent(r)
    ensures |s.list| - 1 <= |r.list| <= |s.list| && r.list == s.list[..|r.list|]
  {
    if s.list == [] then s
    else
      var entry := s.cache[s.list[|s.list| - 1]];
      if now > entry.expiration then DropBack(s) else s
  }

  /** The entries of the cache from front to back, the order in which `GetAll` walks them. */
  function Entries<V>(s: State<V>): (es: seq<CacheEntry<V>>)
    requires Consistent(s)
    ensures |es| == |s.list|
    ensures forall i :: 0 <= i < |s.list| ==> es[i] == s.cache[s.list[i]]
  {
    seq(|s.list|, i requires 0 <= i < |s.list| && s.list[i] in s.cache => s.cache[s.list[i]])
  }

  /** The walk visits every cached entry and nothing else. */
  lemma EntriesExactlyCache<V>(s: State<V>)
    requires Consistent(s)
    ensures var es := Entries(s);
      && (forall k :: k in s.cache ==> s.cache[k] in es)
      && (forall i :: 0 <= i < |es| ==> es[i].key in s.cache && s.cache[es[i].key] == es[i])
  {
    var es := Entries(s);
    forall k | k in s.cache ensures s.cache[k] in es {
      assert k in s.list;
      var i :| 0 <= i < |s.list| && s.list[i] == k;
      assert es[i] == s.cache[k];
    }
  }

  function Response<V>(e: CacheEntry<V>): GetAllResponse<V> {
    GetAllResponse(e.key, e.value, e.expiration)
  }

  /** The snapshot items of the entries with `now < expiration`, in the same order. */
  function Live<V>(es: seq<CacheEntry<V>>, now: int): (r: seq<GetAllResponse<V>>)
    ensures |r| <= |es|
  {
    if es == [] then []
    else (if now < es[0].expiration then [Response(es[0])] else []) + Live(es[1..], now)
  }

  // ---------------------------------------------------------------------------
  // Properties relating several operations
  // ---------------------------------------------------------------------------

  /** Filtering live entries commutes with concatenation, so it keeps the list order. */
  lemma {:induction false} LiveAppend<V>(a: seq<CacheEntry<V>>, b: seq<CacheEntry<V>>, now: int)
    ensures Live(a + b, now) == Live(a, now) + Live(b, now)
  {
    if a == [] {
      assert a + b == b;
    } else {
      assert (a + b)[1..] == a[1..] + b;
      LiveAppend(a[1..], b, now);
    }
  }

  /** An item is in the snapshot exactly when it comes from an entry with `now < expiration`. */
  lemma {:induction false} LiveMembers<V>(es: seq<CacheEntry<V>>, now: int, e: CacheEntry<V>)
    ensures Response(e) in Live(es, now) <==> e in es && now < e.expiration
  {
    if es != [] {
      LiveMembers(es[1..], now, e);
      assert e in es <==> e == es[0] || e in es[1..];
    }
  }

  /** The sweep removes only entries with `now > expiration`. */
  lemma {:induction false} SweepRemovesOnlyExpired<V>(s: State<V>, now: int)
    requires Consistent(s)
    ensures var r := SweepSpec(s, now);
      forall k :: k in s.cache && k !in r.cache ==> now > s.cache[k].expiration
    decreases |s.list|
  {
    if s.list != [] {
      var back := s.list[|s.list| - 1];
      if now > s.cache[back].expiration {
        var t := DropBack(s);
        SweepRemovesOnlyExpired(t, now);
        var r := SweepSpec(t, now);
        assert r == SweepSpec(s, now);
        forall k | k in s.cache && k !in r.cache ensures now > s.cache[k].expiration {
          if k != back {
            assert k in t.cache;
          }
        }
      }
    }
  }

  /** The entry the sweep stops at, the new back, has not expired (`now <= expiration`). */
  lemma {:induction false} SweepStopsAtUnexpired<V>(s: State<V>, now: int)
    requires Consistent(s)
    ensures var r := SweepSpec(s, now);
      r.list != [] ==> r.list[|r.list| - 1] in s.cache && now <= s.cache[r.list[|r.list| - 1]].expiration
    decreases |s.list|
  {
    if s.list != [] {
      var back := s.list[|s.list| - 1];
      if now > s.cache[back].expiration {
        var t := DropBack(s);
        SweepStopsAtUnexpired(t, now);
        var r := SweepSpec(t, now);
        assert r == SweepSpec(s, now);
        if r.list != [] {
          var last := r.list[|r.list| - 1];
          assert last in t.cache && t.cache[last] == s.cache[last];
        }
      } else {
        assert SweepSpec(s, now) == s;
      }
    }
  }

  /** A second sweep right after a sweep removes nothing. */
  lemma SweepIdempotent<V>(s: State<V>, now: int)
    requires Consistent(s)
    ensures SweepSpec(SweepSpec(s, now), now) == SweepSpec(s, now)
  {
    var r := SweepSpec(s, now);
    SweepStopsAtUnexpired(s, now);
    if r.list != [] {
      var back := r.list[|r.list| - 1];
      assert r.cache[back] == s.cache[back];
      assert !(now > r.cache[back].expiration);
    }
  }

  /**
   * At `now == expiration` the two expiry tests disagree: a sweep keeps the
   * back entry, while `Get` of it reports not-found and deletes it.
   */
  lemma ExpiryBoundary<V>(s: State<V>, now: int)
    requires Consistent(s) && s.list != []
    requires s.cache[s.list[|s.list| - 1]].expiration == now
    ensures SweepSpec(s, now) == s
    ensures var (t, found) := GetSpec(s, s.list[|s.list| - 1], now);
      found == None && s.list[|s.list| - 1] !in t.cache
  {
  }

  /** A `Get` hit on the key at position `i` moves it to the front and keeps the others in their order. */
  lemma GetHitKeepsOrder<V>(s: State<V>, i: nat, now: int)
    requires Consistent(s) && i < |s.list| && now < s.cache[s.list[i]].expiration
    ensures var (t, found) := GetSpec(s, s.list[i], now);
      && found == Some(s.cache[s.list[i]].value)
      && t.cache == s.cache
      && t.list == [s.list[i]] + s.list[..i] + s.list[i + 1..]
  {
    WithoutAt(s.list, i);
  }

  /**
   * `GetAll` reports exactly the cached entries with `now < expiration`: an
   * item is in the snapshot iff its key is cached with that entry and it is live.
   */
  lemma GetAllExactlyLive<V>(s: State<V>, now: int, e: CacheEntry<V>)
    requires Consistent(s)
    ensures Response(e) in Live(Entries(s), now) <==>
      e.key in s.cache && s.cache[e.key] == e && now < e.expiration
  {
    LiveMembers(Entries(s), now, e);
    EntriesExactlyCache(s);
  }

  /** `Get` right after `Set` finds the value just stored until its expiry, and not from then on. */
  lemma SetThenGet<V>(s: State<V>, capacity: int, key: string, value: V, ttl: int, now: int, later: int)
    requires Consistent(s)
    ensures var t := SetSpec(s, capacity, key, value, ttl, now);
      var (u, found) := GetSpec(t, key, later);
      && (later < Expiry(ttl, now) ==> found == Some(value) && u.list == t.list)
      && (later >= Expiry(ttl, now) ==> found == None && key !in u.cache)
  {
    var t := SetSpec(s, capacity, key, value, ttl, now);
    assert Without(t.list, key) == t.list[1..] by {
      WithoutAt(t.list, 0);
    }
  }

  /**
   * `Set` of the existing key at position `i`: value and expiry replaced, the
   * key moved to the front, the other keys in their order.
   */
  lemma SetExistingKey<V>(s: State<V>, capacity: int, i: nat, value: V, ttl: int, now: int)
    requires Consistent(s) && i < |s.list|
    ensures var r := SetSpec(s, capacity, s.list[i], value, ttl, now);
      && r.list == [s.list[i]] + s.list[..i] + s.list[i + 1..]
      && r.cache == s.cache[s.list[i] := CacheEntry(s.list[i], value, Expiry(ttl, now))]
  {
    WithoutAt(s.list, i);
  }

  /** `Set` of a new key when nothing is evicted: the entry is added and the key pushed at the front. */
  lemma SetNewKey<V>(s: State<V>, capacity: int, key: string, value: V, ttl: int, now: int)
    requires Consistent(s) && key !in s.cache && !(|s.list| > capacity && s.list != [])
    ensures SetSpec(s, capacity, key, value, ttl, now)
      == State(s.cache[key := CacheEntry(key, value, Expiry(ttl, now))], [key] + s.list)
  {
    var r := SetSpec(s, capacity, key, value, ttl, now);
    assert r.cache == s.cache[key := CacheEntry(key, value, Expiry(ttl, now))];
  }

  /** `Set` of a new key on a list longer than the capacity: the back entry goes, the key is pushed at the front. */
  lemma SetNewKeyEvicting<V>(s: State<V>, capacity: int, key: string, value: V, ttl: int, now: int)
    requires Consistent(s) && key !in s.cache && |s.list| > capacity && s.list != []
    ensures SetSpec(s, capacity, key, value, ttl, now)
      == State((s.cache - {s.list[|s.list| - 1]})[key := CacheEntry(key, value, Expiry(ttl, now))],
               [key] + s.list[..|s.list| - 1])
  {
    var r := SetSpec(s, capacity, key, value, ttl, now);
    assert r.cache == (s.cache - {s.list[|s.list| - 1]})[key := CacheEntry(key, value, Expiry(ttl, now))];
  }

  /**
   * Capacity 2: `Set a`, `Set b`, `Set c` with no TTL keeps all three
   * entries. `evict` is called at length 2 but removes only above length 2.
   */
  lemma CapacityTwoKeepsThree<V>(a: string, b: string, c: string, x: V, now: int)
    requires a != b && a != c && b != c
    ensures SetSpec(SetSpec(SetSpec(State(map[], []), 2, a, x, 0, now), 2, b, x, 0, now), 2, c, x, 0, now)
      == State(map[a := CacheEntry(a, x, NoExpiry), b := CacheEntry(b, x, NoExpiry), c := CacheEntry(c, x, NoExpiry)], [c, b, a])
  {
    var s0: State<V> := State(map[], []);
    SetNewKey(s0, 2, a, x, 0, now);
    var s1 := SetSpec(s0, 2, a, x, 0, now);
    assert s1.cache.Keys == {a} && s1.list == [a];
    SetNewKey(s1, 2, b, x, 0, now);
    var s2 := SetSpec(s1, 2, b, x, 0, now);
    assert s2.cache.Keys == {a, b} && s2.list == [b, a];
    SetNewKey(s2, 2, c, x, 0, now);
  }

  /**
   * Capacity 2, continuing from three entries: a fourth new key evicts the
   * least recently used `a` and the cache again holds three entries.
   */
  lemma CapacityTwoFourthKeyEvictsOldest<V>(a: string, b: string, c: string, d: string, x: V, now: int)
    requires a != b && a != c && a != d && b != c && b != d && c != d
    ensures var s3 := State(map[a := CacheEntry(a, x, NoExpiry), b := CacheEntry(b, x, NoExpiry), c := CacheEntry(c, x, NoExpiry)], [c, b, a]);
      var s4 := SetSpec(s3, 2, d, x, 0, now);
      s4.list == [d, c, b] && a !in s4.cache
  {
    var s3 := State(map[a := CacheEntry(a, x, NoExpiry), b := CacheEntry(b, x, NoExpiry), c := CacheEntry(c, x, NoExpiry)], [c, b, a]);
    SetNewKeyEvicting(s3, 2, d, x, 0, now);
    assert [c, b, a][..2] == [c, b];
  }

  /** `Get` of the back key `a` of `[b, a]` finds it and moves it to the front. */
  lemma GetMovesBackToFront<V>(a: string, b: string, x: V, y: V, now: int)
    requires a != b && now < NoExpiry
    ensures var s := State(map[a := CacheEntry(a, x, NoExpiry), b := CacheEntry(b, y, NoExpiry)], [b, a]);
      GetSpec(s, a, now) == (State(s.cache, [a, b]), Some(x))
  {
    var s := State(map[a := CacheEntry(a, x, NoExpiry), b := CacheEntry(b, y, NoExpiry)], [b, a]);
    assert Without(s.list, a) == [b] by { WithoutAt(s.list, 1); }
    assert a in s.cache && now < s.cache[a].expiration;
    var r := GetSpec(s, a, now);
    assert r.0.list == [a, b] && r.0.cache == s.cache && r.1 == Some(x);
  }

  /**
   * A `Get` protects a key from eviction: with capacity 1 and entries `[b, a]`
   * (after `Set a`, `Set b`), `Get a` and then a new key `c` evict `b`, not `a`.
   */
  lemma GetProtectsFromEviction<V>(a: string, b: string, c: string, x: V, now: int)
    requires a != b && a != c && b != c
    requires now < NoExpiry
    ensures var s2 := State(map[a := CacheEntry(a, x, NoExpiry), b := CacheEntry(b, x, NoExpiry)], [b, a]);
      var (s3, found) := GetSpec(s2, a, now);
      var s4 := SetSpec(s3, 1, c, x, 0, now);
      found == Some(x) && s4.list == [c, a] && b !in s4.cache
  {
    GetMovesBackToFront(a, b, x, x, now);
    var s3 := State(map[a := CacheEntry(a, x, NoExpiry), b := CacheEntry(b, x, NoExpiry)], [a, b]);
    SetNewKeyEvicting(s3, 1, c, x, 0, now);
    assert [a, b][..1] == [a];
  }

  /**
   * With two expired entries, the sweep as written removes only the back one,
   * while the intended sweep removes both.
   */
  lemma SweepAsWrittenLeavesExpired<V>(a: string, b: string, x: V, y: V, exp: int, now: int)
    requires a != b && now > exp
    ensures var s := State(map[a := CacheEntry(a, x, exp), b := CacheEntry(b, y, exp)], [a, b]);
      && SweepAsWritten(s, now).list == [a]
      && SweepSpec(s, now).list == []
  {
    var s := State(map[a := CacheEntry(a, x, exp), b := CacheEntry(b, y, exp)], [a, b]);
    assert Consistent(s);
    assert SweepAsWritten(s, now).list == [a];
    SweepRemovesOnlyExpired(s, now);
  }

  // ---------------------------------------------------------------------------
  // The cache object
  // ---------------------------------------------------------------------------

  class LruCache<V> {
    const capacity: int
    var cache: map<string, CacheEntry<V>>
    var list: seq<string>

    function Model(): State<V>
      reads this
    {
      State(cache, list)
    }

    /** The two views agree and the list never holds more than `MaxLen(capacity)` entries. */
    ghost predicate Valid()
      reads this
    {
      Consistent(Model()) && |list| <= MaxLen(capacity)
    }

    /** NewLRUCache: an empty cache; the capacity is not checked. */
    constructor (capacity: int)
      ensures Valid() && this.capacity == capacity && cache == map[] && list == []
    {
      this.capacity := capacity;
      cache := map[];
      list := [];
    }

    method Get(key: string, now: int) returns (value: Option<V>)
      requires Valid()
      modifies this
      ensures Valid()
      ensures (Model(), value) == GetSpec(old(Model()), key, now)
    {
      if key in cache {
        list := ToFront(list, key);
        var entry := cache[key];
        if now < entry.expiration {
          return Some(entry.value);
        }
        assert Without([key] + Without(old(list), key), key) == Without(old(list), key);
        Delete(key);
      }
      return None;
    }

    method Set(key: string, value: V, ttl: int, now: int)
      requires Valid()
      modifies this
      ensures Valid()
      ensures Model() == SetSpec(old(Model()), capacity, key, value, ttl, now)
    {
      var expire := if ttl > 0 then now + ttl else NoExpiry;
      if key in cache {
        list := ToFront(list, key);
        var entry := cache[key];
        cache := cache[key := entry.(value := value, expiration := expire)];
      } else {
        if |list| >= capacity {
          Evict();
        }
        var entry := CacheEntry(key, value, expire);
        list := [key] + list;
        cache := cache[key := entry];
      }
    }

    /** `Delete` and the unlocked `delete` behave the same once locking is left out. */
    method Delete(key: string)
      requires Valid()
      modifies this
      ensures Valid()
      ensures Model() == DeleteSpec(old(Model()), key)
    {
      if key in cache {
        list := Without(list, key);
        cache := cache - {key};
      }
    }

    method Evict()
      requires Valid()
      modifies this
      ensures Valid()
      ensures Model() == EvictSpec(old(Model()), capacity)
    {
      if |list| > capacity {
        if list != [] {
          var back := list[|list| - 1];
          WithoutBack(list);
          list := Without(list, back);
          var entry := cache[back];
          cache := cache - {entry.key};
        }
      }
    }

    /**
     * One pass of the sweep in `cleanupExpiredEntries` as intended: walking from
     * the back, it deletes entries while they have expired. The code as written
     * stops after the first deletion; that pass is `SweepAsWritten`.
     */
    method CleanupPass(now: int)
      requires Valid()
      modifies this
      ensures Valid()
      ensures Model() == SweepSpec(old(Model()), now)
    {
      while list != []
        invariant Valid()
        invariant SweepSpec(Model(), now) == SweepSpec(old(Model()), now)
        decreases |list|
      {
        ghost var before := Model();
        var entry := cache[list[|list| - 1]];
        if now > entry.expiration {
          WithoutBack(list);
          Delete(entry.key);
          assert Model() == DropBack(before);
        } else {
          break;
        }
      }
    }

    /** A front-to-back snapshot of the entries with `now < expiration`; the cache is not changed. */
    method GetAll(now: int) returns (items: seq<GetAllResponse<V>>)
      requires Valid()
      ensures items == Live(Entries(Model()), now)
    {
      ghost var es := Entries(Model());
      items := [];
      var i := 0;
      while i < |list|
        invariant 0 <= i <= |list| == |es|
        invariant items == Live(es[..i], now)
      {
        var entry := cache[list[i]];
        assert entry == es[i];
        if now < entry.expiration {
          items := items + [GetAllResponse(entry.key, entry.value, entry.expiration)];
        }
        assert es[..i + 1] == es[..i] + [entry];
        LiveAppend(es[..i], [entry], now);
        i := i + 1;
      }
      assert es[..i] == es;
    }
  }
}
