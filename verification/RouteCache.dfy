/**
 The per-connection route cache of the unary server (galay-rpc/kernel/rpc_server.h:207-316, 459-485).
 */
module RouteCache {
  import opened Wire
  import opened Codec
  import opened Service

  const ROUTE_CACHE_SIZE: nat := 8
  const FNV_OFFSET: bv64 := 1469598103934665603
  const FNV_PRIME: bv64 := 1099511628211

  // ---- The route hash ---------------------------------------------------------------------------------------

  /** How one byte is folded into a hash. */
  type Mixer = (bv64, Byte) -> bv64

  function HashOf(mix: Mixer, hash: bv64, s: Bytes): bv64 {
    if s == [] then hash else mix(HashOf(mix, hash, s[..|s| - 1]), s[|s| - 1])
  }

  /** `hashAppend`. */
  method HashAppend(mix: Mixer, hash: bv64, s: Bytes) returns (h: bv64)
    ensures h == HashOf(mix, hash, s)
  {
    h := hash;
    for i := 0 to |s|
      invariant h == HashOf(mix, hash, s[..i])
    {
      assert s[..i + 1][..i] == s[..i];
      h := mix(h, s[i]);
    }
    assert s[..|s|] == s;
  }

  function RouteHash(mix: Mixer, key: Key): bv64 {
    mix(HashOf(mix, mix(HashOf(mix, FNV_OFFSET, key.service), 0xff), key.method_), ModeCode(key.mode))
  }

  /** `buildRouteHash`. */
  method BuildRouteHash(mix: Mixer, key: Key) returns (h: bv64)
    ensures h == RouteHash(mix, key)
  {
    h := HashAppend(mix, FNV_OFFSET, key.service);
    h := mix(h, 0xff);
    h := HashAppend(mix, h, key.method_);
    h := mix(h, ModeCode(key.mode));
  }

  /** FNV-1a: exclusive or, then multiply modulo 2^64. */
  function Fnv(h: bv64, b: Byte): bv64 { (h ^ (b as bv64)) * FNV_PRIME }

  const EMPTY_KEY := Key([], [], Unary)

  /** What the cache depends on: the key of an unused slot does not hash to its stored 0. */
  lemma {:induction false} EmptyRouteHash()
    ensures RouteHash(Fnv, EMPTY_KEY) == 11119749222611845852 && RouteHash(Fnv, EMPTY_KEY) != 0
  {
  }

  lemma {:induction false} HashOfTwo(mix: Mixer, h: bv64, a: Byte, b: Byte)
    ensures HashOf(mix, h, [a, b]) == mix(mix(h, a), b)
  {
    assert [a, b][..1] == [a];
    assert HashOf(mix, h, [a]) == mix(h, a);
  }

  /** What is folded, in order, for method `[c, d]` of service `[a, b]` called with a bidirectional stream. */
  lemma {:induction false} HashOrder(mix: Mixer, a: Byte, b: Byte, c: Byte, d: Byte)
    ensures RouteHash(mix, Key([a, b], [c, d], BidiStreaming))
         == mix(mix(mix(mix(mix(mix(1469598103934665603, a), b), 0xff), c), d), 3)
  {
    HashOfTwo(mix, FNV_OFFSET, a, b);
    HashOfTwo(mix, mix(HashOf(mix, FNV_OFFSET, [a, b]), 0xff), c, d);
  }

  // ---- The cache --------------------------------------------------------------------------------------------

  datatype Entry = Entry(hash: bv64, key: Key, handler: Option<Handler>)

  const UNUSED := Entry(0, EMPTY_KEY, None)

  /** `routeCacheHit`. */
  predicate Hit(e: Entry, key: Key, hash: bv64) { e.handler.Some? && e.hash == hash && e.key == key }

  /** `routeCacheKeyMatch`. */
  predicate KeyMatch(e: Entry, key: Key, hash: bv64) { e.hash == hash && e.key == key }

  /** The last of the first `n` insertions that went to slot `i`, when insertion `j` goes to slot `j % 8`. */
  function LastAt(n: nat, i: nat): (j: nat)
    requires i < ROUTE_CACHE_SIZE && i < n
    ensures j < n && j % ROUTE_CACHE_SIZE == i && n <= j + ROUTE_CACHE_SIZE
  {
    n - 1 - (n - 1 - i) % ROUTE_CACHE_SIZE
  }

  lemma {:induction false} SameSlot(a: nat, b: nat)
    requires a % ROUTE_CACHE_SIZE == b % ROUTE_CACHE_SIZE && a <= b < a + ROUTE_CACHE_SIZE
    ensures a == b
  {
  }

  lemma {:induction false} CursorMoves(n: nat)
    ensures (n % ROUTE_CACHE_SIZE + 1) % ROUTE_CACHE_SIZE == (n + 1) % ROUTE_CACHE_SIZE
  {
  }

  lemma {:induction false} LastAtGrows(n: nat, i: nat)
    requires i < ROUTE_CACHE_SIZE
    ensures i == n % ROUTE_CACHE_SIZE ==> i < n + 1 && LastAt(n + 1, i) == n
    ensures i != n % ROUTE_CACHE_SIZE && i < n + 1 ==> i < n && LastAt(n + 1, i) == LastAt(n, i)
  {
    if i == n % ROUTE_CACHE_SIZE {
      SameSlot(LastAt(n + 1, i), n);
    } else if i < n + 1 {
      var j, k := LastAt(n + 1, i), LastAt(n, i);
      if j <= k { SameSlot(j, k); } else { SameSlot(k, j); }
    }
  }

  /** The last eight are pairwise distinct. */
  ghost predicate Distinct(misses: seq<Key>) {
    forall i, j :: 0 <= i < j < |misses| && |misses| <= i + ROUTE_CACHE_SIZE ==> misses[i] != misses[j]
  }

  lemma {:induction false} StaysDistinct(misses: seq<Key>, key: Key)
    requires Distinct(misses) && forall i :: 0 <= i < |misses| && |misses| <= i + ROUTE_CACHE_SIZE ==> misses[i] != key
    ensures Distinct(misses + [key])
  {
  }

  class Cache {
    const resolve: Key -> Result<Handler>
    const hashOf: Key -> bv64
    const entries: array<Entry>
    var cursor: nat
    var lastHit: Option<nat>
    /** The keys that had to be resolved, in order: what the slots were filled with. */
    ghost var misses: seq<Key>

    /** Every used slot answers as `resolve` would, and `lastHit` is nothing or a current slot. */
    ghost predicate Sound()
      reads this, entries
    {
      && entries.Length == ROUTE_CACHE_SIZE && cursor < ROUTE_CACHE_SIZE
      && (lastHit.Some? ==> lastHit.value < ROUTE_CACHE_SIZE)
      && (forall i :: 0 <= i < ROUTE_CACHE_SIZE && entries[i].handler.Some? ==>
            resolve(entries[i].key) == Ok(entries[i].handler.value))
    }

    /** What slot `i` must hold after these insertions. */
    ghost function Expected(keys: seq<Key>, i: nat): Entry
      requires i < ROUTE_CACHE_SIZE
    {
      if i < |keys| then
        var key := keys[LastAt(|keys|, i)];
        Entry(hashOf(key), key, if resolve(key).Ok? then Some(resolve(key).value) else None)
      else UNUSED
    }

    lemma {:induction false} ExpectedGrows(keys: seq<Key>, key: Key, i: nat)
      requires i < ROUTE_CACHE_SIZE && resolve(key).Ok?
      ensures Expected(keys + [key], i)
           == if i == |keys| % ROUTE_CACHE_SIZE then Entry(hashOf(key), key, Some(resolve(key).value))
              else Expected(keys, i)
    {
      LastAtGrows(|keys|, i);
    }

    /** The slots hold exactly the last eight resolved misses, round-robin, and those are pairwise distinct. */
    ghost predicate Exact()
      requires entries.Length == ROUTE_CACHE_SIZE
      reads this, entries
    {
      && cursor == |misses| % ROUTE_CACHE_SIZE
      && (forall i :: 0 <= i < |misses| ==> resolve(misses[i]).Ok?)
      && (forall i :: 0 <= i < ROUTE_CACHE_SIZE ==> entries[i] == Expected(misses, i))
      && Distinct(misses)
    }

    ghost predicate Valid()
      reads this, entries
    {
      Sound() && (hashOf(EMPTY_KEY) != 0 ==> Exact())
    }

    constructor (resolve: Key -> Result<Handler>, hashOf: Key -> bv64)
      ensures Valid() && fresh(entries) && this.resolve == resolve && this.hashOf == hashOf && misses == []
    {
      this.resolve, this.hashOf := resolve, hashOf;
      entries := new Entry[ROUTE_CACHE_SIZE](_ => UNUSED);
      cursor, lastHit, misses := 0, None, [];
    }

    /** `findCachedHandler`: only `lastHit` moves. */
    method FindCachedHandler(key: Key, hash: bv64) returns (handler: Option<Handler>)
      requires Valid()
      modifies `lastHit
      ensures Valid()
      ensures handler.Some? ==> resolve(key) == Ok(handler.value)
      ensures handler.None? <==> forall i :: 0 <= i < ROUTE_CACHE_SIZE ==> !Hit(entries[i], key, hash)
    {
      if lastHit.Some? && Hit(entries[lastHit.value], key, hash) {
        return entries[lastHit.value].handler;
      }
      for i := 0 to ROUTE_CACHE_SIZE
        invariant Valid() && lastHit == old(lastHit)
        invariant forall k :: 0 <= k < i ==> !Hit(entries[k], key, hash)
      {
        if Hit(entries[i], key, hash) {
          lastHit := Some(i);
          return entries[i].handler;
        }
      }
      handler := None;
    }

    /** `updateRouteCache` after a miss was resolved. The in-place branch, which would leave the round-robin order, is
        never taken: a used slot with this key would have been a hit, and an unused one does not match. */
    method UpdateRouteCache(key: Key, hash: bv64, handler: Handler)
      requires Valid() && resolve(key) == Ok(handler) && hash == hashOf(key)
      requires forall i :: 0 <= i < ROUTE_CACHE_SIZE ==> !Hit(entries[i], key, hash)
      modifies this, entries
      ensures Valid()
      ensures hashOf(EMPTY_KEY) != 0 ==> misses == old(misses) + [key]
    {
      for i := 0 to ROUTE_CACHE_SIZE
        invariant forall k :: 0 <= k < i ==> !KeyMatch(entries[k], key, hash)
      {
        if KeyMatch(entries[i], key, hash) {
          assert hashOf(EMPTY_KEY) != 0 ==> entries[i] == Expected(misses, i);
          entries[i] := entries[i].(handler := Some(handler));
          lastHit := Some(i);
          return;
        }
      }
      Insert(key, hash, handler);
    }

    /** The end of `updateRouteCache`: the slot at the cursor is overwritten and the cursor moves on. */
    method Insert(key: Key, hash: bv64, handler: Handler)
      requires Valid() && resolve(key) == Ok(handler) && hash == hashOf(key)
      requires forall i :: 0 <= i < ROUTE_CACHE_SIZE ==> !Hit(entries[i], key, hash)
      modifies this, entries
      ensures Valid() && misses == old(misses) + [key]
    {
      NotRecent(key);
      entries[cursor] := Entry(hash, key, Some(handler));
      lastHit := Some(cursor);
      cursor := (cursor + 1) % ROUTE_CACHE_SIZE;
      misses := misses + [key];
      if hashOf(EMPTY_KEY) != 0 {
        StaysDistinct(old(misses), key);
        CursorMoves(|old(misses)|);
        forall i | 0 <= i < ROUTE_CACHE_SIZE
          ensures entries[i] == Expected(misses, i)
        {
          ExpectedGrows(old(misses), key, i);
        }
      }
    }

    /** The key is one of the last eight that were resolved. */
    ghost predicate Recent(key: Key)
      reads this
    {
      exists j :: 0 <= j < |misses| && |misses| <= j + ROUTE_CACHE_SIZE && misses[j] == key
    }

    lemma {:induction false} HitIsRecent(key: Key, hash: bv64)
      requires Valid() && hashOf(EMPTY_KEY) != 0
      requires exists i :: 0 <= i < ROUTE_CACHE_SIZE && Hit(entries[i], key, hash)
      ensures Recent(key)
    {
    }

    /** A key that hits no slot is not among the last eight misses. */
    lemma {:induction false} NotRecent(key: Key)
      requires Valid()
      requires forall i :: 0 <= i < ROUTE_CACHE_SIZE ==> !Hit(entries[i], key, hashOf(key))
      ensures hashOf(EMPTY_KEY) != 0 ==> !Recent(key)
    {
      if hashOf(EMPTY_KEY) != 0 {
        forall j | 0 <= j < |misses| && |misses| <= j + ROUTE_CACHE_SIZE
          ensures misses[j] != key
        {
          var i := j % ROUTE_CACHE_SIZE;
          var k := LastAt(|misses|, i);
          if j <= k { SameSlot(j, k); } else { SameSlot(k, j); }
          assert entries[i] == Expected(misses, i);
        }
      }
    }

    /** The routing part of one `handleConnection` iteration: whatever was served before and however keys collide, the
        handler or error chosen is the one the uncached lookup gives; a lookup is added exactly when it succeeds and its
        key is not one of the last eight added. */
    method Route(key: Key, hash: bv64) returns (r: Result<Handler>)
      requires Valid() && hash == hashOf(key)
      modifies this, entries
      ensures Valid() && r == resolve(key)
      ensures hashOf(EMPTY_KEY) != 0 ==>
                misses == if r.Ok? && !old(Recent(key)) then old(misses) + [key] else old(misses)
    {
      var cached := FindCachedHandler(key, hash);
      if cached.Some? {
        if hashOf(EMPTY_KEY) != 0 { HitIsRecent(key, hash); }
        return Ok(cached.value);
      }
      NotRecent(key);
      r := resolve(key);
      if r.Ok? {
        UpdateRouteCache(key, hash, r.value);
      }
    }
  }
}
