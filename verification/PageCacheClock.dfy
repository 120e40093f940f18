/** The page cache (kernel/mm/pcache.c): hash chains, a ring with a moving hand, and frame
    references that callers and the cache share. */
module PageCacheClock {
  import opened Options

  const BUCKETS: nat := 1024

  /** Inode number and page index. */
  datatype Key = Key(ino: nat, page: nat)

  datatype Entry = Entry(frame: nat, accessed: bool)

  type Entries = map<Key, Entry>

  ghost predicate NoRepeat(ks: seq<Key>)
  {
    forall i: nat, j: nat | i < j < |ks| :: ks[i] != ks[j]
  }

  /** The ring holds every entry once; the hand is at its first element. */
  ghost predicate RingOk(ring: seq<Key>, entries: Entries)
  {
    NoRepeat(ring) && forall k :: k in ring <==> k in entries
  }

  /** Each entry is in the chain of its hash, once, and in no other. */
  ghost predicate ChainsOk(chains: seq<seq<Key>>, entries: Entries, hash: Key -> nat)
  {
    && |chains| == BUCKETS && (forall k :: hash(k) < BUCKETS)
    && (forall h: nat | h < BUCKETS :: NoRepeat(chains[h]))
    && (forall h: nat, k | h < BUCKETS :: k in chains[h] <==> k in entries && hash(k) == h)
  }

  /** One reference for each entry of the ring. */
  ghost function CacheRefs(ring: seq<Key>, entries: Entries): multiset<nat>
    requires forall k | k in ring :: k in entries
  {
    if ring == [] then multiset{}
    else CacheRefs(ring[..|ring| - 1], entries) + multiset{entries[ring[|ring| - 1]].frame}
  }

  // ---------------------------------------------------------------- references

  lemma {:induction false} RefsConcat(a: seq<Key>, b: seq<Key>, entries: Entries)
    requires (forall k | k in a :: k in entries) && forall k | k in b :: k in entries
    ensures CacheRefs(a + b, entries) == CacheRefs(a, entries) + CacheRefs(b, entries)
  {
    if b == [] {
      assert a + b == a;
    } else {
      var n := |b| - 1;
      assert (a + b)[..|a| + n] == a + b[..n];
      RefsConcat(a, b[..n], entries);
    }
  }

  lemma {:induction false} RefsSame(ring: seq<Key>, entries: Entries, entries': Entries)
    requires forall k | k in ring :: k in entries && k in entries' && entries'[k].frame == entries[k].frame
    ensures CacheRefs(ring, entries') == CacheRefs(ring, entries)
  {
    if ring != [] { RefsSame(ring[..|ring| - 1], entries, entries'); }
  }

  lemma RefsOne(k: Key, entries: Entries)
    requires k in entries
    ensures CacheRefs([k], entries) == multiset{entries[k].frame}
  {
    assert [k][..0] == [];
  }

  lemma RefsMiddle(a: seq<Key>, k: Key, b: seq<Key>, entries: Entries)
    requires (forall x | x in a :: x in entries) && (forall x | x in b :: x in entries) && k in entries
    ensures forall x | x in a + [k] + b :: x in entries
    ensures forall x | x in a + b :: x in entries
    ensures CacheRefs(a + [k] + b, entries) == CacheRefs(a + b, entries) + multiset{entries[k].frame}
  {
    RefsConcat(a + [k], b, entries);
    RefsConcat(a, [k], entries);
    RefsConcat(a, b, entries);
    RefsOne(k, entries);
  }

  /** Taking an entry out of the ring takes one reference to its frame. */
  lemma RefsRemove(ring: seq<Key>, i: nat, k: Key, entries: Entries)
    requires i < |ring| && k == ring[i] && NoRepeat(ring) && forall x | x in ring :: x in entries
    ensures forall x | x in ring[..i] + ring[i + 1..] :: x in entries - {k}
    ensures CacheRefs(ring, entries) == CacheRefs(ring[..i] + ring[i + 1..], entries - {k}) + multiset{entries[k].frame}
  {
    var a, b := ring[..i], ring[i + 1..];
    assert ring == a + [k] + b;
    assert forall x | x in a + b :: x in ring && x != k;
    RefsMiddle(a, k, b, entries);
    RefsSame(a + b, entries, entries - {k});
  }

  lemma RefsAppend(ring: seq<Key>, k: Key, entries: Entries, e: Entry)
    requires k !in entries && forall x | x in ring :: x in entries
    ensures CacheRefs(ring + [k], entries[k := e]) == CacheRefs(ring, entries) + multiset{e.frame}
  {
    RefsSame(ring, entries, entries[k := e]);
    assert (ring + [k])[..|ring|] == ring;
  }

  // ---------------------------------------------------------------- chains

  /** The walk along one hash chain. */
  method Scan(chain: seq<Key>, k: Key) returns (i: nat)
    ensures i <= |chain| && (i < |chain| <==> k in chain) && (i < |chain| ==> chain[i] == k)
  {
    i := 0;
    while i < |chain|
      invariant i <= |chain| && k !in chain[..i]
    {
      if chain[i] == k { return; }
      i := i + 1;
    }
  }

  lemma ChainPush(chains: seq<seq<Key>>, entries: Entries, hash: Key -> nat, k: Key, e: Entry)
    requires ChainsOk(chains, entries, hash) && k !in entries
    ensures ChainsOk(chains[hash(k) := [k] + chains[hash(k)]], entries[k := e], hash)
  {
  }

  /** One link of a chain taken out. */
  function Unlinked(chains: seq<seq<Key>>, h: nat, i: nat): seq<seq<Key>>
    requires h < |chains| && i < |chains[h]|
  {
    chains[h := chains[h][..i] + chains[h][i + 1..]]
  }

  lemma ChainUnlink(chains: seq<seq<Key>>, entries: Entries, hash: Key -> nat, k: Key, i: nat)
    requires ChainsOk(chains, entries, hash) && k in entries && i < |chains[hash(k)]| && chains[hash(k)][i] == k
    ensures ChainsOk(Unlinked(chains, hash(k), i), entries - {k}, hash)
  {
    var c := chains[hash(k)];
    assert c == c[..i] + [k] + c[i + 1..];
  }

  // ---------------------------------------------------------------- the ring

  /** clock_remove: the ring without one entry; if the hand was on it, it moves to the next. */
  function Without(ring: seq<Key>, k: Key): seq<Key>
  {
    if ring == [] then [] else if ring[0] == k then ring[1..] else [ring[0]] + Without(ring[1..], k)
  }

  lemma {:induction false} WithoutAt(ring: seq<Key>, k: Key) returns (i: nat)
    requires k in ring
    ensures i < |ring| && ring[i] == k && Without(ring, k) == ring[..i] + ring[i + 1..]
  {
    if ring[0] == k {
      i := 0;
    } else {
      var j := WithoutAt(ring[1..], k);
      i := j + 1;
      assert ring[..i] == [ring[0]] + ring[1..][..j];
    }
  }

  lemma RingRemove(ring: seq<Key>, k: Key, entries: Entries)
    requires RingOk(ring, entries) && k in entries
    ensures RingOk(Without(ring, k), entries - {k})
    ensures CacheRefs(ring, entries) == CacheRefs(Without(ring, k), entries - {k}) + multiset{entries[k].frame}
  {
    var i := WithoutAt(ring, k);
    RefsRemove(ring, i, k, entries);
    MembersWithout(ring, k, i);
  }

  lemma MembersWithout(ring: seq<Key>, k: Key, i: nat)
    requires NoRepeat(ring) && i < |ring| && ring[i] == k
    ensures var rest := ring[..i] + ring[i + 1..]; NoRepeat(rest) && forall x :: x in rest <==> x in ring && x != k
  {
    var rest := ring[..i] + ring[i + 1..];
    assert forall m: nat | m < |rest| :: rest[m] == ring[if m < i then m else m + 1];
    assert ring == ring[..i] + [k] + ring[i + 1..];
  }

  lemma RingInsert(ring: seq<Key>, k: Key, entries: Entries, e: Entry)
    requires RingOk(ring, entries) && k !in entries
    ensures RingOk(ring + [k], entries[k := e])
    ensures CacheRefs(ring + [k], entries[k := e]) == CacheRefs(ring, entries) + multiset{e.frame}
  {
    RefsAppend(ring, k, entries, e);
  }

  /** Setting an accessed bit changes no structure. */
  lemma MarkKeeps(ring: seq<Key>, chains: seq<seq<Key>>, entries: Entries, hash: Key -> nat, k: Key, accessed: bool)
    requires RingOk(ring, entries) && ChainsOk(chains, entries, hash) && k in entries
    ensures var marked := entries[k := entries[k].(accessed := accessed)];
            RingOk(ring, marked) && ChainsOk(chains, marked, hash) && CacheRefs(ring, marked) == CacheRefs(ring, entries)
  {
    RefsSame(ring, entries, entries[k := entries[k].(accessed := accessed)]);
  }

  /** The same keys with the same frames. */
  ghost predicate SameFrames(entries: Entries, entries': Entries)
  {
    entries'.Keys == entries.Keys && forall k | k in entries :: entries'[k].frame == entries[k].frame
  }

  // ---------------------------------------------------------------- the books

  lemma CallerGains(refs: multiset<nat>, held: multiset<nat>, cache: multiset<nat>, f: nat)
    requires refs == held + cache
    ensures refs + multiset{f} == (held + multiset{f}) + cache
  {
  }

  lemma CallerDrops(refs: multiset<nat>, held: multiset<nat>, cache: multiset<nat>, f: nat)
    requires refs == held + cache && f in held
    ensures refs - multiset{f} == (held - multiset{f}) + cache
  {
  }

  lemma CacheGains(refs: multiset<nat>, held: multiset<nat>, cache: multiset<nat>, f: nat)
    requires refs == held + cache
    ensures refs + multiset{f} == held + (cache + multiset{f})
  {
  }

  lemma CacheDrops(refs: multiset<nat>, held: multiset<nat>, cache: multiset<nat>, f: nat)
    requires refs == held + (cache + multiset{f})
    ensures refs - multiset{f} == held + cache
  {
  }

  lemma DropKeeps(chains: seq<seq<Key>>, ring: seq<Key>, entries: Entries, hash: Key -> nat,
                  refs: multiset<nat>, held: multiset<nat>, k: Key, i: nat)
    requires ChainsOk(chains, entries, hash) && RingOk(ring, entries) && refs == held + CacheRefs(ring, entries)
    requires k in entries && i < |chains[hash(k)]| && chains[hash(k)][i] == k
    ensures ChainsOk(Unlinked(chains, hash(k), i), entries - {k}, hash)
    ensures RingOk(Without(ring, k), entries - {k})
    ensures refs - multiset{entries[k].frame} == held + CacheRefs(Without(ring, k), entries - {k})
  {
    ChainUnlink(chains, entries, hash, k, i);
    RingRemove(ring, k, entries);
    CacheDrops(refs, held, CacheRefs(Without(ring, k), entries - {k}), entries[k].frame);
  }

  // ---------------------------------------------------------------- operations

  class PageCache {
    const hash: Key -> nat
    var chains: seq<seq<Key>>
    /** All keys in ring order, from the hand on. */
    var ring: seq<Key>
    var entries: Entries
    /** The frames' reference counts. */
    var refs: multiset<nat>
    /** The references that callers hold. */
    ghost var held: multiset<nat>

    /** Every reference is a caller's or belongs to one entry. */
    ghost predicate Valid()
      reads this
    {
      && ChainsOk(chains, entries, hash) && RingOk(ring, entries)
      && refs == held + CacheRefs(ring, entries)
    }

    constructor (hash: Key -> nat)
      requires forall k :: hash(k) < BUCKETS
      ensures Valid() && entries == map[] && held == multiset{} && this.hash == hash
    {
      this.hash := hash;
      chains := seq(BUCKETS, _ => []);
      ring, entries, refs, held := [], map[], multiset{}, multiset{};
    }

    /** The chain walk: the key's place in the chain of its hash. */
    method Lookup(k: Key) returns (found: bool, i: nat)
      requires Valid()
      ensures found <==> k in entries
      ensures found ==> hash(k) < |chains| && i < |chains[hash(k)]| && chains[hash(k)][i] == k
    {
      i := Scan(chains[hash(k)], k);
      found := i < |chains[hash(k)]|;
    }

    method Mark(k: Key, accessed: bool)
      requires Valid() && k in entries
      modifies this`entries
      ensures Valid() && entries == old(entries)[k := old(entries[k]).(accessed := accessed)]
    {
      MarkKeeps(ring, chains, entries, hash, k, accessed);
      entries := entries[k := entries[k].(accessed := accessed)];
    }

    /** pcache_get: a hit hands the caller one reference. */
    method Get(k: Key) returns (r: Option<nat>)
      requires Valid()
      modifies this
      ensures Valid() && ring == old(ring)
      ensures entries == if r.Some? then old(entries)[k := Entry(r.value, true)] else old(entries)
      ensures r == if k.ino != 0 && k in old(entries) then Some(old(entries[k].frame)) else None
      ensures held == if r.Some? then old(held) + multiset{r.value} else old(held)
    {
      if k.ino == 0 { return None; }
      var found, _ := Lookup(k);
      if !found { return None; }
      Mark(k, true);
      TakeRef(entries[k].frame);
      return Some(entries[k].frame);
    }

    method TakeRef(frame: nat)
      requires Valid()
      modifies this`refs, this`held
      ensures Valid() && held == old(held) + multiset{frame}
    {
      CallerGains(refs, held, CacheRefs(ring, entries), frame);
      refs, held := refs + multiset{frame}, held + multiset{frame};
    }

    /** A reference to the frame that won the race for one to the frame that lost it. */
    method SwapRef(winner: nat, loser: nat)
      requires Valid() && loser in held
      modifies this`refs, this`held
      ensures Valid() && held == old(held) + multiset{winner} - multiset{loser}
    {
      TakeRef(winner);
      PutRef(loser);
    }

    method PutRef(frame: nat)
      requires Valid() && frame in held
      modifies this`refs, this`held
      ensures Valid() && held == old(held) - multiset{frame}
    {
      CallerDrops(refs, held, CacheRefs(ring, entries), frame);
      refs, held := refs - multiset{frame}, held - multiset{frame};
    }

    /** pcache_insert: the caller passes in one reference and gets one back. */
    method Insert(k: Key, frame: nat, memory: bool) returns (r: Option<nat>)
      requires Valid() && frame in held
      modifies this
      ensures Valid()
      ensures r.None? <==> k.ino == 0 || !memory
      ensures r.None? || k in old(entries) ==> entries == old(entries) && ring == old(ring)
      ensures r.None? ==> held == old(held)
      ensures r.Some? && k in old(entries) ==>
                r.value == old(entries[k].frame) && held == old(held) + multiset{r.value} - multiset{frame}
      ensures r.Some? && k !in old(entries) ==>
                r.value == frame && held == old(held) && entries == old(entries)[k := Entry(frame, true)] && ring == old(ring) + [k]
    {
      if k.ino == 0 || !memory { return None; }
      var found, _ := Lookup(k);
      if found {
        var existing := entries[k].frame;
        SwapRef(existing, frame);
        return Some(existing);
      }
      var e := Entry(frame, true);
      ChainPush(chains, entries, hash, k, e);
      RingInsert(ring, k, entries, e);
      CacheGains(refs, held, CacheRefs(ring, entries), frame);
      refs := refs + multiset{frame};
      chains, ring, entries := chains[hash(k) := [k] + chains[hash(k)]], ring + [k], entries[k := e];
      return Some(frame);
    }

    /** Unlink an entry from its chain and the ring and drop the cache's reference. */
    method Drop(k: Key, i: nat)
      requires Valid() && k in entries && i < |chains[hash(k)]| && chains[hash(k)][i] == k
      modifies this`chains, this`ring, this`entries, this`refs
      ensures Valid() && entries == old(entries) - {k} && ring == Without(old(ring), k)
      ensures refs == old(refs) - multiset{old(entries[k].frame)}
      ensures chains == Unlinked(old(chains), hash(k), i)
    {
      DropKeeps(chains, ring, entries, hash, refs, held, k, i);
      refs := refs - multiset{entries[k].frame};
      chains, ring, entries := Unlinked(chains, hash(k), i), Without(ring, k), entries - {k};
    }

    /** pcache_evict_inode: exactly the pages of the inode leave the cache. */
    method EvictInode(ino: nat)
      requires Valid()
      modifies this`chains, this`ring, this`entries, this`refs
      ensures Valid()
      ensures forall k :: k in entries <==> k in old(entries) && (k.ino != ino || ino == 0)
      ensures forall k | k in entries :: entries[k] == old(entries)[k]
    {
      if ino == 0 { return; }
      var h: nat := 0;
      while h < BUCKETS
        invariant h <= BUCKETS && Valid() && Shrunk(old(entries), entries, ino)
        invariant forall k | k in entries && hash(k) < h :: k.ino != ino
      {
        EvictFromChain(h, ino);
        h := h + 1;
      }
    }

    method EvictFromChain(h: nat, ino: nat)
      requires Valid() && h < BUCKETS
      modifies this`chains, this`ring, this`entries, this`refs
      ensures Valid() && Shrunk(old(entries), entries, ino)
      ensures forall k | k in entries && hash(k) == h :: k.ino != ino
    {
      var i: nat := 0;
      while i < |chains[h]|
        invariant Valid() && Shrunk(old(entries), entries, ino)
        invariant i <= |chains[h]| && forall m: nat | m < i :: chains[h][m].ino != ino
        decreases |chains[h]| - i
      {
        if chains[h][i].ino == ino {
          DropAt(h, i, ino);
        } else {
          i := i + 1;
        }
      }
      assert forall k | k in chains[h] :: k.ino != ino;
    }

    method DropAt(h: nat, i: nat, ghost ino: nat)
      requires Valid() && h < BUCKETS && i < |chains[h]| && chains[h][i].ino == ino
      modifies this`chains, this`ring, this`entries, this`refs
      ensures Valid() && Shrunk(old(entries), entries, ino)
      ensures |chains[h]| == |old(chains)[h]| - 1 && forall m: nat | m < i :: chains[h][m] == old(chains)[h][m]
    {
      var k := chains[h][i];
      assert k in chains[h];
      Drop(k, i);
    }

    /** pcache_evict_one: a victim is found exactly when some entry's frame has no reference but
        the cache's own; it is such an entry, and no caller's reference is touched.  The hand stands
        behind it, and each visit on the way there turned an accessed bit over. */
    method EvictOne() returns (found: bool, victim: Key, ghost at: nat)
      requires Valid()
      modifies this`chains, this`ring, this`entries, this`refs
      ensures Valid()
      ensures found <==> exists k :: Evictable(old(entries), old(refs), k)
      ensures if found then Evicted(old(ring), old(entries), old(refs), victim, ring, entries, at)
              else entries == old(entries) && ring == old(ring) && refs == old(refs)
      ensures found ==> held[old(entries)[victim].frame] == 0 && refs == old(refs) - multiset{old(entries)[victim].frame}
    {
      found, victim, at := MoveHand();
      if found {
        EvictionIs(old(ring), old(entries), refs, victim, ring, entries, at);
        EvictableIsFree(ring, entries, refs, held, victim);
        DropVictim(victim);
      }
    }

    method MoveHand() returns (found: bool, victim: Key, ghost at: nat)
      requires Valid()
      modifies this`ring, this`entries
      ensures Valid() && Swung(old(ring), old(entries), refs, found, victim, ring, entries, at)
    {
      var ring', entries';
      found, victim, ring', entries', at := Sweep(ring, entries, refs);
      SwungKeeps(ring, entries, refs, found, victim, ring', entries', at);
      ChainsSame(chains, entries, entries', hash);
      ring, entries := ring', entries';
    }

    method DropVictim(k: Key)
      requires Valid() && k in entries
      modifies this`chains, this`ring, this`entries, this`refs
      ensures Valid() && entries == old(entries) - {k} && refs == old(refs) - multiset{old(entries[k].frame)}
      ensures ring == Without(old(ring), k)
    {
      var _, at := Lookup(k);
      Drop(k, at);
    }
  }

  lemma ChainsSame(chains: seq<seq<Key>>, entries: Entries, entries': Entries, hash: Key -> nat)
    requires ChainsOk(chains, entries, hash) && entries'.Keys == entries.Keys
    ensures ChainsOk(chains, entries', hash)
  {
    assert forall k :: k in entries' <==> k in entries;
  }

  /** The scan of pcache_evict_one: at most two turns of the hand. */
  method Sweep(ring: seq<Key>, entries: Entries, refs: multiset<nat>)
    returns (found: bool, k: Key, ring': seq<Key>, entries': Entries, ghost at: nat)
    requires RingOk(ring, entries)
    ensures found <==> exists x :: Evictable(entries, refs, x)
    ensures Swung(ring, entries, refs, found, k, ring', entries', at)
  {
    found, k, ring', entries', at := false, Key(0, 0), ring, entries, 0;
    if ring == [] {
      EmptyRing(entries, refs, k);
      return;
    }
    found, k, ring', entries', at := TwoTurns(ring, entries, refs);
  }

  lemma EmptyRing(entries: Entries, refs: multiset<nat>, k: Key)
    requires RingOk([], entries)
    ensures Swung([], entries, refs, false, k, [], entries, 0)
  {
  }

  /** The loop of the scan, over a ring that is not empty. */
  method TwoTurns(ring: seq<Key>, entries: Entries, refs: multiset<nat>)
    returns (found: bool, k: Key, ring': seq<Key>, entries': Entries, ghost at: nat)
    requires RingOk(ring, entries) && ring != []
    ensures Swung(ring, entries, refs, found, k, ring', entries', at)
  {
    found, k, ring', entries', at := false, Key(0, 0), ring, entries, 0;
    var limit := if |ring| * 2 < 2 then 2 else |ring| * 2;
    var i: nat := 0;
    SweepStarts(ring, entries, refs);
    while i < limit
      invariant !found && i <= limit && SweepOk(ring, entries, ring', entries', refs, i)
    {
      found, k, ring', entries', at := Visit(ring', entries', refs, ring, entries, i);
      if found { return; }
      i := i + 1;
    }
    SweepEnds(ring, entries, ring', entries', refs);
  }

  /** What the scan promises. */
  ghost predicate Swung(ring: seq<Key>, entries: Entries, refs: multiset<nat>, found: bool, k: Key, ring': seq<Key>, entries': Entries, at: nat)
    requires RingOk(ring, entries)
  {
    && SameFrames(entries, entries') && (found <==> exists x :: Evictable(entries, refs, x))
    && (found ==> Evictable(entries', refs, k) && SecondChance(ring, entries, refs, at) && ring[at] == k
                  && ring' == ring[at + 1..] + ring[..at + 1] && Flipped(ring, entries, entries', Visits(ring, entries, at)))
    && (!found ==> ring' == ring && entries' == entries)
  }

  /** The scan keeps the ring and the references the cache holds. */
  lemma SwungKeeps(ring: seq<Key>, entries: Entries, refs: multiset<nat>, found: bool, k: Key, ring': seq<Key>, entries': Entries, at: nat)
    requires RingOk(ring, entries) && Swung(ring, entries, refs, found, k, ring', entries', at)
    ensures RingOk(ring', entries') && CacheRefs(ring', entries') == CacheRefs(ring, entries)
  {
    if found {
      assert ring == ring[..at + 1] + ring[at + 1..];
      SwapKeeps(ring, ring[..at + 1], ring[at + 1..], entries);
      assert forall x :: x in entries' <==> x in entries;
      RefsSame(ring', entries, entries');
    }
  }

  /** Moving the hand changes no reference. */
  lemma SwapKeeps(ring: seq<Key>, a: seq<Key>, b: seq<Key>, entries: Entries)
    requires RingOk(ring, entries) && ring == a + b
    ensures RingOk(b + a, entries) && CacheRefs(b + a, entries) == CacheRefs(ring, entries)
  {
    SwapMembers(ring, a, b);
    RefsConcat(a, b, entries);
    RefsConcat(b, a, entries);
  }

  lemma SwapMembers(ring: seq<Key>, a: seq<Key>, b: seq<Key>)
    requires NoRepeat(ring) && ring == a + b
    ensures NoRepeat(b + a) && forall x :: x in b + a <==> x in ring
  {
    var r := b + a;
    assert forall m: nat | m < |r| :: r[m] == ring[if m < |b| then |a| + m else m - |b|];
  }

  /** After `i` steps without a victim. */
  ghost predicate SweepOk(ring0: seq<Key>, entries0: Entries, ring: seq<Key>, entries: Entries, refs: multiset<nat>, i: nat)
    requires RingOk(ring0, entries0)
  {
    && i <= 2 * |ring0| && ring == Turned(ring0, i) && SameFrames(entries0, entries)
    && Swept(ring0, entries0, entries, refs, i) && Flipped(ring0, entries0, entries, i)
  }

  lemma SweepStarts(ring: seq<Key>, entries: Entries, refs: multiset<nat>)
    requires RingOk(ring, entries)
    ensures SweepOk(ring, entries, ring, entries, refs, 0)
  {
    assert Turned(ring, 0) == ring;
  }

  lemma SweepEnds(ring0: seq<Key>, entries0: Entries, ring: seq<Key>, entries: Entries, refs: multiset<nat>)
    requires RingOk(ring0, entries0) && SweepOk(ring0, entries0, ring, entries, refs, 2 * |ring0|)
    ensures forall k: Key, at: nat :: Swung(ring0, entries0, refs, false, k, ring, entries, at)
  {
    assert Turned(ring0, 2 * |ring0|) == ring0;
    NoneLeft(ring0, entries0, entries, refs);
    TwiceOver(ring0, entries0, entries);
  }

  /** Two turns without a victim leave every bit as it was. */
  lemma TwiceOver(ring: seq<Key>, entries0: Entries, entries: Entries)
    requires RingOk(ring, entries0) && SameFrames(entries0, entries) && Flipped(ring, entries0, entries, 2 * |ring|)
    ensures entries == entries0
  {
    forall k | k in entries0
      ensures entries[k] == entries0[k]
    {
      var j: nat :| j < |ring| && ring[j] == k;
    }
  }

  /** One visit of the hand: a victim, or one accessed bit changed. */
  method Visit(ring: seq<Key>, entries: Entries, refs: multiset<nat>, ghost ring0: seq<Key>, ghost entries0: Entries, ghost i: nat)
    returns (found: bool, k: Key, ring': seq<Key>, entries': Entries, ghost at: nat)
    requires RingOk(ring0, entries0) && SweepOk(ring0, entries0, ring, entries, refs, i) && i < 2 * |ring0|
    ensures found ==> Swung(ring0, entries0, refs, true, k, ring', entries', at)
    ensures !found ==> SweepOk(ring0, entries0, ring', entries', refs, i + 1)
  {
    NextAt(ring0, i);
    at := if i < |ring0| then i else i - |ring0|;
    k := ring[0];
    ring', entries' := ring[1..] + [k], entries;
    found := !entries[k].accessed && refs[entries[k].frame] <= 1;
    if found {
      VictimHit(ring0, entries0, ring', entries, refs, i, k, at);
    } else {
      var bit := !entries[k].accessed;
      SweepOn(ring0, entries0, entries, refs, i, k, bit);
      FlipOn(ring0, entries0, entries, i, k);
      entries' := entries[k := entries[k].(accessed := bit)];
    }
  }

  lemma VictimHit(ring0: seq<Key>, entries0: Entries, ring: seq<Key>, entries: Entries, refs: multiset<nat>, i: nat, k: Key, at: nat)
    requires RingOk(ring0, entries0) && SameFrames(entries0, entries)
    requires i < 2 * |ring0| && at == (if i < |ring0| then i else i - |ring0|) && k == ring0[at] && ring == Turned(ring0, i + 1)
    requires Flipped(ring0, entries0, entries, i)
    requires Swept(ring0, entries0, entries, refs, i) && k in entries && !entries[k].accessed && refs[entries[k].frame] <= 1
    ensures Swung(ring0, entries0, refs, true, k, ring, entries, at)
  {
    Chosen(ring0, entries0, entries, refs, i, k);
    SameEvictable(entries0, entries, refs, k);
    TurnedPast(ring0, i, at);
    VisitsMade(ring0, entries0, entries, refs, i, k, at);
  }

  lemma VisitsMade(ring0: seq<Key>, entries0: Entries, entries: Entries, refs: multiset<nat>, i: nat, k: Key, at: nat)
    requires i < 2 * |ring0| && at == (if i < |ring0| then i else i - |ring0|) && k == ring0[at]
    requires Swept(ring0, entries0, entries, refs, i) && Evictable(entries, refs, k) && !entries[k].accessed
    ensures k in entries0 && Visits(ring0, entries0, at) == i
  {
    assert Evictable(entries, refs, ring0[at]);
  }

  lemma TurnedPast(ring: seq<Key>, i: nat, at: nat)
    requires i < 2 * |ring| && at == (if i < |ring| then i else i - |ring|)
    ensures Turned(ring, i + 1) == ring[at + 1..] + ring[..at + 1]
  {
    if at + 1 == |ring| {
      assert ring[..at + 1] == ring;
    }
  }

  /** Only pages of the inode have gone. */
  ghost predicate Shrunk(entries: Entries, entries': Entries, ino: nat)
  {
    && (forall k | k in entries' :: k in entries && entries'[k] == entries[k])
    && (forall k | k in entries && k.ino != ino :: k in entries')
  }

  // ---------------------------------------------------------------- two turns of the hand

  /** The ring after `i` steps of the hand, at most two turns. */
  ghost function Turned(ring: seq<Key>, i: nat): seq<Key>
    requires i <= 2 * |ring|
  {
    var h := if i < |ring| then i else i - |ring|;
    ring[h..] + ring[..h]
  }

  lemma NextAt(ring: seq<Key>, i: nat)
    requires i < 2 * |ring|
    ensures var h := if i < |ring| then i else i - |ring|;
            && Turned(ring, i)[0] == ring[h]
            && Turned(ring, i)[1..] + [Turned(ring, i)[0]] == Turned(ring, i + 1)
  {
    var h := if i < |ring| then i else i - |ring|;
    assert Turned(ring, i)[1..] == ring[h + 1..] + ring[..h];
    assert ring[..h] + [ring[h]] == ring[..h + 1];
  }

  ghost predicate Evictable(entries: Entries, refs: multiset<nat>, k: Key)
  {
    k in entries && refs[entries[k].frame] <= 1
  }

  /** What the first `i` steps have established about the entries that could be evicted: in the
      first turn those passed had their accessed bit set and have lost it, the others are as they
      were; in the second turn all had it set, and none has been passed. */
  ghost predicate Swept(ring: seq<Key>, entries0: Entries, entries: Entries, refs: multiset<nat>, i: nat)
  {
    forall j: nat | j < |ring| && Evictable(entries, refs, ring[j]) ::
      && ring[j] in entries0 && i <= |ring| + j
      && (if j < i then entries0[ring[j]].accessed && !entries[ring[j]].accessed
          else entries[ring[j]].accessed == entries0[ring[j]].accessed)
  }

  /** The accessed bit of entry `j` of `n` after the hand has made `i` steps: each visit turns it over. */
  predicate Turn(bit: bool, j: nat, i: nat, n: nat)
  {
    if j < i <= j + n then !bit else bit
  }

  ghost predicate Flipped(ring: seq<Key>, entries0: Entries, entries: Entries, i: nat)
  {
    forall j: nat | j < |ring| :: ring[j] in entries0 && ring[j] in entries
                                  && entries[ring[j]].accessed == Turn(entries0[ring[j]].accessed, j, i, |ring|)
  }

  /** The steps the hand makes before it takes entry `at`: it comes round again to an accessed one. */
  ghost function Visits(ring: seq<Key>, entries: Entries, at: nat): nat
    requires at < |ring| && ring[at] in entries
  {
    if entries[ring[at]].accessed then |ring| + at else at
  }

  lemma FlipOn(ring: seq<Key>, entries0: Entries, entries: Entries, i: nat, k: Key)
    requires NoRepeat(ring) && Flipped(ring, entries0, entries, i) && i < 2 * |ring| && k in entries
    requires k == ring[if i < |ring| then i else i - |ring|]
    ensures Flipped(ring, entries0, entries[k := entries[k].(accessed := !entries[k].accessed)], i + 1)
  {
  }

  /** After an eviction: the victim is the policy's choice and is gone with nothing else, the hand
      stands where the victim was, and the bits of the entries that stay are turned over by the
      visits they had. */
  ghost predicate Evicted(ring: seq<Key>, entries: Entries, refs: multiset<nat>, victim: Key, ring': seq<Key>, entries': Entries, at: nat)
  {
    && SecondChance(ring, entries, refs, at) && ring[at] == victim && SameFrames(entries - {victim}, entries')
    && ring' == ring[at + 1..] + ring[..at]
    && forall j: nat | j < |ring| && j != at ::
         && ring[j] in entries && ring[j] in entries'
         && entries'[ring[j]].accessed == Turn(entries[ring[j]].accessed, j, Visits(ring, entries, at), |ring|)
  }

  lemma EvictionIs(ring: seq<Key>, entries: Entries, refs: multiset<nat>, victim: Key, ring': seq<Key>, entries': Entries, at: nat)
    requires RingOk(ring, entries) && RingOk(ring', entries') && Swung(ring, entries, refs, true, victim, ring', entries', at)
    ensures Evicted(ring, entries, refs, victim, Without(ring', victim), entries' - {victim}, at)
    ensures victim in entries && victim in entries' && entries'[victim].frame == entries[victim].frame
  {
    LastOut(ring, ring', at);
  }

  lemma LastOut(ring: seq<Key>, ring': seq<Key>, at: nat)
    requires at < |ring| && NoRepeat(ring') && ring' == ring[at + 1..] + ring[..at + 1]
    ensures Without(ring', ring[at]) == ring[at + 1..] + ring[..at]
  {
    var n := |ring| - 1;
    assert ring'[n] == ring[at];
    var i := WithoutAt(ring', ring[at]);
    assert i == n;
  }

  /** The choice is the only one: policy and state settle the victim. */
  lemma OneChoice(ring: seq<Key>, entries: Entries, refs: multiset<nat>, i: nat, j: nat)
    requires SecondChance(ring, entries, refs, i) && SecondChance(ring, entries, refs, j)
    ensures i == j
  {
  }

  /** The choice of the CLOCK policy: the first entry from the hand on that can be evicted and was
      not accessed, or, when all that can be evicted were accessed, the first of those. */
  ghost predicate SecondChance(ring: seq<Key>, entries: Entries, refs: multiset<nat>, j: nat)
  {
    && j < |ring| && Evictable(entries, refs, ring[j])
    && (forall m: nat | m < j && Evictable(entries, refs, ring[m]) :: entries[ring[m]].accessed && !entries[ring[j]].accessed)
    && (entries[ring[j]].accessed ==>
          forall m: nat | m < |ring| && Evictable(entries, refs, ring[m]) :: entries[ring[m]].accessed)
  }

  lemma SameEvictable(entries0: Entries, entries: Entries, refs: multiset<nat>, k: Key)
    requires SameFrames(entries0, entries)
    ensures Evictable(entries0, refs, k) <==> Evictable(entries, refs, k)
  {
    assert k in entries0 <==> k in entries;
  }

  /** The victim is the policy's choice. */
  lemma Chosen(ring: seq<Key>, entries0: Entries, entries: Entries, refs: multiset<nat>, i: nat, k: Key)
    requires NoRepeat(ring) && Swept(ring, entries0, entries, refs, i) && SameFrames(entries0, entries) && i < 2 * |ring|
    requires k == ring[if i < |ring| then i else i - |ring|]
    requires Evictable(entries, refs, k) && !entries[k].accessed
    ensures SecondChance(ring, entries0, refs, if i < |ring| then i else i - |ring|)
  {
    var j := if i < |ring| then i else i - |ring|;
    SameEvictable(entries0, entries, refs, k);
    forall m: nat | m < |ring|
      ensures Evictable(entries0, refs, ring[m]) <==> Evictable(entries, refs, ring[m])
    {
      SameEvictable(entries0, entries, refs, ring[m]);
    }
    assert ring[j] == k;
  }

  /** A visit that is not a victim moves the sweep on by one. */
  lemma SweepOn(ring: seq<Key>, entries0: Entries, entries: Entries, refs: multiset<nat>, i: nat, k: Key, accessed: bool)
    requires NoRepeat(ring) && Swept(ring, entries0, entries, refs, i) && i < 2 * |ring| && k in entries
    requires k == ring[if i < |ring| then i else i - |ring|]
    requires accessed ==> !Evictable(entries, refs, k)
    requires !accessed ==> entries[k].accessed
    ensures Swept(ring, entries0, entries[k := entries[k].(accessed := accessed)], refs, i + 1)
  {
    var marked := entries[k := entries[k].(accessed := accessed)];
    forall j: nat | j < |ring| && Evictable(marked, refs, ring[j])
      ensures ring[j] in entries0 && i + 1 <= |ring| + j
      ensures if j < i + 1 then entries0[ring[j]].accessed && !marked[ring[j]].accessed
              else marked[ring[j]].accessed == entries0[ring[j]].accessed
    {
      assert Evictable(entries, refs, ring[j]);
    }
  }

  lemma NoneLeft(ring: seq<Key>, entries: Entries, entries': Entries, refs: multiset<nat>)
    requires Swept(ring, entries, entries', refs, 2 * |ring|) && SameFrames(entries, entries') && forall k | k in entries :: k in ring
    ensures forall k :: !Evictable(entries, refs, k)
  {
    forall k
      ensures !Evictable(entries, refs, k)
    {
      if Evictable(entries, refs, k) {
        var j: nat :| j < |ring| && ring[j] == k;
        assert Evictable(entries', refs, ring[j]);
      }
    }
  }

  /** The last reference to an evictable entry's frame is the cache's. */
  lemma EvictableIsFree(ring: seq<Key>, entries: Entries, refs: multiset<nat>, held: multiset<nat>, k: Key)
    requires RingOk(ring, entries) && refs == held + CacheRefs(ring, entries) && Evictable(entries, refs, k)
    ensures held[entries[k].frame] == 0
  {
    var i: nat :| i < |ring| && ring[i] == k;
    RefsRemove(ring, i, k, entries);
  }
}
