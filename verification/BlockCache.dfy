/** The ext2 block cache with each operation run to completion: N-way set-associative lookup,
    eviction of the least recently used unpinned way, write-through.  Here the coherence rule
    that interleaving breaks does hold, so every read returns what is on disk. */
module BlockCache {

  const NSETS: nat := 64
  const WAYS: nat := 4

  datatype Tag = Invalid | Blk(n: nat)
  type Image = seq<int>
  datatype Way = Way(tag: Tag, pin: nat, lastUse: nat, data: Image)

  function SetOf(blk: nat): nat
  {
    blk % NSETS
  }

  /** A way is named by its set and its index in the set. */
  function Index(blk: nat, w: nat): (i: nat)
    requires w < WAYS
    ensures i < NSETS * WAYS && i / WAYS == SetOf(blk)
  {
    SetOf(blk) * WAYS + w
  }

  /** Tags are truthful and in their block's set, and a block has at most one way. */
  ghost predicate Coherent(ways: seq<Way>, disk: map<nat, Image>)
  {
    && (forall i: nat | i < |ways| && ways[i].tag.Blk? ::
          && ways[i].tag.n in disk && ways[i].data == disk[ways[i].tag.n]
          && i / WAYS == SetOf(ways[i].tag.n))
    && (forall i: nat, j: nat | i < j < |ways| && ways[i].tag.Blk? :: ways[i].tag != ways[j].tag)
  }

  ghost predicate Timely(ways: seq<Way>, clock: nat)
  {
    forall i: nat | i < |ways| :: ways[i].lastUse <= clock
  }

  ghost predicate NoneNamed(ways: seq<Way>, blk: nat)
  {
    forall i: nat | i < |ways| :: ways[i].tag != Blk(blk)
  }

  /** A way someone has pinned keeps its data and its pin count. */
  ghost predicate PinnedKept(before: seq<Way>, after: seq<Way>)
  {
    && |before| == |after|
    && forall i: nat | i < |before| ::
         after[i].pin == before[i].pin && (before[i].pin > 0 ==> after[i].data == before[i].data)
  }

  /** A way that a fill of `blk` finds without a block, or with the old copy. */
  predicate Spare(w: Way, blk: nat)
  {
    w.tag == Invalid || w.tag == Blk(blk)
  }

  /** The way a fill takes: the first spare way nobody has pinned; without one, of the ways nobody
      has pinned the first that was used longest ago. */
  ghost predicate Chosen(ways: seq<Way>, blk: nat, v: nat)
    requires |ways| == NSETS * WAYS
  {
    v < WAYS && ways[Index(blk, v)].pin == 0 &&
    if Spare(ways[Index(blk, v)], blk) then forall w: nat | w < v && ways[Index(blk, w)].pin == 0 :: !Spare(ways[Index(blk, w)], blk)
    else forall w: nat | w < WAYS && ways[Index(blk, w)].pin == 0 && w != v ::
           && !Spare(ways[Index(blk, w)], blk) && ways[Index(blk, v)].lastUse <= ways[Index(blk, w)].lastUse
           && (w < v ==> ways[Index(blk, v)].lastUse < ways[Index(blk, w)].lastUse)
  }

  /** A fill of `blk`: its old copy is gone, the way chosen holds the new one, and all other ways
      are as they were; nothing is chosen when all four ways are pinned. */
  ghost predicate Filled(before: seq<Way>, after: seq<Way>, blk: nat, data: Image, v: nat)
    requires |before| == |after| == NSETS * WAYS
  {
    && (if v < WAYS then Chosen(before, blk, v) && after[Index(blk, v)] == Way(Blk(blk), 0, before[Index(blk, v)].lastUse, data)
        else forall w: nat | w < WAYS :: before[Index(blk, w)].pin > 0)
    && forall i: nat | i < |before| && (v >= WAYS || i != Index(blk, v)) ::
         after[i] == if before[i].tag == Blk(blk) then before[i].(tag := Invalid) else before[i]
  }

  class Cache {
    var ways: seq<Way>
    var clock: nat
    var disk: map<nat, Image>

    ghost predicate Valid()
      reads this
    {
      |ways| == NSETS * WAYS && Coherent(ways, disk) && Timely(ways, clock)
    }

    /** bcache_fill_way: skip a pinned way, else poison, copy, publish. */
    method FillWay(i: nat, blk: nat, data: Image)
      requires |ways| == NSETS * WAYS && i < |ways|
      modifies this`ways
      ensures PinnedKept(old(ways), ways)
      ensures old(ways[i]).pin > 0 ==> ways == old(ways)
      ensures old(ways[i]).pin == 0 ==> ways == old(ways)[i := old(ways[i]).(tag := Blk(blk), data := data)]
    {
      if ways[i].pin != 0 { return; }
      ways := ways[i := ways[i].(tag := Invalid)];
      ways := ways[i := ways[i].(data := data)];
      ways := ways[i := ways[i].(tag := Blk(blk))];
    }

    /** The invalidation pass: afterwards no way names the block, and nothing else changed. */
    method WipeTags(blk: nat)
      requires |ways| == NSETS * WAYS
      requires forall i: nat | i < |ways| && ways[i].tag == Blk(blk) :: i / WAYS == SetOf(blk)
      modifies this`ways
      ensures NoneNamed(ways, blk) && PinnedKept(old(ways), ways)
      ensures forall i: nat | i < |ways| ::
                ways[i] == if old(ways[i]).tag == Blk(blk) then old(ways[i]).(tag := Invalid) else old(ways[i])
    {
      var w := 0;
      while w < WAYS
        invariant 0 <= w <= WAYS && |ways| == NSETS * WAYS
        invariant forall i: nat | i < |ways| ::
          ways[i] == if old(ways[i]).tag == Blk(blk) && i < SetOf(blk) * WAYS + w
                     then old(ways[i]).(tag := Invalid) else old(ways[i])
      {
        var i := Index(blk, w);
        if ways[i].tag == Blk(blk) { ways := ways[i := ways[i].(tag := Invalid)]; }
        w := w + 1;
      }
    }

    /** Victim choice: an invalid unpinned way, else the least recently used unpinned way. */
    method PickVictim(blk: nat) returns (victim: nat)
      requires |ways| == NSETS * WAYS && NoneNamed(ways, blk)
      ensures victim <= WAYS && (victim < WAYS ==> Chosen(ways, blk, victim))
      ensures victim == WAYS <==> forall w: nat | w < WAYS :: ways[Index(blk, w)].pin > 0
    {
      var w := 0;
      while w < WAYS
        invariant 0 <= w <= WAYS
        invariant forall v: nat | v < w :: ways[Index(blk, v)].pin == 0 ==> ways[Index(blk, v)].tag.Blk?
      {
        if ways[Index(blk, w)].tag == Invalid && ways[Index(blk, w)].pin == 0 { return w; }
        w := w + 1;
      }
      victim := WAYS;
      w := 0;
      while w < WAYS
        invariant 0 <= w <= WAYS && (victim == WAYS || victim < w)
        invariant victim == WAYS <==> forall v: nat | v < w :: ways[Index(blk, v)].pin > 0
        invariant victim < WAYS ==> ways[Index(blk, victim)].pin == 0
        invariant victim < WAYS ==> forall v: nat | v < w && ways[Index(blk, v)].pin == 0 ::
                    && ways[Index(blk, victim)].lastUse <= ways[Index(blk, v)].lastUse
                    && (v < victim ==> ways[Index(blk, victim)].lastUse < ways[Index(blk, v)].lastUse)
      {
        if ways[Index(blk, w)].pin == 0 {
          if victim == WAYS || ways[Index(blk, w)].lastUse < ways[Index(blk, victim)].lastUse { victim := w; }
        }
        w := w + 1;
      }
    }

    /** bcache_fill: the stale copy, if any, goes; every way that still names a block tells
        the truth about it. */
    method Fill(blk: nat, data: Image) returns (victim: nat)
      requires |ways| == NSETS * WAYS && CoherentExcept(ways, disk, blk) && Timely(ways, clock)
      requires blk in disk && disk[blk] == data
      modifies this`ways
      ensures Valid() && PinnedKept(old(ways), ways)
      ensures Filled(old(ways), ways, blk, data, victim)
    {
      WipeTags(blk);
      victim := PickVictim(blk);
      ChosenBefore(old(ways), ways, blk, victim);
      if victim >= WAYS { return; }
      FillWay(Index(blk, victim), blk, data);
    }

    /** bcache_get followed by a look at the data: a hit pins the way, a miss reads the disk
        and offers the block to the cache.  Either way the caller sees what is on disk. */
    method Get(blk: nat, ioOk: bool) returns (ok: bool, data: Image, pinned: bool, i: nat, ghost victim: nat)
      requires Valid()
      modifies this`ways, this`clock
      ensures Valid()
      ensures pinned || ok == (ioOk && blk in disk)
      ensures ok ==> blk in disk && data == disk[blk]
      ensures pinned ==> ok && i < |ways| && ways[i].tag == Blk(blk) && ways[i].data == data
      ensures pinned ==> ways == old(ways)[i := old(ways[i]).(pin := old(ways[i]).pin + 1, lastUse := clock)]
      ensures pinned <==> !NoneNamed(old(ways), blk)
      ensures pinned ==> clock == old(clock) + 1 && forall j: nat | j < |ways| && j != i :: ways[j].lastUse < ways[i].lastUse
      ensures !pinned ==> PinnedKept(old(ways), ways) && clock == old(clock)
      ensures !pinned ==> if ok then Filled(old(ways), ways, blk, data, victim) else ways == old(ways)
    {
      pinned, i, data, victim := false, 0, [], WAYS;
      var w := 0;
      while w < WAYS
        invariant 0 <= w <= WAYS && ways == old(ways) && clock == old(clock)
        invariant forall v: nat | v < w :: ways[Index(blk, v)].tag != Blk(blk)
      {
        i := Index(blk, w);
        ways := ways[i := ways[i].(pin := ways[i].pin + 1)];
        if ways[i].tag == Blk(blk) {
          clock := clock + 1;
          ways := ways[i := ways[i].(lastUse := clock)];
          return true, ways[i].data, true, i, victim;
        }
        ways := ways[i := ways[i].(pin := ways[i].pin - 1)];
        w := w + 1;
      }
      NotInSet(ways, disk, blk);
      if !ioOk || blk !in disk { ok := false; return; }
      data := disk[blk];
      ok := true;
      victim := Fill(blk, data);
    }

    /** bcache_put */
    method Release(i: nat)
      requires Valid() && i < |ways| && ways[i].pin > 0
      modifies this`ways
      ensures Valid() && ways == old(ways)[i := old(ways[i]).(pin := old(ways[i]).pin - 1)]
    {
      ways := ways[i := ways[i].(pin := ways[i].pin - 1)];
    }

    /** write_block: through to disk, then into the cache. */
    method WriteBlock(blk: nat, data: Image, ioOk: bool) returns (ok: bool, ghost victim: nat)
      requires Valid()
      modifies this
      ensures Valid() && ok == ioOk
      ensures disk == if ok then old(disk)[blk := data] else old(disk)
      ensures PinnedKept(old(ways), ways) && clock == old(clock)
      ensures if ok then Filled(old(ways), ways, blk, data, victim) else ways == old(ways)
    {
      victim := WAYS;
      if !ioOk { return false, victim; }
      disk := disk[blk := data];
      victim := Fill(blk, data);
      ok := true;
    }
  }

  /** Coherent, except that the way naming `blk` may be out of date. */
  ghost predicate CoherentExcept(ways: seq<Way>, disk: map<nat, Image>, blk: nat)
  {
    && (forall i: nat | i < |ways| && ways[i].tag.Blk? ::
          && ways[i].tag.n in disk && (ways[i].tag.n != blk ==> ways[i].data == disk[ways[i].tag.n])
          && i / WAYS == SetOf(ways[i].tag.n))
    && (forall i: nat, j: nat | i < j < |ways| && ways[i].tag.Blk? :: ways[i].tag != ways[j].tag)
  }

  /** The choice made after the old copy is wiped is the one described before. */
  lemma ChosenBefore(before: seq<Way>, wiped: seq<Way>, blk: nat, v: nat)
    requires |before| == |wiped| == NSETS * WAYS && NoneNamed(wiped, blk)
    requires forall i: nat | i < |before| :: wiped[i] == if before[i].tag == Blk(blk) then before[i].(tag := Invalid) else before[i]
    ensures Chosen(wiped, blk, v) ==> Chosen(before, blk, v)
  {
    forall w: nat | w < WAYS
      ensures Spare(before[Index(blk, w)], blk) == Spare(wiped[Index(blk, w)], blk)
    {
      var i := Index(blk, w);
      assert wiped[i].pin == before[i].pin && wiped[i].lastUse == before[i].lastUse;
    }
  }

  /** The block read last is not the next to go: a fill of another block of the set takes its way
      only when every other way is pinned. */
  lemma LastReadStays(before: seq<Way>, after: seq<Way>, recent: nat, blk: nat, data: Image, v: nat, i: nat)
    requires |before| == |after| == NSETS * WAYS && Filled(before, after, blk, data, v) && blk != recent
    requires i < |before| && before[i].tag == Blk(recent) && forall j: nat | j < |before| && j != i :: before[j].lastUse < before[i].lastUse
    requires exists w: nat :: w < WAYS && Index(blk, w) != i && before[Index(blk, w)].pin == 0
    ensures after[i] == before[i]
  {
    var w: nat :| w < WAYS && Index(blk, w) != i && before[Index(blk, w)].pin == 0;
    assert before[Index(blk, w)].lastUse < before[i].lastUse;
  }

  /** The low six bits of a block number name its set: a fill leaves all blocks of other sets alone. */
  lemma OtherSetsStay(before: seq<Way>, after: seq<Way>, disk: map<nat, Image>, blk: nat, data: Image, v: nat, i: nat, other: nat)
    requires |before| == |after| == NSETS * WAYS && Coherent(before, disk) && Filled(before, after, blk, data, v)
    requires i < |before| && before[i].tag == Blk(other) && other % 64 != blk % 64
    ensures after[i] == before[i]
  {
    assert i / WAYS == SetOf(other);
  }

  /** A block that is in no way of its set is in no way at all. */
  lemma NotInSet(ways: seq<Way>, disk: map<nat, Image>, blk: nat)
    requires |ways| == NSETS * WAYS && Coherent(ways, disk)
    requires forall w: nat | w < WAYS :: ways[Index(blk, w)].tag != Blk(blk)
    ensures NoneNamed(ways, blk)
  {
    forall i: nat | i < |ways|
      ensures ways[i].tag != Blk(blk)
    {
      if i / WAYS == SetOf(blk) { assert i == Index(blk, i % WAYS); }
    }
  }
}
