/** The per-address-space list of virtual memory areas: lookup, insertion, removal of a range
    by trimming and splitting, and the downward search for a free gap.

    The singly linked list is the sequence `vmas`; addresses and sizes are unsigned 64-bit
    values, and the places where the arithmetic can wrap are written out. */
module VmaList {
  import opened Options

  const PAGE: nat := 4096
  const U32: nat := 0x1_0000_0000
  const U64: nat := 0x1_0000_0000_0000_0000
  const BRK_GUARD: nat := 64 * 1024 * 1024
  const NULL: nat := 0

  datatype Vma = Vma(start: nat, end: nat, flags: nat, shmem: nat, pgoff: nat, file: nat, fileOff: nat, fileLen: nat)

  // ---------------------------------------------------------------- what a VMA means

  predicate Contains(v: Vma, a: nat)
  {
    v.start <= a < v.end
  }

  predicate Overlaps(v: Vma, start: nat, end: nat)
  {
    v.start < end && start < v.end
  }

  /** What backs the file part of an address: nothing, a file byte, or the zero tail. */
  datatype FilePart = NoFile | FileByte(file: nat, off: nat) | ZeroTail

  /** What the page-fault handler would put at an address of the area. */
  datatype Content = Content(flags: nat, file: FilePart, page: Option<(nat, nat)>)

  function ContentAt(v: Vma, a: nat): Content
    requires Contains(v, a)
  {
    Content(v.flags,
            if v.file == NULL then NoFile
            else if a - v.start < v.fileLen then FileByte(v.file, v.fileOff + (a - v.start))
            else ZeroTail,
            if v.shmem == NULL then None else Some((v.shmem, (v.pgoff + (a - v.start) / PAGE) % U32)))
  }

  /** The end need not be aligned: a shrinking heap leaves its area with the new break as its end. */
  ghost predicate VmaOk(v: Vma)
  {
    v.start < v.end && v.start % PAGE == 0 && v.pgoff < U32
  }

  /** Non-empty areas that start on a page, in address order, no two sharing an address. */
  ghost predicate Sorted(vmas: seq<Vma>)
  {
    && (forall i: nat | i < |vmas| :: VmaOk(vmas[i]))
    && (forall i: nat, j: nat | i < j < |vmas| :: vmas[i].end <= vmas[j].start)
  }

  ghost predicate Covered(vmas: seq<Vma>, a: nat)
  {
    exists i: nat :: i < |vmas| && Contains(vmas[i], a)
  }

  /** Address `a` is in the list, with content `c`. */
  ghost predicate Maps(vmas: seq<Vma>, a: nat, c: Content)
  {
    exists i: nat :: i < |vmas| && Contains(vmas[i], a) && ContentAt(vmas[i], a) == c
  }

  // ---------------------------------------------------------------- removal

  /** What removing [start, end) leaves of one area; `canSplit` is whether the allocation of
      the right fragment succeeds. */
  function Cut(v: Vma, start: nat, end: nat, canSplit: bool): seq<Vma>
  {
    if v.start >= end || v.end <= start then [v]
    else if v.start >= start && v.end <= end then []
    else if v.start < start && v.end > end then
      if canSplit then [v.(end := start), RightFragment(v, end)] else [v]
    else if v.start < start then [v.(end := start)]
    else [v.(start := end)]
  }

  /** The fragment above `end`, with its backing advanced by the same distance. */
  function RightFragment(v: Vma, end: nat): Vma
  {
    var d := if end >= v.start then end - v.start else 0;
    Vma(end, v.end, v.flags, v.shmem, (v.pgoff + (d / PAGE) % U32) % U32,
        v.file,
        if v.file != NULL then v.fileOff + d else 0,
        if v.file != NULL && v.fileLen > d then v.fileLen - d else 0)
  }

  function CutAll(vmas: seq<Vma>, start: nat, end: nat, canSplit: bool): seq<Vma>
  {
    if vmas == [] then []
    else CutAll(vmas[..|vmas| - 1], start, end, canSplit) + Cut(vmas[|vmas| - 1], start, end, canSplit)
  }

  lemma CutOneMore(vmas: seq<Vma>, k: nat, start: nat, end: nat, canSplit: bool)
    requires k < |vmas|
    ensures CutAll(vmas[..k + 1], start, end, canSplit)
            == CutAll(vmas[..k], start, end, canSplit) + Cut(vmas[k], start, end, canSplit)
  {
    assert vmas[..k + 1][..k] == vmas[..k];
  }

  lemma Splice(vmas: seq<Vma>, i: nat, was: seq<Vma>, k: nat, pieces: seq<Vma>)
    requires i < |vmas| && k < |was| && vmas[i..] == was[k..]
    ensures var next := vmas[..i] + pieces + vmas[i + 1..];
            next[..i + |pieces|] == vmas[..i] + pieces && next[i + |pieces|..] == was[k + 1..]
  {
    assert vmas[i + 1..] == vmas[i..][1..] && was[k + 1..] == was[k..][1..];
  }

  lemma {:induction false} CutAllBounded(vmas: seq<Vma>, start: nat, end: nat, canSplit: bool)
    requires forall v | v in vmas :: v.end <= U64
    ensures forall u | u in CutAll(vmas, start, end, canSplit) :: u.end <= U64
  {
    if vmas != [] {
      var n := |vmas| - 1;
      CutAllBounded(vmas[..n], start, end, canSplit);
      assert vmas[n] in vmas;
      assert forall u | u in Cut(vmas[n], start, end, canSplit) :: u.end <= U64 || u.end == start;
    }
  }

  /** The pieces of an area stay inside it and in order. */
  lemma CutPieces(v: Vma, start: nat, end: nat, canSplit: bool)
    requires VmaOk(v) && start < end && start % PAGE == 0 && end % PAGE == 0
    ensures Sorted(Cut(v, start, end, canSplit))
    ensures forall u | u in Cut(v, start, end, canSplit) :: v.start <= u.start && u.end <= v.end
  {
  }

  lemma SortedConcat(left: seq<Vma>, right: seq<Vma>)
    requires Sorted(left) && Sorted(right)
    requires forall i: nat, j: nat | i < |left| && j < |right| :: left[i].end <= right[j].start
    ensures Sorted(left + right)
  {
  }

  lemma {:induction false} CutAllSorted(vmas: seq<Vma>, start: nat, end: nat, canSplit: bool)
    requires Sorted(vmas) && start < end && start % PAGE == 0 && end % PAGE == 0
    ensures Sorted(CutAll(vmas, start, end, canSplit))
    ensures forall u | u in CutAll(vmas, start, end, canSplit) :: vmas != [] && u.end <= vmas[|vmas| - 1].end
  {
    if vmas != [] {
      var n := |vmas| - 1;
      CutAllSorted(vmas[..n], start, end, canSplit);
      CutPieces(vmas[n], start, end, canSplit);
      SortedConcat(CutAll(vmas[..n], start, end, canSplit), Cut(vmas[n], start, end, canSplit));
    }
  }

  /** The pieces of the list are exactly the pieces of its areas. */
  lemma {:induction false} CutAllMembers(vmas: seq<Vma>, start: nat, end: nat, canSplit: bool, u: Vma)
    ensures u in CutAll(vmas, start, end, canSplit) <==> exists i: nat :: i < |vmas| && u in Cut(vmas[i], start, end, canSplit)
  {
    if vmas != [] {
      var n := |vmas| - 1;
      CutAllMembers(vmas[..n], start, end, canSplit, u);
      assert u in CutAll(vmas, start, end, canSplit)
             <==> u in CutAll(vmas[..n], start, end, canSplit) || u in Cut(vmas[n], start, end, canSplit);
      assert forall i: nat | i < n :: vmas[i] == vmas[..n][i];
    }
  }

  /** Address `a` is in the list, in an area with these flags. */
  ghost predicate Flagged(vmas: seq<Vma>, a: nat, flags: nat)
  {
    exists i: nat :: i < |vmas| && Contains(vmas[i], a) && vmas[i].flags == flags
  }

  /** The address lies outside the range, or in an area that would have to be split and cannot be. */
  predicate Stays(v: Vma, start: nat, end: nat, canSplit: bool, a: nat)
  {
    !(start <= a < end) || (!canSplit && v.start < start && end < v.end)
  }

  /** The pieces of an area hold exactly its addresses outside the range, with its flags; an area
      that cannot be split stays whole. */
  lemma CutCovers(v: Vma, start: nat, end: nat, canSplit: bool, a: nat)
    requires start < end
    ensures var pieces := Cut(v, start, end, canSplit);
            && (Covered(pieces, a) <==> Contains(v, a) && Stays(v, start, end, canSplit, a))
            && (forall u | u in pieces :: u.flags == v.flags)
            && (!canSplit && v.start < start && end < v.end ==> pieces == [v])
  {
    var pieces := Cut(v, start, end, canSplit);
    if Contains(v, a) && Stays(v, start, end, canSplit, a) {
      assert Contains(pieces[0], a) || Contains(pieces[1], a);
    }
  }

  ghost predicate Kept(vmas: seq<Vma>, i: nat, start: nat, end: nat, canSplit: bool, a: nat, flags: nat)
  {
    i < |vmas| && Contains(vmas[i], a) && vmas[i].flags == flags && Stays(vmas[i], start, end, canSplit, a)
  }

  /** Removal is set difference, flags included: an address is there with some flags afterwards
      exactly when it was there with them and stays. */
  lemma RemovalIsDifference(vmas: seq<Vma>, start: nat, end: nat, canSplit: bool, a: nat, flags: nat)
    requires start < end
    ensures Flagged(CutAll(vmas, start, end, canSplit), a, flags) <==> exists i: nat :: Kept(vmas, i, start, end, canSplit, a, flags)
  {
    var post := CutAll(vmas, start, end, canSplit);
    if Flagged(post, a, flags) {
      var k: nat :| k < |post| && Contains(post[k], a) && post[k].flags == flags;
      CutAllMembers(vmas, start, end, canSplit, post[k]);
      var i: nat :| i < |vmas| && post[k] in Cut(vmas[i], start, end, canSplit);
      CutCovers(vmas[i], start, end, canSplit, a);
      assert Kept(vmas, i, start, end, canSplit, a, flags);
    }
    if i: nat :| Kept(vmas, i, start, end, canSplit, a, flags) {
      var pieces := Cut(vmas[i], start, end, canSplit);
      CutCovers(vmas[i], start, end, canSplit, a);
      var k: nat :| k < |pieces| && Contains(pieces[k], a);
      CutAllMembers(vmas, start, end, canSplit, pieces[k]);
      var j: nat :| j < |post| && post[j] == pieces[k];
    }
  }

  /** With the split allocated, exactly the old addresses outside the range are left. */
  lemma RemovalCovers(vmas: seq<Vma>, start: nat, end: nat, a: nat)
    requires start < end
    ensures Covered(CutAll(vmas, start, end, true), a) <==> Covered(vmas, a) && !(start <= a < end)
  {
    var post := CutAll(vmas, start, end, true);
    if i: nat :| i < |vmas| && Contains(vmas[i], a) && !(start <= a < end) {
      RemovalIsDifference(vmas, start, end, true, a, vmas[i].flags);
      assert Kept(vmas, i, start, end, true, a, vmas[i].flags);
    }
    if k: nat :| k < |post| && Contains(post[k], a) {
      RemovalIsDifference(vmas, start, end, true, a, post[k].flags);
    }
  }

  /** The branch that moves an area's start without moving its backing. */
  predicate Straddles(v: Vma, start: nat, end: nat)
  {
    start <= v.start < end < v.end
  }

  /** Moving the start by `d` changes what the area's addresses show. */
  predicate ShowsShift(v: Vma, d: nat)
  {
    (v.file != NULL && v.fileLen > 0) || (v.shmem != NULL && (d / PAGE) % U32 != 0)
  }

  /** Away from the straddling branch the piece that keeps an address keeps its content. */
  lemma PieceKeepsContent(v: Vma, start: nat, end: nat, canSplit: bool, u: Vma, a: nat)
    requires VmaOk(v) && start < end && start % PAGE == 0 && end % PAGE == 0
    requires u in Cut(v, start, end, canSplit) && Contains(u, a)
    requires !(Straddles(v, start, end) && ShowsShift(v, end - v.start))
    ensures Contains(v, a) && ContentAt(u, a) == ContentAt(v, a)
  {
    if Straddles(v, start, end) {
      FrontKeepsContent(v, start, end, u, a);
    } else if v.start < start && end < v.end && u == RightFragment(v, end) {
      PageShift(v.pgoff, v.start, end, a);
    }
  }

  /** An area that keeps its back part, where the shift of its start does not show. */
  lemma FrontKeepsContent(v: Vma, start: nat, end: nat, u: Vma, a: nat)
    requires VmaOk(v) && end % PAGE == 0 && Straddles(v, start, end) && u == v.(start := end) && Contains(u, a)
    requires !ShowsShift(v, end - v.start)
    ensures Contains(v, a) && ContentAt(u, a) == ContentAt(v, a)
  {
    PageShift(v.pgoff, v.start, end, a);
  }

  lemma PageShift(pgoff: nat, from: nat, to: nat, a: nat)
    requires from % PAGE == 0 && to % PAGE == 0 && from <= to <= a
    ensures (a - from) / PAGE == (to - from) / PAGE + (a - to) / PAGE
    ensures ((pgoff + ((to - from) / PAGE) % U32) % U32 + (a - to) / PAGE) % U32 == (pgoff + (a - from) / PAGE) % U32
    ensures ((to - from) / PAGE) % U32 == 0 ==> (pgoff + (a - to) / PAGE) % U32 == (pgoff + (a - from) / PAGE) % U32
  {
    var d, e := (to - from) / PAGE, (a - to) / PAGE;
    assert (a - from) / PAGE == d + e;
    ModAdd(pgoff, d, e);
  }

  lemma ModAdd(p: nat, d: nat, e: nat)
    ensures ((p + d % U32) % U32 + e) % U32 == (p + d + e) % U32
    ensures d % U32 == 0 ==> (p + e) % U32 == (p + d + e) % U32
  {
    var q, r := d / U32, d % U32;
    assert d == q * U32 + r;
  }

  /** In the straddling branch the first surviving address shows the shift. */
  lemma ShiftShows(v: Vma, start: nat, end: nat)
    requires VmaOk(v) && end % PAGE == 0 && Straddles(v, start, end) && ShowsShift(v, end - v.start)
    ensures Contains(v, end) && Contains(v.(start := end), end)
    ensures ContentAt(v.(start := end), end) != ContentAt(v, end)
  {
    if v.shmem != NULL && ((end - v.start) / PAGE) % U32 != 0 {
      var d := (end - v.start) / PAGE;
      if v.pgoff % U32 == (v.pgoff + d) % U32 { ModCancel(v.pgoff, d); }
    }
  }

  lemma ModCancel(p: nat, d: nat)
    requires p % U32 == (p + d) % U32
    ensures d % U32 == 0
  {
  }

  ghost predicate ContentKept(pre: seq<Vma>, post: seq<Vma>, start: nat, end: nat)
  {
    forall a: nat, c: Content :: Maps(pre, a, c) && !(start <= a < end) ==> Maps(post, a, c)
  }

  ghost predicate ShiftsSomething(vmas: seq<Vma>, start: nat, end: nat)
  {
    exists i: nat :: i < |vmas| && Straddles(vmas[i], start, end) && ShowsShift(vmas[i], end - vmas[i].start)
  }

  lemma MapsAfter(vmas: seq<Vma>, start: nat, end: nat, canSplit: bool, a: nat, c: Content)
    requires Sorted(vmas) && start < end && start % PAGE == 0 && end % PAGE == 0
    requires !ShiftsSomething(vmas, start, end)
    requires Maps(vmas, a, c) && !(start <= a < end)
    ensures Maps(CutAll(vmas, start, end, canSplit), a, c)
  {
    var i: nat :| i < |vmas| && Contains(vmas[i], a) && ContentAt(vmas[i], a) == c;
    var pieces, post := Cut(vmas[i], start, end, canSplit), CutAll(vmas, start, end, canSplit);
    var k: nat :| k < |pieces| && Contains(pieces[k], a);
    PieceKeepsContent(vmas[i], start, end, canSplit, pieces[k], a);
    CutAllMembers(vmas, start, end, canSplit, pieces[k]);
    var j: nat :| j < |post| && post[j] == pieces[k];
  }

  /** Every surviving address keeps its content exactly when no area that straddles the right
      edge of the range shows a shift: anonymous areas never do, file areas with file bytes
      and shared areas do. */
  lemma ContentKeptIff(vmas: seq<Vma>, start: nat, end: nat, canSplit: bool)
    requires Sorted(vmas) && start < end && start % PAGE == 0 && end % PAGE == 0
    ensures ContentKept(vmas, CutAll(vmas, start, end, canSplit), start, end) <==> !ShiftsSomething(vmas, start, end)
  {
    var post := CutAll(vmas, start, end, canSplit);
    if !ShiftsSomething(vmas, start, end) {
      forall a: nat, c: Content | Maps(vmas, a, c) && !(start <= a < end)
        ensures Maps(post, a, c)
      {
        MapsAfter(vmas, start, end, canSplit, a, c);
      }
    } else {
      var i: nat :| i < |vmas| && Straddles(vmas[i], start, end) && ShowsShift(vmas[i], end - vmas[i].start);
      var c := ContentAt(vmas[i], end);
      var u := vmas[i].(start := end);
      ShiftShows(vmas[i], start, end);
      assert Maps(vmas, end, c);
      assert u in Cut(vmas[i], start, end, canSplit);
      CutAllMembers(vmas, start, end, canSplit, u);
      CutAllSorted(vmas, start, end, canSplit);
      OnlyOneContains(post, u, end, c);
    }
  }

  /** Two pages of a file, of which the first is removed: the second then shows the first's bytes. */
  lemma FrontCutShowsOtherBytes()
    ensures var v := Vma(PAGE, 3 * PAGE, 0, NULL, 0, 1, 0, 2 * PAGE);
            var post := CutAll([v], PAGE, 2 * PAGE, true);
            && Maps([v], 2 * PAGE, Content(0, FileByte(1, PAGE), None))
            && Maps(post, 2 * PAGE, Content(0, FileByte(1, 0), None)) && !Maps(post, 2 * PAGE, Content(0, FileByte(1, PAGE), None))
  {
    var v := Vma(PAGE, 3 * PAGE, 0, NULL, 0, 1, 0, 2 * PAGE);
    assert Cut(v, PAGE, 2 * PAGE, true) == [v.(start := 2 * PAGE)];
    var post := CutAll([v], PAGE, 2 * PAGE, true);
    assert CutAll([v][..0], PAGE, 2 * PAGE, true) == [];
    assert post == [v.(start := 2 * PAGE)];
    assert Contains([v][0], 2 * PAGE) && Contains(post[0], 2 * PAGE);
  }

  lemma OnlyOneContains(vmas: seq<Vma>, u: Vma, a: nat, c: Content)
    requires Sorted(vmas) && u in vmas && Contains(u, a) && ContentAt(u, a) != c
    ensures !Maps(vmas, a, c)
  {
  }

  // ---------------------------------------------------------------- gap search

  function PageFloor(x: nat): nat
  {
    x - x % PAGE
  }

  /** `(len + PAGE_MASK) & ~PAGE_MASK` in 64 bits */
  function RoundUp64(len: nat): (r: nat)
    ensures r < U64 && r % PAGE == 0
  {
    PageFloor((len + PAGE - 1) % U64)
  }

  /** First area that the candidate range meets, as the code computes it in 64 bits. */
  function FirstHit(vmas: seq<Vma>, candidate: nat, len: nat): nat
  {
    if vmas == [] then 0
    else if candidate < vmas[0].end && (candidate + len) % U64 > vmas[0].start then 0
    else 1 + FirstHit(vmas[1..], candidate, len)
  }

  lemma {:induction false} FirstHitFound(vmas: seq<Vma>, candidate: nat, len: nat)
    ensures var k := FirstHit(vmas, candidate, len);
            && k <= |vmas|
            && (forall j: nat | j < k :: !(candidate < vmas[j].end && (candidate + len) % U64 > vmas[j].start))
            && (k < |vmas| ==> candidate < vmas[k].end && (candidate + len) % U64 > vmas[k].start)
  {
    if vmas != [] && !(candidate < vmas[0].end && (candidate + len) % U64 > vmas[0].start) {
      FirstHitFound(vmas[1..], candidate, len);
      var k := FirstHit(vmas[1..], candidate, len);
      forall j: nat | j < k + 1
        ensures !(candidate < vmas[j].end && (candidate + len) % U64 > vmas[j].start)
      {
        if j > 0 { assert vmas[j] == vmas[1..][j - 1]; }
      }
    }
  }

  function Candidate(hint: nat, len: nat): nat
    requires hint < U64 && len < U64
  {
    PageFloor((hint + U64 - len) % U64)
  }

  lemma CandidateAligned(hint: nat, len: nat)
    requires hint < U64 && len < U64
    ensures Candidate(hint, len) % PAGE == 0
  {
  }

  /** In 64 bits the candidate's end never passes the hint, so a hit always lowers the hint. */
  lemma CandidateEnd(hint: nat, len: nat)
    requires hint < U64 && len < U64 && len % PAGE == 0
    ensures (Candidate(hint, len) + len) % U64 == PageFloor(hint) <= hint
  {
    var c := (hint + U64 - len) % U64;
    assert U64 % PAGE == 0;
    if hint >= len {
      assert c == hint - len;
      assert c % PAGE == hint % PAGE;
    } else {
      assert c == hint + U64 - len;
      assert c % PAGE == hint % PAGE;
    }
  }

  /** The search of mm_vma_find_free from a hint downwards; 0 when it gives up. */
  function Search(vmas: seq<Vma>, lower: nat, len: nat, hint: nat): nat
    requires hint < U64 && lower < U64 && len < U64 && len % PAGE == 0
    requires Sorted(vmas) && forall v | v in vmas :: v.end <= U64
    decreases hint
  {
    if hint < (lower + len) % U64 then 0
    else
      var c := Candidate(hint, len);
      var k := FirstHit(vmas, c, len);
      FirstHitFound(vmas, c, len);
      CandidateEnd(hint, len);
      if k == |vmas| then c else Search(vmas, lower, len, vmas[k].start)
  }

  /** One turn of the search: give up, answer, or go on below the start of the area that was hit. */
  lemma SearchStep(vmas: seq<Vma>, lower: nat, len: nat, hint: nat)
    requires (lower + len) % U64 <= hint < U64 && lower < U64 && len < U64 && len % PAGE == 0
    requires Sorted(vmas) && forall v | v in vmas :: v.end <= U64
    ensures var c := Candidate(hint, len);
            var k := FirstHit(vmas, c, len);
            && k <= |vmas| && c < U64
            && (k == |vmas| ==> Search(vmas, lower, len, hint) == c)
            && (k < |vmas| ==> vmas[k].start < hint
                               && Search(vmas, lower, len, hint) == Search(vmas, lower, len, vmas[k].start))
  {
    FirstHitFound(vmas, Candidate(hint, len), len);
    CandidateEnd(hint, len);
  }

  /** The range [c, c + len) meets no area. */
  ghost predicate Fits(vmas: seq<Vma>, c: nat, len: nat)
  {
    forall i: nat | i < |vmas| :: !Overlaps(vmas[i], c, c + len)
  }

  /** `r` answers a request for `len` bytes below `hint`: it is the highest aligned start that fits,
      and it lies above the guard; or it is 0 and no aligned start above the guard fits. */
  ghost predicate Answers(vmas: seq<Vma>, lower: nat, len: nat, hint: nat, r: nat)
  {
    if r == 0 then
      forall c: nat | c % PAGE == 0 && lower <= c && c + len <= hint :: !Fits(vmas, c, len)
    else
      && r % PAGE == 0 && lower <= r && r + len <= hint && Fits(vmas, r, len)
      && forall c: nat | c % PAGE == 0 && r < c && c + len <= hint :: !Fits(vmas, c, len)
  }

  /** An area the candidate meets rules out every start above that area's own start. */
  lemma HitRulesOut(vmas: seq<Vma>, k: nat, len: nat, hint: nat, c: nat)
    requires k < |vmas| && len % PAGE == 0 && len <= hint < U64
    requires Candidate(hint, len) < vmas[k].end
    requires c % PAGE == 0 && c + len <= hint && vmas[k].start < c + len
    ensures !Fits(vmas, c, len)
  {
    var x := (hint + U64 - len) % U64;
    assert x == hint - len;
    assert c <= PageFloor(x);
    assert Overlaps(vmas[k], c, c + len);
  }

  /** Without wrap-around the candidate is the highest aligned start below the hint. */
  lemma CandidateIsHighest(lower: nat, len: nat, hint: nat)
    requires hint < U64 && hint % PAGE == 0 && len % PAGE == 0 && lower + len <= hint
    ensures var c := Candidate(hint, len);
            && c % PAGE == 0 && lower <= c && c + len <= hint && (c + len) % U64 == c + len
            && forall d: nat | d % PAGE == 0 && d + len <= hint :: d <= c
  {
    var x := (hint + U64 - len) % U64;
    assert x == hint - len;
  }

  /** The answer below the start of an area that was hit is the answer below the hint. */
  lemma AnswersBelowHit(vmas: seq<Vma>, k: nat, lower: nat, len: nat, hint: nat, r: nat)
    requires k < |vmas| && len % PAGE == 0 && lower + len <= hint < U64
    requires Candidate(hint, len) < vmas[k].end && vmas[k].start <= hint
    requires Answers(vmas, lower, len, vmas[k].start, r)
    ensures Answers(vmas, lower, len, hint, r)
  {
    var next := vmas[k].start;
    forall d: nat | d % PAGE == 0 && d + len <= hint && next < d + len
      ensures !Fits(vmas, d, len)
    {
      HitRulesOut(vmas, k, len, hint, d);
    }
    assert forall d: nat | d % PAGE == 0 && d + len <= hint :: next < d + len || d + len <= next;
  }

  /** One turn, in terms of answers. */
  lemma TurnAnswers(vmas: seq<Vma>, lower: nat, len: nat, hint: nat, k: nat)
    requires PAGE <= lower && lower + len <= hint < U64 && hint % PAGE == 0 && len % PAGE == 0
    requires Sorted(vmas) && k == FirstHit(vmas, Candidate(hint, len), len)
    ensures k == |vmas| ==> Answers(vmas, lower, len, hint, Candidate(hint, len))
    ensures k < |vmas| ==> vmas[k].start < hint
                           && forall r: nat | Answers(vmas, lower, len, vmas[k].start, r) :: Answers(vmas, lower, len, hint, r)
  {
    var c := Candidate(hint, len);
    FirstHitFound(vmas, c, len);
    CandidateIsHighest(lower, len, hint);
    if k < |vmas| {
      forall r: nat | Answers(vmas, lower, len, vmas[k].start, r)
        ensures Answers(vmas, lower, len, hint, r)
      {
        AnswersBelowHit(vmas, k, lower, len, hint, r);
      }
    } else {
      NothingHit(vmas, lower, len, hint, c);
    }
  }

  lemma {:induction false} SearchAnswers(vmas: seq<Vma>, lower: nat, len: nat, hint: nat)
    requires hint < U64 && hint % PAGE == 0 && PAGE <= lower < U64 && len % PAGE == 0 && 0 < len && lower + len < U64
    requires Sorted(vmas) && forall v | v in vmas :: v.end <= U64
    ensures Answers(vmas, lower, len, hint, Search(vmas, lower, len, hint))
    decreases hint
  {
    assert (lower + len) % U64 == lower + len;
    if hint >= lower + len {
      var k := FirstHit(vmas, Candidate(hint, len), len);
      SearchStep(vmas, lower, len, hint);
      TurnAnswers(vmas, lower, len, hint, k);
      if k < |vmas| { SearchAnswers(vmas, lower, len, vmas[k].start); }
    } else {
      NoRoomBelow(vmas, lower, len, hint);
    }
  }

  lemma NothingHit(vmas: seq<Vma>, lower: nat, len: nat, hint: nat, c: nat)
    requires lower + len <= hint && 0 < c && c % PAGE == 0 && lower <= c && c + len <= hint && (c + len) % U64 == c + len
    requires forall d: nat | d % PAGE == 0 && d + len <= hint :: d <= c
    requires forall j: nat | j < |vmas| :: !(c < vmas[j].end && (c + len) % U64 > vmas[j].start)
    ensures Answers(vmas, lower, len, hint, c)
  {
    assert Fits(vmas, c, len);
  }

  lemma NoRoomBelow(vmas: seq<Vma>, lower: nat, len: nat, hint: nat)
    requires hint < lower + len
    ensures Answers(vmas, lower, len, hint, 0)
  {
  }

  /** The whole pages that `size` bytes need. */
  function RoundUp(size: nat): nat
  {
    PageFloor(size + PAGE - 1)
  }

  /** In 64 bits the rounded size is the same, or 0 for the last sizes below 2^64. */
  lemma RoundUpWraps(size: nat)
    requires size < U64
    ensures RoundUp64(size) == if RoundUp(size) < U64 then RoundUp(size) else 0
    ensures size > U64 - PAGE <==> RoundUp(size) == U64
  {
    assert U64 % PAGE == 0;
  }

  /** The loop test fails at once, or the first area that the candidate meets starts below the
      wrapped limit. */
  ghost predicate GivesUp(vmas: seq<Vma>, lower: nat, len: nat, hint: nat)
    requires hint < U64 && len < U64
  {
    || hint < (lower + len) % U64
    || exists v :: v in vmas && v.start < PageFloor(hint) && Candidate(hint, len) < v.end && v.start < (lower + len) % U64
  }

  /** When the length exceeds the hint, or has become 0, the candidate does not lie below the hint's
      page. */
  lemma WrappedCandidate(lower: nat, len: nat, hint: nat)
    requires len == 0 || hint < len
    requires PAGE <= lower < U64 && (lower + len) % U64 <= hint < U64 && len < U64 && len % PAGE == 0
    ensures var c := Candidate(hint, len);
            && 0 < c && PageFloor(hint) <= c && c + len == PageFloor(hint) + if len == 0 then 0 else U64
  {
    if len > 0 {
      assert (hint + U64 - len) % U64 == hint + U64 - len;
      assert U64 % PAGE == 0;
      assert (hint + U64 - len) % PAGE == hint % PAGE;
      assert U64 - len >= PAGE;
    }
  }

  /** In that case the search stops in its second turn at the latest: it gives up exactly when the
      condition says so, and hands out a range that runs past 2^64 otherwise. */
  lemma WrappedSearch(vmas: seq<Vma>, lower: nat, len: nat, hint: nat)
    requires Sorted(vmas) && forall v | v in vmas :: v.end <= U64
    requires len == 0 || (hint < len && U64 <= lower + len)
    requires PAGE <= lower < U64 && hint < U64 && len < U64 && len % PAGE == 0
    ensures var r := Search(vmas, lower, len, hint);
            (r == 0 <==> GivesUp(vmas, lower, len, hint)) && (r != 0 && len > 0 ==> U64 <= r + len)
  {
    var limit := (lower + len) % U64;
    if limit <= hint {
      var c := Candidate(hint, len);
      var k := FirstHit(vmas, c, len);
      FirstHitFound(vmas, c, len);
      CandidateEnd(hint, len);
      SearchStep(vmas, lower, len, hint);
      WrappedCandidate(lower, len, hint);
      if k < |vmas| {
        if limit <= vmas[k].start {
          SecondTurn(vmas, lower, len, k);
          forall j: nat | k < j < |vmas|
            ensures c < vmas[j].start
          {
            assert vmas[k].end <= vmas[j].start;
          }
        } else {
          assert vmas[k] in vmas;
        }
      }
    }
  }

  lemma SecondTurn(vmas: seq<Vma>, lower: nat, len: nat, k: nat)
    requires Sorted(vmas) && (forall v | v in vmas :: v.end <= U64) && k < |vmas|
    requires len == 0 || (vmas[k].start < len && U64 <= lower + len)
    requires PAGE <= lower < U64 && len < U64 && len % PAGE == 0 && (lower + len) % U64 <= vmas[k].start < U64
    ensures var r := Search(vmas, lower, len, vmas[k].start);
            r == Candidate(vmas[k].start, len) > 0 && (len > 0 ==> U64 <= r + len)
  {
    var hint := vmas[k].start;
    var c := Candidate(hint, len);
    WrappedCandidate(lower, len, hint);
    FirstHitFound(vmas, c, len);
    CandidateEnd(hint, len);
    SearchStep(vmas, lower, len, hint);
    forall j: nat | j < |vmas|
      ensures vmas[j].end <= c || hint <= vmas[j].start
    {
      if j < k { assert vmas[j].end <= vmas[k].start; }
      if k < j { assert vmas[k].end <= vmas[j].start; }
    }
  }

  /** Where the walk down the areas stops when nothing but the length bounds it: at a hint with a
      gap right below it, or with less than `len` bytes below it. */
  ghost function Landing(vmas: seq<Vma>, len: nat, hint: nat): (h: nat)
    requires hint < U64 && len < U64 && len % PAGE == 0 && Sorted(vmas)
    ensures h < U64
    decreases hint
  {
    if len == 0 || hint < len then hint
    else
      var k := FirstHit(vmas, Candidate(hint, len), len);
      FirstHitFound(vmas, Candidate(hint, len), len);
      CandidateEnd(hint, len);
      if k == |vmas| then hint else Landing(vmas, len, vmas[k].start)
  }

  /** When the guard plus the length passes 2^64, nothing but the length bounds the search until
      less than that is left below the hint; from there it goes on as `WrappedSearch` says.  It
      answers 0 when that gives up, or when the gap lies at address 0. */
  lemma {:induction false} LongSearch(vmas: seq<Vma>, lower: nat, len: nat, hint: nat)
    requires Sorted(vmas) && forall v | v in vmas :: v.end <= U64
    requires PAGE <= lower < U64 && hint < U64 && hint % PAGE == 0 && len < U64 && len % PAGE == 0 && (len == 0 || U64 <= lower + len)
    ensures var h := Landing(vmas, len, hint);
            Search(vmas, lower, len, hint) == 0 <==> (0 < len == h || GivesUp(vmas, lower, len, h))
    decreases hint
  {
    if len == 0 || hint < len {
      WrappedSearch(vmas, lower, len, hint);
    } else {
      SearchStep(vmas, lower, len, hint);
      var k := FirstHit(vmas, Candidate(hint, len), len);
      if k < |vmas| {
        LongSearch(vmas, lower, len, vmas[k].start);
      } else {
        GapBelow(vmas, lower, len, hint);
      }
    }
  }

  lemma GapBelow(vmas: seq<Vma>, lower: nat, len: nat, hint: nat)
    requires lower < U64 <= lower + len && 0 < len <= hint < U64 && hint % PAGE == 0 && len % PAGE == 0
    requires FirstHit(vmas, Candidate(hint, len), len) == |vmas|
    ensures (Candidate(hint, len) == 0 <==> len == hint) && !GivesUp(vmas, lower, len, hint)
  {
    assert (hint + U64 - len) % U64 == hint - len;
    FirstHitFound(vmas, Candidate(hint, len), len);
    CandidateEnd(hint, len);
    assert (lower + len) % U64 == lower + len - U64;
  }

  /** What a caller can check before the call. */
  ghost predicate SearchIsSafe(vmas: seq<Vma>, lower: nat, size: nat, hint: nat)
    requires hint < U64 && Sorted(vmas)
  {
    var len := RoundUp64(size);
    lower + RoundUp(size) < U64 || 0 < len == Landing(vmas, len, hint) || GivesUp(vmas, lower, len, Landing(vmas, len, hint))
  }

  /** The search is right for a size if and only if nothing wraps, it gives up, or the gap it finds
      lies at address 0. */
  lemma SearchIsRightIff(vmas: seq<Vma>, lower: nat, size: nat, hint: nat)
    requires Sorted(vmas) && forall v | v in vmas :: v.end <= U64
    requires PAGE <= lower < U64 && hint < U64 && hint % PAGE == 0 && 0 < size < U64
    ensures Answers(vmas, lower, RoundUp(size), hint, Search(vmas, lower, RoundUp64(size), hint))
            <==> SearchIsSafe(vmas, lower, size, hint)
  {
    RoundUpWraps(size);
    if lower + RoundUp(size) < U64 {
      SearchAnswers(vmas, lower, RoundUp(size), hint);
    } else {
      LongSearch(vmas, lower, RoundUp64(size), hint);
      NoRoomBelow(vmas, lower, RoundUp(size), hint);
    }
  }

  /** In an empty address space whose hint lies above the guard it never gives up, so there the
      answer is right exactly when nothing wraps. */
  lemma EmptySpaceAnswersIff(lower: nat, size: nat, hint: nat)
    requires PAGE <= lower <= hint && hint + lower < U64 && hint % PAGE == 0 && 0 < size < U64
    ensures Answers([], lower, RoundUp(size), hint, Search([], lower, RoundUp64(size), hint)) <==> lower + RoundUp(size) < U64
  {
    SearchIsRightIff([], lower, size, hint);
    RoundUpWraps(size);
  }

  /** The first address handed out in a fresh address space (VMM_MMAP_BASE). */
  const MMAP_BASE: nat := 0x7FF0_0000_0000

  /** Two requests that no address space can meet and that are met: the rounded size is 0, or the
      guard plus the size wraps. */
  lemma HugeRequestsAreMet()
    ensures Search([], BRK_GUARD, RoundUp64(U64 - 1), MMAP_BASE) == MMAP_BASE
    ensures Search([], BRK_GUARD, RoundUp64(U64 - PAGE), MMAP_BASE) == MMAP_BASE + PAGE
  {
    SearchStep([], BRK_GUARD, 0, MMAP_BASE);
    SearchStep([], BRK_GUARD, U64 - PAGE, MMAP_BASE);
  }

  // ---------------------------------------------------------------- the memory descriptor

  function Anonymous(start: nat, end: nat, flags: nat): Vma
  {
    Vma(start, end, flags, NULL, 0, NULL, 0, 0)
  }

  class Mm {
    var vmas: seq<Vma>
    var brk: nat
    var mmapBase: nat

    ghost predicate Valid()
      reads this
    {
      && Sorted(vmas) && (forall v | v in vmas :: v.end <= U64)
      && brk + BRK_GUARD < U64 && mmapBase < U64 && mmapBase % PAGE == 0
    }

    /** mm_create */
    constructor ()
      ensures Valid() && vmas == [] && brk == 0 && mmapBase == MMAP_BASE
    {
      vmas, brk, mmapBase := [], 0, MMAP_BASE;
    }

    /** mm_vma_find: the one area that contains the address. */
    method Find(a: nat) returns (r: Option<Vma>)
      requires Valid()
      ensures r.None? <==> !Covered(vmas, a)
      ensures r.Some? ==> r.value in vmas && Contains(r.value, a) && Maps(vmas, a, ContentAt(r.value, a))
    {
      var i := 0;
      while i < |vmas|
        invariant 0 <= i <= |vmas|
        invariant forall j: nat | j < i :: !Contains(vmas[j], a)
      {
        if a >= vmas[i].start && a < vmas[i].end { return Some(vmas[i]); }
        i := i + 1;
      }
      return None;
    }

    /** mm_vma_add: insertion in address order, refused on misalignment or overlap. */
    method Add(start: nat, end: nat, flags: nat, allocOk: bool) returns (ok: bool)
      requires Valid() && end < U64
      modifies this`vmas
      ensures Valid()
      ensures ok <==> start < end && start % PAGE == 0 && end % PAGE == 0 && allocOk && Fits(old(vmas), start, end - start)
      ensures !ok ==> vmas == old(vmas)
      ensures ok ==> exists k: nat :: k <= |old(vmas)| && vmas == old(vmas)[..k] + [Anonymous(start, end, flags)] + old(vmas)[k..]
      ensures ok ==> forall a: nat, c :: Maps(vmas, a, c) <==>
                       if start <= a < end then c == Content(flags, NoFile, None) else Maps(old(vmas), a, c)
    {
      if start >= end || start % PAGE != 0 || end % PAGE != 0 { return false; }
      if !allocOk { return false; }
      var i := 0;
      while i < |vmas|
        invariant 0 <= i <= |vmas| && vmas == old(vmas)
        invariant forall j: nat | j < i :: !Overlaps(vmas[j], start, end)
      {
        if start < vmas[i].end && end > vmas[i].start {
          assert Overlaps(vmas[i], start, start + (end - start));
          return false;
        }
        i := i + 1;
      }
      var k: nat := 0;
      while k < |vmas| && vmas[k].start < start
        invariant 0 <= k <= |vmas| && vmas == old(vmas)
        invariant forall j: nat | j < k :: vmas[j].start < start
      {
        k := k + 1;
      }
      var v := Anonymous(start, end, flags);
      InsertSorted(vmas, k, v);
      InsertMaps(vmas, k, v);
      vmas := vmas[..k] + [v] + vmas[k..];
      return true;
    }

    /** mm_vma_remove */
    method Remove(start: nat, end: nat, canSplit: bool) returns (didWork: bool)
      requires Valid() && start % PAGE == 0 && end % PAGE == 0
      modifies this`vmas
      ensures Valid()
      ensures vmas == if start < end then CutAll(old(vmas), start, end, canSplit) else old(vmas)
      ensures didWork <==> start < end && Touched(old(vmas), |old(vmas)|, start, end)
    {
      if start >= end { return false; }
      ghost var was := vmas;
      CutAllSorted(was, start, end, canSplit);
      CutAllBounded(was, start, end, canSplit);
      vmas, didWork := CutEach(vmas, start, end, canSplit);
    }

    /** mm_vma_find_free; a found gap also lowers the hint for the next call. */
    method FindFree(size: nat) returns (r: nat)
      requires Valid() && size < U64
      modifies this`mmapBase
      ensures Valid()
      ensures r == if size == 0 then 0 else Search(vmas, brk + BRK_GUARD, RoundUp64(size), old(mmapBase))
      ensures mmapBase == r || (r == 0 && mmapBase == old(mmapBase))
      ensures r == 0 && brk + BRK_GUARD + RoundUp64(size) < U64 ==> mmapBase == old(mmapBase)
      ensures 0 < size ==> (Answers(vmas, brk + BRK_GUARD, RoundUp(size), old(mmapBase), r)
                            <==> SearchIsSafe(vmas, brk + BRK_GUARD, size, old(mmapBase)))
    {
      if size == 0 { return 0; }
      var lower, len := brk + BRK_GUARD, RoundUp64(size);
      var found;
      found, r := Descend(vmas, lower, len, mmapBase);
      SearchIsRightIff(vmas, lower, size, mmapBase);
      if found { mmapBase := r; }
    }
  }

  /** The outer loop of mm_vma_find_free. */
  method Descend(vmas: seq<Vma>, lower: nat, len: nat, base: nat) returns (found: bool, r: nat)
    requires base < U64 && lower < U64 && len < U64 && len % PAGE == 0
    requires Sorted(vmas) && forall v | v in vmas :: v.end <= U64
    ensures r == Search(vmas, lower, len, base) < U64 && r % PAGE == 0
    ensures !found ==> r == 0
    ensures found && lower + len < U64 && lower >= PAGE ==> r > 0
  {
    var hint: nat := base;
    while hint >= (lower + len) % U64
      invariant hint < U64
      invariant Search(vmas, lower, len, hint) == Search(vmas, lower, len, base)
      decreases hint
    {
      var candidate := Candidate(hint, len);
      var k := FirstOverlap(vmas, candidate, len);
      SearchStep(vmas, lower, len, hint);
      CandidateAligned(hint, len);
      if k == |vmas| { return true, candidate; }
      hint := vmas[k].start;
    }
    return false, 0;
  }

  /** The inner loop of mm_vma_find_free: the first area the candidate range meets. */
  method FirstOverlap(vmas: seq<Vma>, candidate: nat, len: nat) returns (k: nat)
    ensures k == FirstHit(vmas, candidate, len)
  {
    FirstHitFound(vmas, candidate, len);
    k := 0;
    while k < |vmas| && !(candidate < vmas[k].end && (candidate + len) % U64 > vmas[k].start)
      invariant k <= FirstHit(vmas, candidate, len)
    {
      k := k + 1;
    }
  }

  /** The four cases of mm_vma_remove for one area: the pieces hold exactly what stays of it. */
  method CutOne(v: Vma, start: nat, end: nat, canSplit: bool) returns (pieces: seq<Vma>, touched: bool)
    requires start < end
    ensures pieces == Cut(v, start, end, canSplit)
    ensures forall a: nat :: Covered(pieces, a) <==> Contains(v, a) && Stays(v, start, end, canSplit, a)
    ensures forall u | u in pieces :: u.flags == v.flags
    ensures touched <==> Overlaps(v, start, end)
  {
    forall a: nat
      ensures Covered(Cut(v, start, end, canSplit), a) <==> Contains(v, a) && Stays(v, start, end, canSplit, a)
    {
      CutCovers(v, start, end, canSplit, a);
    }
    CutCovers(v, start, end, canSplit, 0);
    if v.start >= end || v.end <= start { return [v], false; }
    if v.start >= start && v.end <= end { return [], true; }
    if v.start < start && v.end > end {
      if !canSplit { return [v], true; }
      return [v.(end := start), RightFragment(v, end)], true;
    }
    if v.start < start { return [v.(end := start)], true; }
    return [v.(start := end)], true;
  }

  /** The walk of mm_vma_remove. */
  method CutEach(was: seq<Vma>, start: nat, end: nat, canSplit: bool) returns (vmas: seq<Vma>, didWork: bool)
    requires start < end
    ensures vmas == CutAll(was, start, end, canSplit)
    ensures didWork <==> Touched(was, |was|, start, end)
  {
    vmas, didWork := was, false;
    var i: nat := 0;
    ghost var k: nat := 0;
    WalkStarts(was, start, end, canSplit);
    while i < |vmas|
      invariant WalkOk(was, k, i, vmas, didWork, start, end, canSplit)
      decreases |was| - k
    {
      WalkHead(was, k, i, vmas, didWork, start, end, canSplit);
      var pieces, touched := CutOne(vmas[i], start, end, canSplit);
      WalkTurn(was, k, i, vmas, didWork, pieces, start, end, canSplit);
      vmas, didWork := vmas[..i] + pieces + vmas[i + 1..], didWork || touched;
      i, k := i + |pieces|, k + 1;
    }
    WalkEnds(was, k, i, vmas, didWork, start, end, canSplit);
  }

  /** Halfway through the walk: the first `k` areas are cut, the others are as they were. */
  ghost predicate WalkOk(was: seq<Vma>, k: nat, i: nat, vmas: seq<Vma>, didWork: bool, start: nat, end: nat, canSplit: bool)
  {
    && k <= |was| && i <= |vmas| && vmas[..i] == CutAll(was[..k], start, end, canSplit) && vmas[i..] == was[k..]
    && (didWork <==> Touched(was, k, start, end))
  }

  lemma WalkStarts(was: seq<Vma>, start: nat, end: nat, canSplit: bool)
    ensures WalkOk(was, 0, 0, was, false, start, end, canSplit)
  {
  }

  lemma WalkHead(was: seq<Vma>, k: nat, i: nat, vmas: seq<Vma>, didWork: bool, start: nat, end: nat, canSplit: bool)
    requires WalkOk(was, k, i, vmas, didWork, start, end, canSplit) && i < |vmas|
    ensures k < |was| && vmas[i] == was[k]
  {
    assert vmas[i..][0] == was[k..][0];
  }

  lemma WalkTurn(was: seq<Vma>, k: nat, i: nat, vmas: seq<Vma>, didWork: bool, pieces: seq<Vma>, start: nat, end: nat, canSplit: bool)
    requires WalkOk(was, k, i, vmas, didWork, start, end, canSplit) && i < |vmas| && k < |was|
    requires pieces == Cut(was[k], start, end, canSplit)
    ensures WalkOk(was, k + 1, i + |pieces|, vmas[..i] + pieces + vmas[i + 1..], didWork || Overlaps(was[k], start, end),
                   start, end, canSplit)
  {
    CutOneMore(was, k, start, end, canSplit);
    Splice(vmas, i, was, k, pieces);
  }

  lemma WalkEnds(was: seq<Vma>, k: nat, i: nat, vmas: seq<Vma>, didWork: bool, start: nat, end: nat, canSplit: bool)
    requires WalkOk(was, k, i, vmas, didWork, start, end, canSplit) && |vmas| <= i
    ensures vmas == CutAll(was, start, end, canSplit) && (didWork <==> Touched(was, |was|, start, end))
  {
    assert |was[k..]| == |vmas[i..]| == 0;
    assert was[..|was|] == was && vmas[..i] == vmas;
  }

  ghost predicate Touched(vmas: seq<Vma>, k: nat, start: nat, end: nat)
    requires k <= |vmas|
  {
    exists j: nat :: j < k && Overlaps(vmas[j], start, end)
  }

  /** A new area shows its own content and leaves that of all other addresses. */
  lemma InsertMaps(vmas: seq<Vma>, k: nat, v: Vma)
    requires k <= |vmas| && v.file == NULL && v.shmem == NULL
    requires forall j: nat | j < |vmas| :: !Overlaps(vmas[j], v.start, v.end)
    ensures forall a: nat, c :: Maps(vmas[..k] + [v] + vmas[k..], a, c) <==>
              if v.start <= a < v.end then c == Content(v.flags, NoFile, None) else Maps(vmas, a, c)
  {
    var vmas' := vmas[..k] + [v] + vmas[k..];
    assert vmas'[k] == v;
    forall a: nat, c
      ensures Maps(vmas', a, c) <==> if v.start <= a < v.end then c == Content(v.flags, NoFile, None) else Maps(vmas, a, c)
    {
      if i: nat :| i < |vmas'| && Contains(vmas'[i], a) && ContentAt(vmas'[i], a) == c {
        if i != k { assert vmas'[i] == vmas[if i < k then i else i - 1]; }
      }
      if i: nat :| i < |vmas| && Contains(vmas[i], a) && ContentAt(vmas[i], a) == c {
        assert vmas'[if i < k then i else i + 1] == vmas[i];
      }
      if v.start <= a < v.end { assert Contains(vmas'[k], a) && ContentAt(vmas'[k], a) == Content(v.flags, NoFile, None); }
    }
  }

  lemma InsertSorted(vmas: seq<Vma>, k: nat, v: Vma)
    requires Sorted(vmas) && k <= |vmas| && VmaOk(v)
    requires forall j: nat | j < |vmas| :: !Overlaps(vmas[j], v.start, v.end)
    requires forall j: nat | j < k :: vmas[j].start < v.start
    requires k < |vmas| ==> vmas[k].start >= v.start
    ensures Sorted(vmas[..k] + [v] + vmas[k..])
  {
    var post := vmas[..k] + [v] + vmas[k..];
    assert forall j: nat | j < |post| :: post[j] == if j < k then vmas[j] else if j == k then v else vmas[j - 1];
    forall j: nat | k <= j < |vmas|
      ensures v.end <= vmas[j].start
    {
      if j > k { assert vmas[k].end <= vmas[j].start; }
    }
  }
}
