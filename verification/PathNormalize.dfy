/** In-place path normalisation (kernel/fs/virtfs.c, normalize_path): a reading and a writing
    position in one buffer, and a stack of at most 128 component offsets. */
module PathNormalize {

  const NUL: char := '\0'
  const MAX_DEPTH: nat := 128

  type Path = seq<char>

  // ---------------------------------------------------------------- what it should compute

  /** Length of the component that starts at `i`. */
  function CompLen(s: Path, i: nat): (n: nat)
    requires i <= |s|
    ensures i + n <= |s| && (forall k: nat | i <= k < i + n :: s[k] != '/') && (i + n < |s| ==> s[i + n] == '/')
    decreases |s| - i
  {
    if i == |s| || s[i] == '/' then 0 else 1 + CompLen(s, i + 1)
  }

  /** The non-empty components of s[i..]. */
  function Comps(s: Path, i: nat): (cs: seq<Path>)
    requires i <= |s|
    decreases |s| - i
  {
    if i == |s| then []
    else if s[i] == '/' then Comps(s, i + 1)
    else [s[i..i + CompLen(s, i)]] + Comps(s, i + CompLen(s, i))
  }

  /** One component met with `live` components on the stack; a stack that records at most `cap`
      offsets pops to the last recorded one. */
  function Step(live: seq<Path>, c: Path, cap: nat): seq<Path>
    requires cap > 0
  {
    if c == "." then live
    else if c == ".." then
      if live == [] then live
      else if |live| <= cap then live[..|live| - 1] else live[..cap - 1]
    else live + [c]
  }

  function Resolve(live: seq<Path>, cs: seq<Path>, cap: nat): seq<Path>
    requires cap > 0
    decreases |cs|
  {
    if cs == [] then live else Resolve(Step(live, cs[0], cap), cs[1..], cap)
  }

  /** Stack-based resolution without a limit. */
  function TrueStep(live: seq<Path>, c: Path): seq<Path>
  {
    if c == "." then live
    else if c == ".." then if live == [] then live else live[..|live| - 1]
    else live + [c]
  }

  function TrueResolve(live: seq<Path>, cs: seq<Path>): seq<Path>
    decreases |cs|
  {
    if cs == [] then live else TrueResolve(TrueStep(live, cs[0]), cs[1..])
  }

  /** Each component followed by a slash. */
  function Slashed(live: seq<Path>): Path
  {
    if live == [] then [] else Slashed(live[..|live| - 1]) + live[|live| - 1] + ['/']
  }

  /** "/" and the components joined by "/". */
  function Render(live: seq<Path>): Path
  {
    if live == [] then ['/'] else ['/'] + Slashed(live)[..|Slashed(live)| - 1]
  }

  function CString(s: Path): Path
  {
    if s == [] || s[0] == NUL then [] else [s[0]] + CString(s[1..])
  }

  lemma {:induction false} CStringIs(s: Path, n: nat)
    requires n < |s| && s[n] == NUL && forall k: nat | k < n :: s[k] != NUL
    ensures CString(s) == s[..n]
  {
    if n > 0 {
      CStringIs(s[1..], n - 1);
      assert s[..n] == [s[0]] + s[1..][..n - 1];
    }
  }

  // ---------------------------------------------------------------- the loop

  /** A component that can be on the stack. */
  predicate Plain(c: Path)
  {
    c != [] && c != "." && c != ".." && forall k: nat | k < |c| :: c[k] != '/' && c[k] != NUL
  }

  /** A component as it can stand in a path. */
  predicate Solid(c: Path)
  {
    c != [] && forall k: nat | k < |c| :: c[k] != '/'
  }

  ghost predicate AllPlain(live: seq<Path>)
  {
    forall i: nat | i < |live| :: Plain(live[i])
  }

  /** What is left to do from `src` on with the stack as it is. */
  function Rest(s: Path, src: nat, live: seq<Path>): seq<Path>
    requires src <= |s|
  {
    Resolve(live, Comps(s, src), MAX_DEPTH)
  }

  lemma RestStep(s: Path, src: nat, live: seq<Path>, len: nat)
    requires src < |s| && s[src] != '/' && len == CompLen(s, src)
    ensures len > 0 && Rest(s, src, live) == Rest(s, src + len, Step(live, s[src..src + len], MAX_DEPTH))
  {
    var c := s[src..src + len];
    assert Comps(s, src) == [c] + Comps(s, src + len);
    assert Comps(s, src)[0] == c && Comps(s, src)[1..] == Comps(s, src + len);
  }

  lemma RestSlash(s: Path, src: nat, live: seq<Path>)
    requires src < |s| && s[src] == '/'
    ensures Rest(s, src, live) == Rest(s, src + 1, live)
  {
    assert Comps(s, src) == Comps(s, src + 1);
  }

  /** The offsets on the stack are where the components start. */
  ghost predicate OffsOk(offs: seq<nat>, depth: nat, live: seq<Path>)
  {
    && |offs| == MAX_DEPTH && depth == (if |live| < MAX_DEPTH then |live| else MAX_DEPTH)
    && forall k: nat | k < depth :: offs[k] == 1 + |Slashed(live[..k])|
  }

  lemma PushOffs(offs: seq<nat>, depth: nat, live: seq<Path>, c: Path, dst: nat)
    requires OffsOk(offs, depth, live) && dst == 1 + |Slashed(live)|
    ensures OffsOk(if depth < MAX_DEPTH then offs[depth := dst] else offs,
                   if depth < MAX_DEPTH then depth + 1 else depth, live + [c])
    ensures Slashed(live + [c]) == Slashed(live) + c + ['/']
  {
    assert (live + [c])[..|live|] == live;
    assert forall k: nat | k <= |live| :: (live + [c])[..k] == live[..k];
    assert live[..|live|] == live;
  }

  lemma PopOffs(offs: seq<nat>, depth: nat, live: seq<Path>)
    requires OffsOk(offs, depth, live) && live != []
    ensures depth > 0 && OffsOk(offs, depth - 1, live[..depth - 1]) && offs[depth - 1] == 1 + |Slashed(live[..depth - 1])|
    ensures Step(live, "..", MAX_DEPTH) == live[..depth - 1]
  {
    assert forall k: nat | k < depth - 1 :: live[..depth - 1][..k] == live[..k];
  }

  /** Popping keeps a prefix of what was written. */
  lemma {:induction false} SlashedPrefix(live: seq<Path>, k: nat)
    requires k <= |live|
    ensures Slashed(live[..k]) <= Slashed(live)
  {
    if k < |live| {
      var n := |live| - 1;
      SlashedPrefix(live[..n], k);
      assert live[..n][..k] == live[..k];
    } else {
      assert live[..k] == live;
    }
  }

  /** The part of the buffer that was written: "/" and the live components; `open` says that the
      last component ends the path and has no slash behind it. */
  ghost predicate Written(buf: seq<char>, dst: nat, live: seq<Path>, open: bool)
  {
    dst <= |buf| && AllPlain(live) && (open ==> live != []) && buf[..dst] == Text(live, open)
  }

  /** What has been written: the live components behind "/", the last one without a slash if `open`. */
  function Text(live: seq<Path>, open: bool): (t: Path)
    ensures |t| >= 1
  {
    if open then Render(live) else ['/'] + Slashed(live)
  }

  lemma TextPush(live: seq<Path>, c: Path)
    ensures Text(live + [c], true) == Text(live, false) + c
    ensures Text(live + [c], false) == Text(live, false) + c + ['/']
  {
    PushOffsOnly(live, c);
    assert (Slashed(live) + c + ['/'])[..|Slashed(live) + c|] == Slashed(live) + c;
  }

  /** memcpy towards the front of the same buffer. */
  method CopyDown(path: array<char>, dst: nat, src: nat, len: nat)
    requires dst <= src && src + len <= path.Length
    modifies path
    ensures path[..dst] == old(path[..dst]) && path[dst..dst + len] == old(path[src..src + len])
    ensures path[src + len..] == old(path[src + len..])
  {
    var i := 0;
    while i < len
      invariant 0 <= i <= len
      invariant forall k | 0 <= k < dst :: path[k] == old(path[k])
      invariant path[dst..dst + i] == old(path[src..src + i])
      invariant forall k | src + i <= k < path.Length :: path[k] == old(path[k])
    {
      path[dst + i] := path[src + i];
      i := i + 1;
    }
  }

  /** A plain component is copied to the writing position, with a slash unless the path ends. */
  method Push(path: array<char>, ghost s: Path, src: nat, dst: nat, len: nat, ghost live: seq<Path>)
    returns (dst': nat, ghost open: bool)
    requires |s| < path.Length && path[|s|] == NUL && 0 < len && src + len <= |s| && dst <= src
    requires path[src..|s|] == s[src..] && (src + len < |s| ==> s[src + len] == '/')
    requires Written(path[..], dst, live, false) && Plain(s[src..src + len])
    modifies path
    ensures path[src + len..] == old(path[src + len..])
    ensures open <==> src + len == |s|
    ensures Written(path[..], dst', live + [s[src..src + len]], open)
    ensures dst' == dst + len + if open then 0 else 1
  {
    ghost var c, buf := s[src..src + len], path[..];
    SourceComponent(buf, s, src, len);
    assert path[src..src + len] == c;
    CopyDown(path, dst, src, len);
    assert path[src + len] == path[src + len..][0] == buf[src + len..][0] == buf[src + len];
    open := src + len == |s|;
    dst' := dst + len;
    if path[src + len] != NUL {
      assert path[src + len] == '/';
      PutSlash(path, dst', src + len);
      dst' := dst' + 1;
    }
    assert path[..][..dst] == buf[..dst] && path[..][dst..dst + len] == c;
    WrittenPush(buf, path[..], dst, live, c, open);
  }

  /** The component in the buffer, and what follows it. */
  lemma SourceComponent(buf: seq<char>, s: Path, src: nat, len: nat)
    requires |s| < |buf| && buf[|s|] == NUL && src + len <= |s| && buf[src..|s|] == s[src..]
    ensures buf[src..src + len] == s[src..src + len]
    ensures buf[src + len] == if src + len == |s| then NUL else s[src + len]
  {
    assert buf[src..src + len] == buf[src..|s|][..len] && s[src..src + len] == s[src..][..len];
    if src + len < |s| { assert buf[src + len] == buf[src..|s|][len]; }
  }

  /** A slash at or before a slash that is still to be read. */
  method PutSlash(path: array<char>, dst: nat, at: nat)
    requires dst <= at < path.Length && path[at] == '/'
    modifies path
    ensures path[..dst] == old(path[..dst]) && path[dst] == '/' && path[at..] == old(path[at..])
  {
    path[dst] := '/';
  }

  lemma WrittenPush(buf: seq<char>, buf': seq<char>, dst: nat, live: seq<Path>, c: Path, open: bool)
    requires Written(buf, dst, live, false) && Plain(c) && |buf'| == |buf| && dst + |c| <= |buf|
    requires buf'[..dst] == buf[..dst] && buf'[dst..dst + |c|] == c
    requires !open ==> dst + |c| < |buf| && buf'[dst + |c|] == '/'
    ensures Written(buf', if open then dst + |c| else dst + |c| + 1, live + [c], open)
  {
    TextPush(live, c);
    Append(buf', dst, Text(live, false), c);
    if !open { Append(buf', dst + |c|, Text(live, false) + c, ['/']); }
  }

  lemma Append(buf: seq<char>, dst: nat, t: Path, c: Path)
    requires dst + |c| <= |buf| && buf[..dst] == t && buf[dst..dst + |c|] == c
    ensures buf[..dst + |c|] == t + c
  {
  }

  lemma PushOffsOnly(live: seq<Path>, c: Path)
    ensures Slashed(live + [c]) == Slashed(live) + c + ['/']
  {
    assert (live + [c])[..|live|] == live;
  }

  /** Going back to a recorded offset keeps a prefix of the written part. */
  lemma WrittenPop(buf: seq<char>, dst: nat, live: seq<Path>, k: nat)
    requires Written(buf, dst, live, false) && k <= |live|
    ensures 1 + |Slashed(live[..k])| <= dst && Written(buf, 1 + |Slashed(live[..k])|, live[..k], false)
  {
    SlashedPrefix(live, k);
    Prefix(buf, dst, Slashed(live), Slashed(live[..k]));
  }

  lemma Prefix(buf: seq<char>, dst: nat, t: Path, u: Path)
    requires dst <= |buf| && buf[..dst] == ['/'] + t && u <= t
    ensures 1 + |u| <= dst && buf[..1 + |u|] == ['/'] + u
  {
    assert buf[..1 + |u|] == buf[..dst][..1 + |u|];
  }

  /** The two pointers: what is still to be read is untouched, and the writer is at most one
      slash ahead of the reader. */
  ghost predicate Pointers(buf: seq<char>, s: Path, src: nat, dst: nat)
  {
    && |s| < |buf| && buf[|s|] == NUL && src <= |s| && buf[src..|s|] == s[src..]
    && (dst <= src || (dst == src + 1 && src < |s| && s[src] == '/'))
  }

  /** Invariant of the loop. */
  ghost predicate LoopInv(buf: seq<char>, offs: seq<nat>, s: Path, src: nat, dst: nat, depth: nat, live: seq<Path>, open: bool)
  {
    && NoNul(s) && Pointers(buf, s, src, dst) && Written(buf, dst, live, open) && (open ==> src == |s|)
    && (!open ==> OffsOk(offs, depth, live))
  }

  lemma NextChar(buf: seq<char>, s: Path, src: nat, dst: nat)
    requires Pointers(buf, s, src, dst) && NoNul(s)
    ensures buf[src] == NUL <==> src == |s|
    ensures src < |s| ==> buf[src] == s[src]
  {
    if src < |s| { assert buf[src..|s|][0] == s[src..][0]; }
  }

  lemma SkipTo(buf: seq<char>, s: Path, src: nat, dst: nat, src': nat)
    requires Pointers(buf, s, src, dst) && src < src' <= |s|
    ensures Pointers(buf, s, src', dst)
  {
    assert buf[src'..|s|] == buf[src..|s|][src' - src..] && s[src'..] == s[src..][src' - src..];
  }

  lemma SlashTurn(buf: seq<char>, offs: seq<nat>, s: Path, src: nat, dst: nat, depth: nat, live: seq<Path>)
    requires LoopInv(buf, offs, s, src, dst, depth, live, false) && src < |s| && s[src] == '/'
    ensures LoopInv(buf, offs, s, src + 1, dst, depth, live, false)
  {
    SkipTo(buf, s, src, dst, src + 1);
  }

  lemma DotTurn(buf: seq<char>, offs: seq<nat>, s: Path, src: nat, dst: nat, depth: nat, live: seq<Path>, len: nat)
    requires LoopInv(buf, offs, s, src, dst, depth, live, false) && src < |s| && s[src] != '/'
    requires len == CompLen(s, src) && s[src..src + len] == "."
    ensures LoopInv(buf, offs, s, src + len, dst, depth, live, false) && Moves(s, src, live, src + len, live)
  {
    SkipTo(buf, s, src, dst, src + len);
  }

  /** ".." with nothing to pop. */
  lemma DotDotAtRoot(buf: seq<char>, offs: seq<nat>, s: Path, src: nat, dst: nat, depth: nat, live: seq<Path>, len: nat)
    requires LoopInv(buf, offs, s, src, dst, depth, live, false) && src < |s| && s[src] != '/'
    requires len == CompLen(s, src) && s[src..src + len] == ".." && depth == 0
    ensures LoopInv(buf, offs, s, src + len, dst, depth, live, false)
  {
    SkipTo(buf, s, src, dst, src + len);
  }

  lemma DotDotTurn(buf: seq<char>, offs: seq<nat>, s: Path, src: nat, dst: nat, depth: nat, live: seq<Path>, len: nat)
    requires LoopInv(buf, offs, s, src, dst, depth, live, false) && src < |s| && s[src] != '/'
    requires len == CompLen(s, src) && s[src..src + len] == ".." && depth > 0
    ensures depth <= |live| && depth <= |offs| && offs[depth - 1] <= dst
    ensures LoopInv(buf, offs, s, src + len, offs[depth - 1], depth - 1, live[..depth - 1], false)
  {
    PopOffs(offs, depth, live);
    WrittenPop(buf, dst, live, depth - 1);
    SkipTo(buf, s, src, dst, src + len);
    BackPointer(buf, s, src + len, dst, offs[depth - 1]);
  }

  lemma BackPointer(buf: seq<char>, s: Path, src: nat, dst: nat, dst': nat)
    requires Pointers(buf, s, src, dst) && dst' <= dst
    ensures Pointers(buf, s, src, dst')
  {
  }

  lemma PushTurn(buf: seq<char>, buf': seq<char>, offs: seq<nat>, s: Path, src: nat, dst: nat, depth: nat, live: seq<Path>,
                 len: nat, c: Path, dst': nat, open: bool)
    requires LoopInv(buf, offs, s, src, dst, depth, live, false) && src < |s| && s[src] != '/' && dst <= src
    requires len == CompLen(s, src) && 0 < len && c == s[src..src + len] && Plain(c) && |buf'| == |buf|
    requires buf'[src + len..] == buf[src + len..] && (open <==> src + len == |s|)
    requires Written(buf', dst', live + [c], open) && dst' == dst + len + if open then 0 else 1
    ensures LoopInv(buf', if depth < MAX_DEPTH then offs[depth := dst] else offs, s, src + len, dst',
                    if depth < MAX_DEPTH then depth + 1 else depth, live + [c], open)
  {
    assert Pointers(buf', s, src + len, dst') by {
      SkipTo(buf, s, src, dst, src + len);
      SameAhead(buf, buf', s, src + len, dst, dst');
    }
    PushOffs(offs, depth, live, c, dst);
  }

  lemma SameAhead(buf: seq<char>, buf': seq<char>, s: Path, src: nat, dst: nat, dst': nat)
    requires Pointers(buf, s, src, dst) && |buf'| == |buf| && buf'[src..] == buf[src..]
    requires dst' <= src || (dst' == src + 1 && src < |s| && s[src] == '/')
    ensures Pointers(buf', s, src, dst')
  {
    assert forall k: nat | src <= k < |buf| :: buf'[k] == buf'[src..][k - src] && buf[k] == buf[src..][k - src];
  }

  datatype Kind = Dot | DotDot | Ordinary

  predicate KindIs(kind: Kind, c: Path)
  {
    match kind
    case Dot => c == "."
    case DotDot => c == ".."
    case Ordinary => Plain(c)
  }

  /** Scan one component and tell what it is. */
  method Classify(path: array<char>, ghost s: Path, src: nat, ghost dst: nat) returns (kind: Kind, len: nat)
    requires NoNul(s) && Pointers(path[..], s, src, dst) && src < |s| && s[src] != '/'
    ensures len == CompLen(s, src) > 0
    ensures KindIs(kind, s[src..src + len])
  {
    assert path[src..|s|] == path[..][src..|s|];
    len := Scan(path, s, src);
    var dotDot := IsDotDot(path, s, src, len);
    assert path[src..|s|][0] == s[src];
    if len == 1 && path[src] == '.' {
      assert s[src..src + len] == ".";
      return Dot, len;
    }
    if dotDot { return DotDot, len; }
    PlainComponent(s, src, len);
    return Ordinary, len;
  }

  /** What one turn reads: a slash or a component. */
  ghost function NextSrc(s: Path, src: nat): (r: nat)
    requires src < |s|
    ensures src < r <= |s|
  {
    if s[src] == '/' then src + 1 else src + CompLen(s, src)
  }

  /** What it does to the stack. */
  ghost function NextLive(s: Path, src: nat, live: seq<Path>): seq<Path>
    requires src < |s|
  {
    if s[src] == '/' then live else Step(live, s[src..NextSrc(s, src)], MAX_DEPTH)
  }

  ghost predicate Moves(s: Path, src: nat, live: seq<Path>, src': nat, live': seq<Path>)
    requires src < |s|
  {
    src' == NextSrc(s, src) && live' == NextLive(s, src, live)
  }

  lemma MovesKeepRest(s: Path, src: nat, live: seq<Path>, src': nat, live': seq<Path>)
    requires src < |s| && Moves(s, src, live, src', live')
    ensures Rest(s, src', live') == Rest(s, src, live)
  {
    if s[src] == '/' { RestSlash(s, src, live); } else { RestStep(s, src, live, src' - src); }
  }

  /** One turn of the loop. */
  method Turn(path: array<char>, offs: array<nat>, ghost s: Path, src: nat, dst: nat, depth: nat, ghost live: seq<Path>)
    returns (src': nat, dst': nat, depth': nat, ghost live': seq<Path>, ghost open: bool)
    requires offs.Length == MAX_DEPTH && LoopInv(path[..], offs[..], s, src, dst, depth, live, false) && src < |s|
    modifies path, offs
    ensures LoopInv(path[..], offs[..], s, src', dst', depth', live', open) && src < src'
    ensures Moves(s, src, live, src', live')
  {
    NextChar(path[..], s, src, dst);
    if path[src] == '/' {
      SlashTurn(path[..], offs[..], s, src, dst, depth, live);
      return src + 1, dst, depth, live, false;
    }
    src', dst', depth', live', open := Component(path, offs, s, src, dst, depth, live);
  }

  /** A turn that reads a component. */
  method Component(path: array<char>, offs: array<nat>, ghost s: Path, src: nat, dst: nat, depth: nat, ghost live: seq<Path>)
    returns (src': nat, dst': nat, depth': nat, ghost live': seq<Path>, ghost open: bool)
    requires offs.Length == MAX_DEPTH && LoopInv(path[..], offs[..], s, src, dst, depth, live, false) && src < |s| && s[src] != '/'
    modifies path, offs
    ensures LoopInv(path[..], offs[..], s, src', dst', depth', live', open)
    ensures Moves(s, src, live, src', live')
  {
    var kind, len := Classify(path, s, src, dst);
    src' := src + len;
    dst', depth', live', open := Act(path, offs, s, src, dst, depth, live, kind, len);
  }

  /** What is done with a component of each kind. */
  method Act(path: array<char>, offs: array<nat>, ghost s: Path, src: nat, dst: nat, depth: nat, ghost live: seq<Path>, kind: Kind, len: nat)
    returns (dst': nat, depth': nat, ghost live': seq<Path>, ghost open: bool)
    requires offs.Length == MAX_DEPTH && LoopInv(path[..], offs[..], s, src, dst, depth, live, false)
    requires src < |s| && s[src] != '/' && len == CompLen(s, src) && KindIs(kind, s[src..src + len])
    modifies path, offs
    ensures LoopInv(path[..], offs[..], s, src + len, dst', depth', live', open) && Moves(s, src, live, src + len, live')
  {
    match kind
    case Dot =>
      DotTurn(path[..], offs[..], s, src, dst, depth, live, len);
      return dst, depth, live, false;
    case DotDot =>
      dst', depth', live' := Pop(path, offs, s, src, dst, depth, live, len);
      open := false;
    case Ordinary =>
      dst', depth', open := PushOnStack(path, offs, s, src, dst, depth, live, len);
      live' := live + [s[src..src + len]];
  }

  /** The branch for "..". */
  method Pop(path: array<char>, offs: array<nat>, ghost s: Path, src: nat, dst: nat, depth: nat, ghost live: seq<Path>, ghost len: nat)
    returns (dst': nat, depth': nat, ghost live': seq<Path>)
    requires offs.Length == MAX_DEPTH && LoopInv(path[..], offs[..], s, src, dst, depth, live, false)
    requires src < |s| && s[src] != '/' && len == CompLen(s, src) && s[src..src + len] == ".."
    ensures LoopInv(path[..], offs[..], s, src + len, dst', depth', live', false) && Moves(s, src, live, src + len, live')
  {
    dst', depth', live' := dst, depth, live;
    if depth == 0 {
      DotDotAtRoot(path[..], offs[..], s, src, dst, depth, live, len);
    } else {
      DotDotTurn(path[..], offs[..], s, src, dst, depth, live, len);
      live' := live[..depth - 1];
      depth' := depth - 1;
      dst' := offs[depth'];
    }
  }

  method IsDotDot(path: array<char>, ghost s: Path, src: nat, len: nat) returns (r: bool)
    requires |s| < path.Length && 0 < len && src + len <= |s| && path[src..|s|] == s[src..]
    ensures r <==> s[src..src + len] == ".."
  {
    assert forall k: nat | src <= k < |s| :: path[k] == path[src..|s|][k - src] == s[k];
    r := len == 2 && path[src] == '.' && path[src + 1] == '.';
  }

  lemma PlainComponent(s: Path, src: nat, len: nat)
    requires NoNul(s) && src < |s| && len == CompLen(s, src) > 0
    requires s[src..src + len] != ".." && (len != 1 || s[src] != '.')
    ensures Plain(s[src..src + len])
  {
    var c := s[src..src + len];
    assert c[0] == s[src];
  }

  lemma OrdinaryMoves(s: Path, src: nat, live: seq<Path>, len: nat)
    requires src < |s| && s[src] != '/' && len == CompLen(s, src) && Plain(s[src..src + len])
    ensures Moves(s, src, live, src + len, live + [s[src..src + len]])
  {
  }

  /** The branch for an ordinary component. */
  method PushOnStack(path: array<char>, offs: array<nat>, ghost s: Path, src: nat, dst: nat, depth: nat, ghost live: seq<Path>, len: nat)
    returns (dst': nat, depth': nat, ghost open: bool)
    requires offs.Length == MAX_DEPTH && LoopInv(path[..], offs[..], s, src, dst, depth, live, false)
    requires src < |s| && s[src] != '/' && len == CompLen(s, src) && Plain(s[src..src + len])
    modifies path, offs
    ensures LoopInv(path[..], offs[..], s, src + len, dst', depth', live + [s[src..src + len]], open)
    ensures Moves(s, src, live, src + len, live + [s[src..src + len]])
  {
    ghost var buf, was := path[..], offs[..];
    depth' := depth;
    if depth < MAX_DEPTH {
      offs[depth] := dst;
      depth' := depth + 1;
    }
    OrdinaryMoves(s, src, live, len);
    dst', open := Push(path, s, src, dst, len, live);
    PushTurn(buf, path[..], was, s, src, dst, depth, live, len, s[src..src + len], dst', open);
  }

  /** The strip of a trailing slash and the final NUL. */
  lemma Finished(buf: seq<char>, buf': seq<char>, dst: nat, live: seq<Path>, open: bool, end: nat)
    requires Written(buf, dst, live, open) && 0 < dst && end == if dst != 1 && buf[dst - 1] == '/' then dst - 1 else dst
    requires end < |buf| && buf' == buf[end := NUL]
    ensures CString(buf') == Render(live)
  {
    NoNulInside(live);
    var t := Text(live, open);
    assert buf[dst - 1] == buf[..dst][dst - 1] == t[dst - 1];
    assert t[..end] == Render(live) by { TextEnd(live, open, end); }
    assert buf'[..end] == buf[..dst][..end];
    CStringIs(buf', end);
  }

  lemma TextEnd(live: seq<Path>, open: bool, end: nat)
    requires AllPlain(live) && (open ==> live != [])
    requires var t := Text(live, open); end == if |t| != 1 && t[|t| - 1] == '/' then |t| - 1 else |t|
    ensures Text(live, open)[..end] == Render(live)
  {
    if live != [] { LastSlash(live); }
  }

  lemma LastSlashOf(live: seq<Path>)
    requires live != []
    ensures Slashed(live) != [] && Slashed(live)[|Slashed(live)| - 1] == '/'
    ensures Render(live)[1..] + ['/'] == Slashed(live)
  {
  }

  /** The last slash follows a character that is not a slash. */
  lemma LastSlash(live: seq<Path>)
    requires live != [] && AllPlain(live)
    ensures |Slashed(live)| >= 2 && Slashed(live)[|Slashed(live)| - 1] == '/' && Slashed(live)[|Slashed(live)| - 2] != '/'
  {
    var c := live[|live| - 1];
    assert c[|c| - 1] != '/';
  }

  lemma {:induction false} NoNulInside(live: seq<Path>)
    requires AllPlain(live)
    ensures NoNul(Slashed(live))
  {
    if live != [] { NoNulInside(live[..|live| - 1]); }
  }

  /** normalize_path */
  method Normalize(path: array<char>)
    requires NUL in path[..]
    modifies path
    ensures var s := CString(old(path[..]));
            if s == [] || s[0] != '/' then path[..] == old(path[..])
            else CString(path[..]) == Render(Resolve([], Comps(s, 1), MAX_DEPTH))
  {
    ghost var s := CString(path[..]);
    CStringEnds(path[..]);
    if path[0] != '/' { return; }
    var dst: nat, src: nat, depth: nat := 1, 1, 0;
    var offs := new nat[MAX_DEPTH];
    ghost var live: seq<Path>, open, goal := [], false, Resolve([], Comps(s, 1), MAX_DEPTH);
    assert path[1..|s|] == path[..|s|][1..] == s[1..];
    assert path[..][..1] == ['/'];
    while path[src] != NUL
      invariant LoopInv(path[..], offs[..], s, src, dst, depth, live, open) && Rest(s, src, live) == goal
      decreases |s| - src
    {
      NextChar(path[..], s, src, dst);
      ghost var src0, live0 := src, live;
      src, dst, depth, live, open := Turn(path, offs, s, src, dst, depth, live);
      MovesKeepRest(s, src0, live0, src, live);
    }
    NextChar(path[..], s, src, dst);
    ghost var buf, last := path[..], dst;
    if dst != 1 && path[dst - 1] == '/' { dst := dst - 1; }
    path[dst] := NUL;
    Finished(buf, path[..], last, live, open, dst);
  }

  ghost predicate NoNul(s: Path)
  {
    forall k: nat | k < |s| :: s[k] != NUL
  }

  lemma {:induction false} CStringEnds(s: seq<char>)
    requires NUL in s
    ensures |CString(s)| < |s| && s[|CString(s)|] == NUL && s[..|CString(s)|] == CString(s) && NoNul(CString(s))
  {
    if s[0] != NUL {
      assert s == [s[0]] + s[1..];
      CStringEnds(s[1..]);
    }
  }

  /** The length of the component at `src`. */
  method Scan(path: array<char>, ghost s: Path, src: nat) returns (len: nat)
    requires |s| < path.Length && path[|s|] == NUL && NoNul(s) && src < |s| && path[src..|s|] == s[src..]
    ensures len == CompLen(s, src)
  {
    len := 0;
    assert forall k: nat | src <= k < |s| :: path[k] == path[src..|s|][k - src] == s[k];
    while path[src + len] != NUL && path[src + len] != '/'
      invariant src + len <= |s| && CompLen(s, src) == len + CompLen(s, src + len)
      decreases |s| - len
    {
      len := len + 1;
    }
  }

  // ---------------------------------------------------------------- against unlimited resolution

  /** No ".." meets more than 128 live components. */
  ghost predicate NeverDeep(live: seq<Path>, cs: seq<Path>)
    decreases |cs|
  {
    cs == [] || ((cs[0] == ".." ==> |live| <= MAX_DEPTH) && NeverDeep(TrueStep(live, cs[0]), cs[1..]))
  }

  /** From this point or a later one, where the unlimited stack is empty, no ".." meets more than
      128 live components. */
  ghost predicate RootThenShallow(live: seq<Path>, cs: seq<Path>)
    decreases |cs|
  {
    || (live == [] && NeverDeep(live, cs))
    || (cs != [] && RootThenShallow(TrueStep(live, cs[0]), cs[1..]))
  }

  /** One component moves the bounded stack to where the unbounded one is, or leaves it shorter. */
  lemma StepShorter(capped: seq<Path>, live: seq<Path>, c: Path)
    requires capped == live || |capped| < |live|
    ensures var capped', live' := Step(capped, c, MAX_DEPTH), TrueStep(live, c);
            && (capped' == live' || |capped'| < |live'|)
            && (capped == live ==> (capped' == live' <==> !(c == ".." && |live| > MAX_DEPTH)))
            && (capped != live ==> (capped' == live' <==> live' == []))
            && (capped == live && c == ".." && |live| > MAX_DEPTH ==> live' != [])
  {
  }

  /** Stacks that agree, or the bounded one shorter: they agree in the end exactly when no ".." is
      too deep from here on, or from a later visit to the root on. */
  lemma {:induction false} StacksAgreeIff(capped: seq<Path>, live: seq<Path>, cs: seq<Path>)
    requires capped == live || |capped| < |live|
    ensures Resolve(capped, cs, MAX_DEPTH) == TrueResolve(live, cs) <==>
            || (capped == live && NeverDeep(live, cs))
            || (cs != [] && RootThenShallow(TrueStep(live, cs[0]), cs[1..]))
    decreases |cs|
  {
    if cs != [] {
      StepShorter(capped, live, cs[0]);
      StacksAgreeIff(Step(capped, cs[0], MAX_DEPTH), TrueStep(live, cs[0]), cs[1..]);
    }
  }

  /** A path is resolved as by an unlimited stack if and only if, from some point on where it is at
      the root, no ".." meets more than 128 live components. */
  lemma ResolvesTrulyIff(cs: seq<Path>)
    ensures Resolve([], cs, MAX_DEPTH) == TrueResolve([], cs) <==> RootThenShallow([], cs)
  {
    StacksAgreeIff([], [], cs);
  }

  lemma {:induction false} ResolveConcat(live: seq<Path>, cs: seq<Path>, more: seq<Path>)
    ensures Resolve(live, cs + more, MAX_DEPTH) == Resolve(Resolve(live, cs, MAX_DEPTH), more, MAX_DEPTH)
    ensures TrueResolve(live, cs + more) == TrueResolve(TrueResolve(live, cs), more)
    decreases |cs|
  {
    if cs == [] {
      assert cs + more == more;
    } else {
      assert (cs + more)[0] == cs[0] && (cs + more)[1..] == cs[1..] + more;
      ResolveConcat(Step(live, cs[0], MAX_DEPTH), cs[1..], more);
      ResolveConcat(TrueStep(live, cs[0]), cs[1..], more);
    }
  }

  /** A ".." behind more than 128 components leaves 127 of them instead of all but one. */
  lemma DeepPathLoses(live: seq<Path>)
    requires |live| > MAX_DEPTH && AllPlain(live)
    ensures Resolve([], live + [".."], MAX_DEPTH) == live[..127] && TrueResolve([], live + [".."]) == live[..|live| - 1]
  {
    var up: seq<Path> := [".."];
    ResolveConcat([], live, up);
    PlainStays([], live);
    PlainStaysTrue([], live);
    assert [] + live == live;
    assert up[1..] == [] && up[0] == "..";
    assert Resolve(live, up, MAX_DEPTH) == Resolve(live[..127], up[1..], MAX_DEPTH);
    assert TrueResolve(live, up) == TrueResolve(live[..|live| - 1], up[1..]);
  }

  /** Normalising a path of more than 128 components and "..", for example 129 times "a". */
  method DeepPathLosesComponents(path: array<char>, ghost live: seq<Path>)
    requires NUL in path[..] && |live| > MAX_DEPTH && AllPlain(live) && CString(path[..]) == Render(live + [".."])
    modifies path
    ensures CString(path[..]) == Render(live[..127]) && TrueResolve([], live + [".."]) == live[..|live| - 1]
  {
    ghost var s := CString(path[..]);
    assert s[1..] + ['/'] == Slashed(live + [".."]) by { LastSlashOf(live + [".."]); }
    CompsOfRendered(s, 1, live + [".."]);
    DeepPathLoses(live);
    Normalize(path);
  }

  // ---------------------------------------------------------------- a second application

  lemma {:induction false} ResolvedIsPlain(s: Path, i: nat, live: seq<Path>)
    requires NoNul(s) && i <= |s| && AllPlain(live)
    ensures AllPlain(Rest(s, i, live))
    decreases |s| - i
  {
    if i < |s| {
      if s[i] == '/' {
        ResolvedIsPlain(s, i + 1, live);
      } else {
        var len := CompLen(s, i);
        var c := s[i..i + len];
        RestStep(s, i, live, len);
        if c != "." && c != ".." { PlainComponent(s, i, len); }
        var next := Step(live, c, MAX_DEPTH);
        assert AllPlain(next);
        ResolvedIsPlain(s, i + len, next);
      }
    }
  }

  lemma {:induction false} PlainStays(live: seq<Path>, cs: seq<Path>)
    requires AllPlain(cs)
    ensures Resolve(live, cs, MAX_DEPTH) == live + cs
    decreases |cs|
  {
    if cs != [] {
      PlainStays(live + [cs[0]], cs[1..]);
      assert live + [cs[0]] + cs[1..] == live + cs;
    }
  }

  lemma {:induction false} PlainStaysTrue(live: seq<Path>, cs: seq<Path>)
    requires AllPlain(cs)
    ensures TrueResolve(live, cs) == live + cs
    decreases |cs|
  {
    if cs != [] {
      PlainStaysTrue(live + [cs[0]], cs[1..]);
      assert live + [cs[0]] + cs[1..] == live + cs;
    }
  }

  lemma {:induction false} SlashedFront(live: seq<Path>)
    requires live != []
    ensures Slashed(live) == live[0] + ['/'] + Slashed(live[1..])
    decreases |live|
  {
    var n := |live| - 1;
    if n > 0 {
      SlashedFront(live[..n]);
      assert live[..n][1..] == live[1..][..n - 1];
    }
  }

  /** The components of a rendered path are the ones it was rendered from. */
  lemma {:induction false} CompsOfRendered(s: Path, i: nat, live: seq<Path>)
    requires live != [] && (forall k: nat | k < |live| :: Solid(live[k])) && i <= |s| && s[i..] + ['/'] == Slashed(live)
    ensures Comps(s, i) == live
    decreases |live|
  {
    var c, rest := live[0], live[1..];
    SlashedFront(live);
    FirstOfRendered(s[i..] + ['/'], c, Slashed(rest));
    FirstComponent(s, i, c);
    assert [c] + rest == live;
    if rest == [] {
      assert i + |c| == |s|;
    } else {
      TailOfRendered(s, i, |c|);
      CompsOfRendered(s, i + |c| + 1, rest);
      assert s[i + |c|] == '/';
    }
  }

  lemma TailOfRendered(s: Path, i: nat, n: nat)
    requires i + n < |s|
    ensures s[i + n + 1..] + ['/'] == (s[i..] + ['/'])[n + 1..]
  {
  }

  lemma FirstOfRendered(t: Path, c: Path, rest: Path)
    requires t == c + ['/'] + rest && Solid(c)
    ensures |c| < |t| && t[|c|] == '/' && (forall k: nat | k < |c| :: t[k] == c[k] && c[k] != '/') && t[|c| + 1..] == rest
  {
  }

  lemma FirstComponent(s: Path, i: nat, c: Path)
    requires c != [] && i + |c| <= |s| && (forall k: nat | k < |c| :: (s[i..] + ['/'])[k] == c[k] && c[k] != '/')
    requires (s[i..] + ['/'])[|c|] == '/'
    ensures CompLen(s, i) == |c| && s[i] != '/' && s[i..i + |c|] == c
  {
    assert s[i..i + |c|] == c;
    assert forall k: nat | i <= k < i + |c| :: s[k] == c[k - i];
    assert i + |c| < |s| ==> s[i + |c|] == '/';
  }

  /** Normalising a normalised path changes nothing. */
  lemma NormalizeTwice(s: Path)
    requires s != [] && s[0] == '/' && NoNul(s)
    ensures var r := Render(Resolve([], Comps(s, 1), MAX_DEPTH));
            r != [] && r[0] == '/' && NoNul(r) && Render(Resolve([], Comps(r, 1), MAX_DEPTH)) == r
  {
    var live := Rest(s, 1, []);
    var r := Render(live);
    ResolvedIsPlain(s, 1, []);
    NoNulInside(live);
    if live == [] {
      assert Comps(r, 1) == [];
    } else {
      LastSlash(live);
      assert r[1..] + ['/'] == Slashed(live);
      CompsOfRendered(r, 1, live);
      PlainStays([], live);
      assert [] + live == live;
    }
  }
}
