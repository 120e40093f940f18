/** Lists of directory entries, and what adding and removing one does to lookups by name. */
module Ext2Entries {
  import opened Ext2Tree

  /** Name, inode number and file type. */
  datatype Entry = Entry(name: seq<Byte>, ino: nat, kind: Byte)

  /** The inode of the first entry with the name, 0 when there is none. */
  ghost function Find(es: seq<Entry>, name: seq<Byte>): nat
  {
    if es == [] then 0 else if es[0].name == name then es[0].ino else Find(es[1..], name)
  }

  ghost predicate Inserted(es: seq<Entry>, es': seq<Entry>, e: Entry)
  {
    exists k: nat :: k <= |es| && es' == es[..k] + [e] + es[k..]
  }

  /** `es'` is `es` without its first entry of that name. */
  ghost predicate Removed(es: seq<Entry>, es': seq<Entry>, name: seq<Byte>)
  {
    exists k: nat :: k < |es| && es[k].name == name && (forall i: nat | i < k :: es[i].name != name)
                     && es' == es[..k] + es[k + 1..]
  }

  /** Live entries: no zero inode, no name twice. */
  ghost predicate Names(es: seq<Entry>)
  {
    && (forall i: nat | i < |es| :: es[i].ino != 0)
    && (forall i: nat, j: nat | i < j < |es| :: es[i].name != es[j].name)
  }

  lemma {:induction false} FindConcat(a: seq<Entry>, b: seq<Entry>, name: seq<Byte>)
    requires forall i: nat | i < |a| :: a[i].ino != 0
    ensures Find(a + b, name) == if Find(a, name) != 0 then Find(a, name) else Find(b, name)
  {
    if a == [] {
      assert a + b == b;
    } else {
      assert (a + b)[1..] == a[1..] + b;
      FindConcat(a[1..], b, name);
    }
  }

  lemma {:induction false} FindNone(es: seq<Entry>, name: seq<Byte>)
    requires forall i: nat | i < |es| :: es[i].ino != 0
    ensures Find(es, name) == 0 <==> forall i: nat | i < |es| :: es[i].name != name
  {
    if es != [] {
      FindNone(es[1..], name);
      assert forall i: nat | 0 < i < |es| :: es[i] == es[1..][i - 1];
    }
  }

  lemma FindAround(pre: seq<Entry>, e: Entry, post: seq<Entry>, name: seq<Byte>)
    requires Names(pre + [e] + post)
    ensures Find(pre + [e] + post, name) == if name == e.name then e.ino else Find(pre + post, name)
    ensures Find(pre + post, e.name) == 0 && Names(pre + post)
  {
    var all := pre + [e] + post;
    assert all[|pre|] == e;
    forall i: nat | i < |pre + post|
      ensures (pre + post)[i] == all[if i < |pre| then i else i + 1]
      ensures (pre + post)[i].ino != 0 && (pre + post)[i].name != e.name
    {
    }
    assert all == pre + ([e] + post) && forall i: nat | i < |pre| :: pre[i] == (pre + post)[i];
    FindNone(pre + post, e.name);
    FindNone(pre, e.name);
    FindConcat(pre, [e] + post, name);
    FindConcat(pre, post, name);
    assert ([e] + post)[1..] == post;
  }

  lemma NamesAround(pre: seq<Entry>, e: Entry, post: seq<Entry>)
    requires Names(pre + post) && e.ino != 0 && Find(pre + post, e.name) == 0
    ensures Names(pre + [e] + post)
  {
    var all := pre + [e] + post;
    FindNone(pre + post, e.name);
    var rest := pre + post;
    forall i: nat, j: nat | i < j < |all|
      ensures all[i].name != all[j].name
    {
      assert all[i] == if i < |pre| then rest[i] else if i == |pre| then e else rest[i - 1];
      assert all[j] == if j < |pre| then rest[j] else if j == |pre| then e else rest[j - 1];
    }
    forall i: nat | i < |all|
      ensures all[i].ino != 0
    {
      assert all[i] == if i < |pre| then rest[i] else if i == |pre| then e else rest[i - 1];
    }
  }

  /** Adding an absent name adds that lookup and changes no other. */
  lemma FindInserted(es: seq<Entry>, es': seq<Entry>, e: Entry, name: seq<Byte>)
    requires Names(es) && Inserted(es, es', e) && Find(es, e.name) == 0 && e.ino != 0
    ensures Names(es') && Find(es', name) == if name == e.name then e.ino else Find(es, name)
  {
    var k: nat :| k <= |es| && es' == es[..k] + [e] + es[k..];
    assert es == es[..k] + es[k..];
    NamesAround(es[..k], e, es[k..]);
    FindAround(es[..k], e, es[k..], name);
  }

  /** Removing a name removes that lookup and changes no other. */
  lemma FindRemoved(es: seq<Entry>, es': seq<Entry>, gone: seq<Byte>, name: seq<Byte>)
    requires Names(es) && Removed(es, es', gone)
    ensures Names(es') && Find(es', name) == if name == gone then 0 else Find(es, name)
  {
    var k: nat :| k < |es| && es[k].name == gone && (forall i: nat | i < k :: es[i].name != gone)
                  && es' == es[..k] + es[k + 1..];
    assert es == es[..k] + [es[k]] + es[k + 1..];
    FindAround(es[..k], es[k], es[k + 1..], name);
  }

  lemma Regroup(pre: seq<Entry>, a: seq<Entry>, e: Entry, b: seq<Entry>, post: seq<Entry>)
    ensures pre + (a + b) + post == (pre + a) + (b + post)
    ensures pre + (a + [e] + b) + post == (pre + a) + [e] + (b + post)
  {
  }

  lemma InsertedAt(a: seq<Entry>, e: Entry, b: seq<Entry>)
    ensures Inserted(a + b, a + [e] + b, e)
  {
    assert (a + b)[..|a|] == a && (a + b)[|a|..] == b;
  }

  lemma RemovedAt(a: seq<Entry>, e: Entry, b: seq<Entry>)
    requires forall i: nat | i < |a| :: a[i].name != e.name
    ensures Removed(a + [e] + b, a + b, e.name)
  {
    var all := a + [e] + b;
    assert all[..|a|] == a && all[|a|] == e && all[|a| + 1..] == b;
    assert forall i: nat | i < |a| :: all[i] == a[i];
  }

  lemma InsertedWithin(pre: seq<Entry>, es: seq<Entry>, es': seq<Entry>, post: seq<Entry>, e: Entry)
    requires Inserted(es, es', e)
    ensures Inserted(pre + es + post, pre + es' + post, e)
  {
    var k: nat :| k <= |es| && es' == es[..k] + [e] + es[k..];
    assert es == es[..k] + es[k..];
    Regroup(pre, es[..k], e, es[k..], post);
    InsertedAt(pre + es[..k], e, es[k..] + post);
  }

  lemma RemovedWithin(pre: seq<Entry>, es: seq<Entry>, es': seq<Entry>, post: seq<Entry>, name: seq<Byte>)
    requires Removed(es, es', name) && forall i: nat | i < |pre| :: pre[i].name != name
    ensures Removed(pre + es + post, pre + es' + post, name)
  {
    var k: nat :| k < |es| && es[k].name == name && (forall i: nat | i < k :: es[i].name != name)
                  && es' == es[..k] + es[k + 1..];
    assert es == es[..k] + [es[k]] + es[k + 1..];
    Regroup(pre, es[..k], es[k], es[k + 1..], post);
    assert forall i: nat | i < |pre + es[..k]| :: (pre + es[..k])[i] == if i < |pre| then pre[i] else es[i - |pre|];
    RemovedAt(pre + es[..k], es[k], es[k + 1..] + post);
  }

  ghost predicate Absent(es: seq<Entry>, name: seq<Byte>)
  {
    forall i: nat | i < |es| :: es[i].name != name
  }

  // ---------------------------------------------------------------- several blocks

  function Flat(parts: seq<seq<Entry>>): seq<Entry>
  {
    if parts == [] then [] else Flat(parts[..|parts| - 1]) + parts[|parts| - 1]
  }

  lemma {:induction false} FlatAround(parts: seq<seq<Entry>>, k: nat)
    requires k < |parts|
    ensures Flat(parts) == Flat(parts[..k]) + parts[k] + Flat(parts[k + 1..])
    decreases |parts|
  {
    var n := |parts| - 1;
    if k == n {
      assert parts[k + 1..] == [];
    } else {
      FlatAround(parts[..n], k);
      assert parts[..n][..k] == parts[..k] && parts[..n][k + 1..] == parts[k + 1..][..n - k - 1];
      assert parts[k + 1..][n - k - 1] == parts[n];
    }
  }

  lemma FlatUpdate(parts: seq<seq<Entry>>, k: nat, part: seq<Entry>)
    requires k < |parts|
    ensures Flat(parts) == Flat(parts[..k]) + parts[k] + Flat(parts[k + 1..])
    ensures Flat(parts[k := part]) == Flat(parts[..k]) + part + Flat(parts[k + 1..])
  {
    FlatAround(parts, k);
    FlatAround(parts[k := part], k);
    assert parts[k := part][..k] == parts[..k] && parts[k := part][k + 1..] == parts[k + 1..];
  }

  /** The list gained exactly the lookup of `name`; entries with other names are the same. */
  ghost predicate Gained(es: seq<Entry>, es': seq<Entry>, name: seq<Byte>, ino: nat, kind: Byte)
  {
    && Names(es') && (forall m :: Find(es', m) == if m == name then ino else Find(es, m))
    && forall x :: x in es' <==> (x in es && x.name != name) || (ino != 0 && x == Entry(name, ino, kind))
  }

  lemma MembersInserted(es: seq<Entry>, es': seq<Entry>, e: Entry)
    requires Names(es) && Inserted(es, es', e) && Find(es, e.name) == 0
    ensures forall x :: x in es' <==> (x in es && x.name != e.name) || x == e
  {
    var k: nat :| k <= |es| && es' == es[..k] + [e] + es[k..];
    assert es == es[..k] + es[k..];
    FindNone(es, e.name);
  }

  lemma MembersRemoved(es: seq<Entry>, es': seq<Entry>, name: seq<Byte>)
    requires Names(es) && Removed(es, es', name)
    ensures forall x :: x in es' <==> x in es && x.name != name
  {
    var k: nat :| k < |es| && es[k].name == name && (forall i: nat | i < k :: es[i].name != name)
                  && es' == es[..k] + es[k + 1..];
    var a, e, b := es[..k], es[k], es[k + 1..];
    assert es == a + [e] + b;
    forall i: nat | i < |b|
      ensures b[i].name != name
    {
      assert es[k].name != es[k + 1 + i].name;
    }
    MiddleOut(a, e, b);
  }

  lemma MiddleOut(a: seq<Entry>, e: Entry, b: seq<Entry>)
    requires (forall i: nat | i < |a| :: a[i].name != e.name) && forall i: nat | i < |b| :: b[i].name != e.name
    ensures forall x :: x in a + b <==> x in a + [e] + b && x.name != e.name
  {
  }

  lemma AddedIn(parts: seq<seq<Entry>>, k: nat, part: seq<Entry>, e: Entry)
    requires k < |parts| && Names(Flat(parts)) && Inserted(parts[k], part, e)
    requires e.ino != 0 && Find(Flat(parts), e.name) == 0
    ensures Gained(Flat(parts), Flat(parts[k := part]), e.name, e.ino, e.kind)
  {
    FlatUpdate(parts, k, part);
    InsertedWithin(Flat(parts[..k]), parts[k], part, Flat(parts[k + 1..]), e);
    InsertedGains(Flat(parts), Flat(parts[k := part]), e);
  }

  lemma InsertedGains(es: seq<Entry>, es': seq<Entry>, e: Entry)
    requires Names(es) && Inserted(es, es', e) && e.ino != 0 && Find(es, e.name) == 0
    ensures Gained(es, es', e.name, e.ino, e.kind)
  {
    MembersInserted(es, es', e);
    FindInserted(es, es', e, e.name);
    forall m
      ensures Find(es', m) == if m == e.name then e.ino else Find(es, m)
    {
      FindInserted(es, es', e, m);
    }
  }

  lemma Appended(parts: seq<seq<Entry>>, e: Entry)
    requires Names(Flat(parts)) && e.ino != 0 && Find(Flat(parts), e.name) == 0
    ensures Gained(Flat(parts), Flat(parts + [[e]]), e.name, e.ino, e.kind)
  {
    assert (parts + [[e]])[..|parts|] == parts;
    InsertedAt(Flat(parts), e, []);
    assert Flat(parts) + [] == Flat(parts) && Flat(parts) + [e] + [] == Flat(parts + [[e]]);
    InsertedGains(Flat(parts), Flat(parts + [[e]]), e);
  }

  lemma RemovedIn(parts: seq<seq<Entry>>, k: nat, part: seq<Entry>, name: seq<Byte>)
    requires k < |parts| && Names(Flat(parts)) && Removed(parts[k], part, name) && Absent(Flat(parts[..k]), name)
    ensures Gained(Flat(parts), Flat(parts[k := part]), name, 0, 0)
  {
    FlatUpdate(parts, k, part);
    RemovedWithin(Flat(parts[..k]), parts[k], part, Flat(parts[k + 1..]), name);
    var es, es' := Flat(parts), Flat(parts[k := part]);
    MembersRemoved(es, es', name);
    FindRemoved(es, es', name, name);
    forall m
      ensures Find(es', m) == if m == name then 0 else Find(es, m)
    {
      FindRemoved(es, es', name, m);
    }
  }

  /** The first hit, with misses in all earlier parts and in front of it, is the answer. */
  lemma FirstHit(parts: seq<seq<Entry>>, k: nat, pre: seq<Entry>, e: Entry, post: seq<Entry>)
    requires k < |parts| && Names(Flat(parts)) && parts[k] == pre + ([e] + post)
    ensures Find(Flat(parts), e.name) == e.ino != 0
  {
    FlatAround(parts, k);
    var a, c := Flat(parts[..k]), Flat(parts[k + 1..]);
    HitRegrouped(a, pre, e, post, c, parts[k]);
    HitIn(Flat(parts), a + pre, e, post + c);
  }

  lemma HitRegrouped(a: seq<Entry>, pre: seq<Entry>, e: Entry, post: seq<Entry>, c: seq<Entry>, part: seq<Entry>)
    requires part == pre + ([e] + post)
    ensures a + part + c == (a + pre) + [e] + (post + c)
  {
    assert part == pre + [e] + post;
  }

  lemma HitIn(es: seq<Entry>, pre: seq<Entry>, e: Entry, post: seq<Entry>)
    requires Names(es) && es == pre + [e] + post
    ensures Find(es, e.name) == e.ino != 0
  {
    assert es[|pre|] == e;
    FindAround(pre, e, post, e.name);
  }
}
