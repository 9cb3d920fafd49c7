/** What a directory means: a map from names to inodes. */
module DirMaps {
  import opened Dirents
  import opened DirBlocks

  datatype Target = Target(inode: int, fileType: Byte)

  function TargetOf(e: Dirent): Target {
    Target(e.inode, e.fileType)
  }

  type Bindings = map<Name, Target>

  /** An entry counts if it has a name that is not there yet. */
  ghost function Bound(m: Bindings, e: Dirent): Bindings {
    if e.name == [] || e.name in m then m else m[e.name := TargetOf(e)]
  }

  ghost predicate Fresh(m: Bindings, e: Dirent) {
    e.name == [] || e.name !in m
  }

  lemma BoundCommutes(m: Bindings, e: Dirent, f: Dirent)
    requires Fresh(m, f) && Fresh(Bound(m, f), e)
    ensures Fresh(m, e) && Fresh(Bound(m, e), f) && Bound(Bound(m, e), f) == Bound(Bound(m, f), e)
  {
  }

  lemma UnboundCommutes(m: Bindings, n: Name, f: Dirent)
    requires Fresh(m, f) && [] !in m && (n == [] || n in m)
    ensures Fresh(m - {n}, f) && Bound(m - {n}, f) == Bound(m, f) - {n}
  {
  }

  /** The directory as a map: each name stands for its first entry; entries without a name do not count. */
  ghost function View(es: seq<Dirent>): Bindings {
    if es == [] then map[] else Bound(View(es[..|es| - 1]), es[|es| - 1])
  }

  /** No name occurs twice. */
  ghost predicate DistinctNames(es: seq<Dirent>) {
    es == [] || (DistinctNames(es[..|es| - 1]) && Fresh(View(es[..|es| - 1]), es[|es| - 1]))
  }

  lemma ViewLast(es: seq<Dirent>, init: seq<Dirent>, e: Dirent)
    requires es == init + [e]
    ensures View(es) == Bound(View(init), e) && (DistinctNames(es) <==> DistinctNames(init) && Fresh(View(init), e))
  {
    assert es[..|es| - 1] == init;
  }

  lemma {:induction false} NoEmptyName(es: seq<Dirent>)
    ensures [] !in View(es)
  {
    if es != [] {
      NoEmptyName(es[..|es| - 1]);
    }
  }

  lemma FirstNamedLast(es: seq<Dirent>, init: seq<Dirent>, e: Dirent, name: Name)
    requires es == init + [e]
    ensures var f := FirstNamed(init, name);
            && FirstNamed(es, name) == (if f < |init| || e.name == name then f else |es|)
            && (f < |init| ==> es[f] == init[f]) && es[|init|] == e
  {
    var f := FirstNamed(init, name);
    FirstNamedIs(es, name, if f < |init| || e.name == name then f else |es|);
  }

  /** Looking a name up finds an entry exactly when the map has the name, and finds what the map says. */
  lemma {:induction false} LookupView(es: seq<Dirent>, name: Name)
    requires name != []
    ensures name in View(es) <==> FirstNamed(es, name) < |es|
    ensures name in View(es) ==> View(es)[name] == TargetOf(es[FirstNamed(es, name)])
  {
    if es != [] {
      var init, e := es[..|es| - 1], es[|es| - 1];
      LookupView(init, name);
      FirstNamedLast(es, init, e, name);
      ViewLast(es, init, e);
    }
  }

  lemma {:induction false} EntryInView(es: seq<Dirent>, k: nat)
    requires k < |es| && es[k].name != []
    ensures es[k].name in View(es)
  {
    if k < |es| - 1 {
      EntryInView(es[..|es| - 1], k);
    }
  }

  // ---------------------------------------------------------------- entries that come and go

  function With(es: seq<Dirent>, p: nat, e: Dirent): seq<Dirent>
    requires p <= |es|
  {
    es[..p] + [e] + es[p..]
  }

  function Without(es: seq<Dirent>, k: nat): seq<Dirent>
    requires k < |es|
  {
    es[..k] + es[k + 1..]
  }

  lemma WithInit(es: seq<Dirent>, p: nat, e: Dirent)
    requires p < |es|
    ensures With(es, p, e) == With(es[..|es| - 1], p, e) + [es[|es| - 1]]
  {
    assert es[p..] == es[..|es| - 1][p..] + [es[|es| - 1]];
  }

  /** An entry with a fresh name adds its binding and no other; one without a name adds nothing. */
  lemma {:induction false} WithView(es: seq<Dirent>, p: nat, e: Dirent)
    requires DistinctNames(es) && p <= |es| && Fresh(View(es), e)
    ensures DistinctNames(With(es, p, e)) && View(With(es, p, e)) == Bound(View(es), e)
    decreases |es| - p
  {
    if p == |es| {
      assert With(es, p, e) == es + [e];
      ViewLast(With(es, p, e), es, e);
    } else {
      var init, last := es[..|es| - 1], es[|es| - 1];
      BoundCommutes(View(init), e, last);
      WithView(init, p, e);
      WithInit(es, p, e);
      ViewLast(With(es, p, e), With(init, p, e), last);
    }
  }

  lemma WithoutInit(es: seq<Dirent>, k: nat, init: seq<Dirent>, last: Dirent)
    requires es == init + [last] && k <= |init|
    ensures Without(es, k) == if k == |init| then init else Without(init, k) + [last]
  {
  }

  /** Leaving out an entry removes its binding, if it has a name, and no other. */
  lemma {:induction false} WithoutView(es: seq<Dirent>, k: nat)
    requires DistinctNames(es) && k < |es|
    ensures DistinctNames(Without(es, k)) && View(Without(es, k)) == View(es) - {es[k].name}
    decreases |es| - k
  {
    var init, last := es[..|es| - 1], es[|es| - 1];
    NoEmptyName(init);
    WithoutInit(es, k, init, last);
    ViewLast(es, init, last);
    if k < |init| {
      WithoutView(init, k);
      if es[k].name != [] {
        EntryInView(init, k);
      }
      UnboundCommutes(View(init), es[k].name, last);
      ViewLast(Without(es, k), Without(init, k), last);
    }
  }

  ghost predicate SameName(e: Dirent, f: Dirent) {
    e.name == f.name && TargetOf(e) == TargetOf(f)
  }

  ghost predicate SameNames(es: seq<Dirent>, es': seq<Dirent>) {
    |es| == |es'| && forall i {:trigger es[i]} {:trigger es'[i]} :: 0 <= i < |es| ==> SameName(es[i], es'[i])
  }

  /** The lengths of the records do not matter. */
  lemma {:induction false} SameNamesView(es: seq<Dirent>, es': seq<Dirent>)
    requires SameNames(es, es') && DistinctNames(es)
    ensures DistinctNames(es') && View(es') == View(es)
  {
    if es != [] {
      SameNamesView(es[..|es| - 1], es'[..|es| - 1]);
      assert SameName(es[|es| - 1], es'[|es| - 1]);
    }
  }

  lemma WithWithin(pre: seq<Dirent>, es: seq<Dirent>, post: seq<Dirent>, p: nat, e: Dirent)
    requires p <= |es|
    ensures With(pre + es + post, |pre| + p, e) == pre + With(es, p, e) + post
  {
  }

  lemma WithoutWithin(pre: seq<Dirent>, es: seq<Dirent>, post: seq<Dirent>, k: nat)
    requires k < |es|
    ensures (pre + es + post)[|pre| + k] == es[k] && Without(pre + es + post, |pre| + k) == pre + Without(es, k) + post
  {
  }

  /** Entries without a name can be left out. */
  lemma {:induction false} UnnamedDropped(pre: seq<Dirent>, mid: seq<Dirent>, post: seq<Dirent>)
    requires DistinctNames(pre + mid + post) && IsEmpty(mid)
    ensures DistinctNames(pre + post) && View(pre + post) == View(pre + mid + post)
    decreases |mid|
  {
    var all := pre + mid + post;
    if mid == [] {
      assert all == pre + post;
    } else {
      WithoutWithin(pre, mid, post, 0);
      assert Without(mid, 0) == mid[1..];
      WithoutView(all, |pre|);
      NoEmptyName(all);
      UnnamedDropped(pre, mid[1..], post);
    }
  }

  // ---------------------------------------------------------------- one block of a directory

  /** Inserting a fresh name into one block adds that binding to the directory, and no other. */
  lemma {:induction false} InsertedView(pre: seq<Dirent>, es: seq<Dirent>, post: seq<Dirent>, k: nat, inode: int,
                                        name: Name, fileType: Byte)
    requires DistinctNames(pre + es + post) && k < |es| && es[k].recLen >= MinRecLen(es[k])
    requires name != [] && name !in View(pre + es + post)
    ensures var all' := pre + Inserted(es, k, inode, name, fileType) + post;
            DistinctNames(all') && View(all') == View(pre + es + post)[name := Target(inode, fileType)]
  {
    var all, e := pre + es + post, Added(es[k], inode, name, fileType);
    var es' := Inserted(es, k, inode, name, fileType);
    WithView(all, |pre| + (k + 1), e);
    WithWithin(pre, es, post, k + 1, e);
    InsertedNames(pre, es, post, k, inode, name, fileType);
    SameNamesView(pre + With(es, k + 1, e) + post, pre + es' + post);
  }

  lemma InsertedNames(pre: seq<Dirent>, es: seq<Dirent>, post: seq<Dirent>, k: nat, inode: int, name: Name,
                      fileType: Byte)
    requires k < |es| && es[k].recLen >= MinRecLen(es[k])
    ensures SameNames(pre + With(es, k + 1, Added(es[k], inode, name, fileType)) + post,
                      pre + Inserted(es, k, inode, name, fileType) + post)
  {
    var a, b := With(es, k + 1, Added(es[k], inode, name, fileType)), Inserted(es, k, inode, name, fileType);
    assert |a| == |b| && forall i :: 0 <= i < |a| ==> SameName(a[i], b[i]);
  }

  /** Deleting the first entry of a name from one block removes its binding from the directory, and no other. */
  lemma {:induction false} DeletedView(pre: seq<Dirent>, es: seq<Dirent>, post: seq<Dirent>, name: Name)
    requires DistinctNames(pre + es + post) && name != [] && FirstNamed(es, name) < |es|
    ensures var all' := pre + Deleted(es, FirstNamed(es, name)) + post;
            DistinctNames(all') && View(all') == View(pre + es + post) - {name}
  {
    var k, all := FirstNamed(es, name), pre + es + post;
    WithoutWithin(pre, es, post, k);
    WithoutView(all, |pre| + k);
    if k == 0 {
      UnnamedAgain(pre, es, post);
    } else {
      DeletedNames(pre, es, post, k);
      SameNamesView(pre + Without(es, k) + post, pre + Deleted(es, k) + post);
    }
  }

  lemma {:induction false} UnnamedAgain(pre: seq<Dirent>, es: seq<Dirent>, post: seq<Dirent>)
    requires es != [] && DistinctNames(pre + Without(es, 0) + post)
    ensures DistinctNames(pre + Deleted(es, 0) + post)
            && View(pre + Deleted(es, 0) + post) == View(pre + Without(es, 0) + post)
  {
    var rest, e := pre + Without(es, 0) + post, es[0].(name := []);
    WithView(rest, |pre| + 0, e);
    WithWithin(pre, Without(es, 0), post, 0, e);
    assert With(Without(es, 0), 0, e) == Deleted(es, 0);
  }

  lemma DeletedNames(pre: seq<Dirent>, es: seq<Dirent>, post: seq<Dirent>, k: nat)
    requires 0 < k < |es|
    ensures SameNames(pre + Without(es, k) + post, pre + Deleted(es, k) + post)
  {
    var a, b := Without(es, k), Deleted(es, k);
    assert |a| == |b| && forall i :: 0 <= i < |a| ==> SameName(a[i], b[i]);
  }
}
