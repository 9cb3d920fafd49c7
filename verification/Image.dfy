/** The names in an image: the listings of its directories, and how many names an inode has.

    A directory is read as one listing, block after block.  What an inode is called is counted over
    all directory blocks of the image, since a name may be in any directory.

    Both are defined from the end of their sequence, so that what a change in one place does to
    them can be said for the part before it and the part after it.
 */
module Images {
  import opened Dirents
  import opened DirBlocks
  import opened Disks

  // ---------------------------------------------------------------- the entries of a directory

  ghost function EntriesIn(dirs: Dirs, n: int): seq<Dirent> {
    if n in dirs then dirs[n] else []
  }

  /** The entries in the given blocks, one block after the other. */
  ghost function Listing(s: seq<int>, dirs: Dirs): seq<Dirent> {
    if s == [] then [] else Listing(s[..|s| - 1], dirs) + EntriesIn(dirs, s[|s| - 1])
  }

  lemma {:induction false} ListingSame(s: seq<int>, dirs: Dirs, dirs': Dirs)
    requires forall i :: 0 <= i < |s| ==> EntriesIn(dirs', s[i]) == EntriesIn(dirs, s[i])
    ensures Listing(s, dirs') == Listing(s, dirs)
  {
    if s != [] {
      ListingSame(s[..|s| - 1], dirs, dirs');
    }
  }

  lemma Reassociate(a: seq<Dirent>, b: seq<Dirent>, c: seq<Dirent>)
    ensures (a + b) + c == a + (b + c)
  {
  }

  lemma {:induction false} ListingConcat(s: seq<int>, t: seq<int>, dirs: Dirs)
    ensures Listing(s + t, dirs) == Listing(s, dirs) + Listing(t, dirs)
  {
    if t == [] {
      assert s + t == s;
    } else {
      var init := t[..|t| - 1];
      ListingConcat(s, init, dirs);
      assert (s + t)[..|s + t| - 1] == s + init;
      Reassociate(Listing(s, dirs), Listing(init, dirs), EntriesIn(dirs, t[|t| - 1]));
    }
  }

  /** The listing around slot j. */
  lemma {:induction false} ListingSplit(s: seq<int>, j: nat, dirs: Dirs)
    requires j < |s|
    ensures Listing(s, dirs) == Listing(s[..j], dirs) + EntriesIn(dirs, s[j]) + Listing(s[j + 1..], dirs)
  {
    assert s == s[..j + 1] + s[j + 1..];
    ListingConcat(s[..j + 1], s[j + 1..], dirs);
    assert s[..j + 1][..j] == s[..j];
  }

  /** Changing what one slot holds, or the block it holds, changes the listing there only. */
  lemma {:induction false} ListingChanged(s: seq<int>, s': seq<int>, j: nat, dirs: Dirs, dirs': Dirs)
    requires j < |s| == |s'| && s'[..j] == s[..j] && s'[j + 1..] == s[j + 1..]
    requires forall i :: 0 <= i < |s| && i != j ==> EntriesIn(dirs', s[i]) == EntriesIn(dirs, s[i])
    ensures Listing(s', dirs') == Listing(s[..j], dirs) + EntriesIn(dirs', s'[j]) + Listing(s[j + 1..], dirs)
  {
    ListingSplit(s', j, dirs');
    ListingSame(s[..j], dirs, dirs');
    ListingSame(s[j + 1..], dirs, dirs');
  }

  /** Empty slots at the end list nothing. */
  lemma {:induction false} EmptyTail(s: seq<int>, dirs: Dirs, k: nat)
    requires k <= |s| && 0 !in dirs && forall i :: k <= i < |s| ==> s[i] == 0
    ensures Listing(s, dirs) == Listing(s[..k], dirs)
  {
    if k < |s| {
      EmptyTail(s[..|s| - 1], dirs, k);
      assert s[..|s| - 1][..k] == s[..k];
    } else {
      assert s[..k] == s;
    }
  }

  // ---------------------------------------------------------------- counting names

  /** How many entries with a name stand for inode a. */
  ghost function NamesFor(es: seq<Dirent>, a: int): nat {
    if es == [] then 0 else NamesFor(es[..|es| - 1], a) + CountsFor(es[|es| - 1], a)
  }

  function CountsFor(e: Dirent, a: int): nat {
    if e.name != [] && e.inode == a then 1 else 0
  }

  lemma {:induction false} NamesConcat(es: seq<Dirent>, fs: seq<Dirent>, a: int)
    ensures NamesFor(es + fs, a) == NamesFor(es, a) + NamesFor(fs, a)
  {
    if fs == [] {
      assert es + fs == es;
    } else {
      NamesConcat(es, fs[..|fs| - 1], a);
      assert (es + fs)[..|es + fs| - 1] == es + fs[..|fs| - 1];
    }
  }

  lemma NamesOne(e: Dirent, a: int)
    ensures NamesFor([e], a) == CountsFor(e, a)
  {
    assert [e][..0] == [];
  }

  lemma NamesTwo(e: Dirent, f: Dirent, a: int)
    ensures NamesFor([e, f], a) == CountsFor(e, a) + CountsFor(f, a)
  {
    assert [e, f] == [e] + [f];
    NamesConcat([e], [f], a);
    NamesOne(e, a);
    NamesOne(f, a);
  }

  lemma {:induction false} NamesSplit(es: seq<Dirent>, k: nat, a: int)
    requires k < |es|
    ensures NamesFor(es, a) == NamesFor(es[..k], a) + CountsFor(es[k], a) + NamesFor(es[k + 1..], a)
  {
    assert es == es[..k] + [es[k]] + es[k + 1..];
    NamesConcat(es[..k] + [es[k]], es[k + 1..], a);
    NamesConcat(es[..k], [es[k]], a);
    NamesOne(es[k], a);
  }

  lemma {:induction false} NamesInserted(es: seq<Dirent>, k: nat, inode: int, name: Name, fileType: Byte, a: int)
    requires k < |es| && es[k].recLen >= MinRecLen(es[k])
    ensures NamesFor(Inserted(es, k, inode, name, fileType), a) ==
            NamesFor(es, a) + if name != [] && inode == a then 1 else 0
  {
    var cut, e := es[k].(recLen := MinRecLen(es[k])), Added(es[k], inode, name, fileType);
    NamesSplit(es, k, a);
    NamesConcat(es[..k] + [cut, e], es[k + 1..], a);
    NamesConcat(es[..k], [cut, e], a);
    NamesTwo(cut, e, a);
  }

  lemma {:induction false} NamesDeleted(es: seq<Dirent>, k: nat, a: int)
    requires k < |es|
    ensures NamesFor(Deleted(es, k), a) == NamesFor(es, a) - CountsFor(es[k], a)
  {
    NamesSplit(es, k, a);
    if k == 0 {
      assert es[..0] == [];
      NamesConcat([es[0].(name := [])], es[1..], a);
      NamesOne(es[0].(name := []), a);
    } else {
      var e := es[k - 1].(recLen := es[k - 1].recLen + es[k].recLen);
      NamesLast(es, k, a);
      NamesConcat(es[..k - 1] + [e], es[k + 1..], a);
      NamesConcat(es[..k - 1], [e], a);
      NamesOne(e, a);
    }
  }

  lemma {:induction false} NamesLast(es: seq<Dirent>, k: nat, a: int)
    requires 0 < k <= |es|
    ensures NamesFor(es[..k], a) == NamesFor(es[..k - 1], a) + CountsFor(es[k - 1], a)
  {
    assert es[..k][..k - 1] == es[..k - 1];
  }

  lemma {:induction false} NoNames(es: seq<Dirent>, a: int)
    requires IsEmpty(es)
    ensures NamesFor(es, a) == 0
  {
    if es != [] {
      NoNames(es[..|es| - 1], a);
    }
  }

  /** How many names inode a has in all directories, whose blocks are numbered 1 to last. */
  ghost function NameCount(dirs: Dirs, a: int, last: nat): nat {
    if last == 0 then 0 else NameCount(dirs, a, last - 1) + NamesFor(EntriesIn(dirs, last), a)
  }

  lemma {:induction false} NameCountChanged(dirs: Dirs, dirs': Dirs, a: int, last: nat, n: int)
    requires forall m :: m != n ==> EntriesIn(dirs', m) == EntriesIn(dirs, m)
    ensures NameCount(dirs', a, last) ==
            NameCount(dirs, a, last) +
            if 1 <= n <= last then NamesFor(EntriesIn(dirs', n), a) - NamesFor(EntriesIn(dirs, n), a) else 0
  {
    if last > 0 {
      NameCountChanged(dirs, dirs', a, last - 1, n);
    }
  }
}
