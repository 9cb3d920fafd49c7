/** The table of future reference times behind the optimal policy (a2/starter/opt.c). */
module RefTimes {
  import opened Paging
  import opened Lists
  import opened HashTables
  import Belady

  const INIT_LIST_SIZE := 100
  const LIST_SIZE := 4
  const BUCKET_SHARE := 5

  /** The times from i on at which page p is referenced, latest first. */
  ghost function Future(plan: seq<Page>, i: nat, p: Page): seq<nat>
    requires i <= |plan|
    decreases |plan| - i
  {
    if i == |plan| then [] else Future(plan, i + 1, p) + if plan[i] == p then [i] else []
  }

  /** The least t >= i with plan[t] == p, or -1 if there is none. */
  ghost predicate IsNextRef(plan: seq<Page>, i: nat, p: Page, t: int)
    requires i <= |plan|
  {
    if t == -1 then forall u :: i <= u < |plan| ==> plan[u] != p
    else i <= t < |plan| && plan[t] == p && forall u :: i <= u < t ==> plan[u] != p
  }

  /** The times are exactly the future references. */
  lemma {:induction false} FutureHas(plan: seq<Page>, i: nat, p: Page, t: nat)
    requires i <= |plan|
    ensures t in Future(plan, i, p) <==> i <= t < |plan| && plan[t] == p
    decreases |plan| - i
  {
    if i < |plan| {
      FutureHas(plan, i + 1, p, t);
    }
  }

  /** They strictly decrease. */
  lemma {:induction false} FutureDecreases(plan: seq<Page>, i: nat, p: Page)
    requires i <= |plan|
    ensures forall a, b :: 0 <= a < b < |Future(plan, i, p)| ==> Future(plan, i, p)[a] > Future(plan, i, p)[b]
    decreases |plan| - i
  {
    if i < |plan| {
      FutureDecreases(plan, i + 1, p);
      var rest := Future(plan, i + 1, p);
      forall a | 0 <= a < |rest| ensures rest[a] > i {
        FutureHas(plan, i + 1, p, rest[a]);
      }
    }
  }

  /** The last one is the next reference. */
  lemma {:induction false} FutureEndsInNext(plan: seq<Page>, i: nat, p: Page)
    requires i <= |plan|
    ensures var f := Future(plan, i, p); IsNextRef(plan, i, p, if f == [] then -1 else f[|f| - 1])
    decreases |plan| - i
  {
    if i < |plan| {
      FutureEndsInNext(plan, i + 1, p);
    }
  }

  /** The next reference time in terms of how many references pass before it. */
  lemma NextRefIsNextUse(plan: seq<Page>, i: nat, p: Page, t: int)
    requires i <= |plan| && IsNextRef(plan, i, p, t)
    ensures Belady.NextUse(plan[i..], p) == if t == -1 then |plan| - i else t - i
  {
    var n := Belady.NextUse(plan[i..], p);
    if n < |plan| - i {
      assert plan[i + n] == p;
    }
    forall u | i <= u < i + n ensures plan[u] != p {
      assert plan[u] == plan[i..][..n][u - i];
    }
  }

  /** The times stored for p, with none stored for a page that is never used again. */
  ghost function TimesOf(times: map<nat, seq<nat>>, p: Page): seq<nat> {
    if p in times then times[p] else []
  }

  /** The last time stored for p is gone, and p with it when it was the only one. */
  ghost function Popped(times: map<nat, seq<nat>>, p: Page): map<nat, seq<nat>>
    requires p in times && times[p] != []
  {
    if |times[p]| == 1 then times - {p} else times[p := times[p][..|times[p]| - 1]]
  }

  /** At time i the table knows the future of every page. */
  ghost predicate Foretells(times: map<nat, seq<nat>>, plan: seq<Page>, i: nat)
    requires i <= |plan|
  {
    forall p: nat :: KnowsPage(times, plan, i, p)
  }

  ghost predicate KnowsPage(times: map<nat, seq<nat>>, plan: seq<Page>, i: nat, p: Page)
    requires i <= |plan|
  {
    TimesOf(times, p) == Future(plan, i, p)
  }

  /** Before the table is built it knows that nothing happens after the end of the trace. */
  lemma ForetellsEnd(plan: seq<Page>)
    ensures Foretells(map[], plan, |plan|)
  {
    forall p: nat ensures KnowsPage(map[], plan, |plan|, p) {
    }
  }

  /** Adding time i for the page referenced then moves the table's knowledge from i + 1 back to i. */
  lemma AddForetells(times: map<nat, seq<nat>>, plan: seq<Page>, i: nat)
    requires i < |plan| && Foretells(times, plan, i + 1)
    ensures Foretells(times[plan[i] := TimesOf(times, plan[i]) + [i]], plan, i)
  {
    var times' := times[plan[i] := TimesOf(times, plan[i]) + [i]];
    forall p: nat ensures KnowsPage(times', plan, i, p) {
      assert KnowsPage(times, plan, i + 1, p);
    }
  }

  /** At time i the time popped for the page referenced then is i itself, and what is left
      foretells the future from i + 1 on. */
  lemma PopForetells(times: map<nat, seq<nat>>, plan: seq<Page>, i: nat)
    requires i < |plan| && Foretells(times, plan, i)
    ensures plan[i] in times && times[plan[i]] != [] && times[plan[i]][|times[plan[i]]| - 1] == i
    ensures Foretells(Popped(times, plan[i]), plan, i + 1)
  {
    assert KnowsPage(times, plan, i, plan[i]);
    var times', next := Popped(times, plan[i]), i + 1;
    forall p: nat ensures KnowsPage(times', plan, next, p) {
      assert KnowsPage(times, plan, i, p);
      assert times[plan[i]][..|times[plan[i]]| - 1] == Future(plan, next, plan[i]);
    }
  }

  /** At time i a look at the table tells the next reference. */
  lemma PeekForetells(times: map<nat, seq<nat>>, plan: seq<Page>, i: nat, p: Page)
    requires i <= |plan| && Foretells(times, plan, i)
    ensures IsNextRef(plan, i, p, if p in times && times[p] != [] then times[p][|times[p]| - 1] else -1)
  {
    assert KnowsPage(times, plan, i, p);
    FutureEndsInNext(plan, i, p);
  }

  /** Builds the table from the end of the page list to its beginning. */
  method MakeBeladyTable(pageList: List<nat>, memsize: nat) returns (t: BeladyTable)
    requires pageList.Valid() && memsize >= BUCKET_SHARE
    ensures t.Valid() && fresh(t.Repr)
    ensures Foretells(t.times, pageList.items, 0)
  {
    t := new BeladyTable.Empty(memsize / BUCKET_SHARE);
    ForetellsEnd(pageList.items);
    for i := 0 to pageList.count
      invariant t.Valid() && fresh(t.Repr)
      invariant Foretells(t.times, pageList.items, pageList.count - i)
    {
      var time := pageList.count - i - 1;
      AddForetells(t.times, pageList.items, time);
      t.AddBeladyPage(pageList.contents[time].value, time);
    }
  }

  method SingleTime(time: nat) returns (list: List<nat>)
    ensures list.Valid() && fresh(list) && fresh(list.contents) && list.items == [time]
  {
    list := new List<nat>(LIST_SIZE);
    list.Append(time);
  }

  class BeladyTable {
    const table: HashTable<List<nat>>
    ghost var times: map<nat, seq<nat>>
    ghost var owner: map<object, nat>
    ghost var Repr: set<object>

    /** Every page in the hash table has its own nonempty list, which holds its times. */
    ghost predicate Valid()
      reads this, Repr
      ensures Valid() ==> this in Repr
    {
      && this in Repr && table in Repr && table.Repr <= Repr && owner.Keys <= Repr
      && this !in table.Repr && this !in owner.Keys && table.Repr !! owner.Keys
      && table.Valid() && table.Map.Keys == times.Keys
      && forall p {:trigger ListOk(p)} :: p in table.Map ==> ListOk(p)
    }

    ghost predicate ListOk(p: Page)
      requires table in Repr && p in table.Map && owner.Keys <= Repr
      reads this, Repr
    {
      && Owns(p, table.Map[p]) && Owns(p, table.Map[p].contents)
      && table.Map[p].Valid() && p in times && table.Map[p].items == times[p] != []
    }

    ghost predicate Owns(p: Page, o: object)
      reads this
    {
      o in owner && owner[o] == p
    }

    constructor Empty(numBuckets: nat)
      requires numBuckets > 0
      ensures Valid() && fresh(Repr) && times == map[]
    {
      table := new HashTable(numBuckets);
      times, owner := map[], map[];
      new;
      Repr := {this} + table.Repr;
    }

    /** Adds a reference time for a page. */
    method AddBeladyPage(p: Page, time: nat)
      requires Valid()
      modifies Repr
      ensures Valid() && fresh(Repr - old(Repr))
      ensures times == old(times)[p := TimesOf(old(times), p) + [time]]
    {
      var got := table.Get(p);
      if got == Null {
        assert TimesOf(times, p) + [time] == [time];
        AddNewPage(p, time);
      } else {
        AddToList(p, got.value, time);
      }
    }

    method AddNewPage(p: Page, time: nat)
      requires Valid() && p !in table.Map
      modifies Repr
      ensures Valid() && fresh(Repr - old(Repr))
      ensures times == old(times)[p := [time]]
    {
      var list := SingleTime(time);
      Insert(p, list);
    }

    method AddToList(p: Page, list: List<nat>, time: nat)
      requires Valid() && p in table.Map && table.Map[p] == list
      modifies Repr
      ensures Valid() && fresh(Repr - old(Repr))
      ensures p in old(times) && times == old(times)[p := old(times)[p] + [time]]
    {
      assert ListOk(p);
      AppendTime(p, list, time);
      Record(p, list, times[p] + [time]);
    }

    /** Everything is in order but what is known of page p: its list is new or has got other times. */
    ghost predicate AllButOne(p: Page, list: List<nat>)
      reads this, Repr, table, table.Repr, list, list.contents
    {
      && this in Repr && table in Repr && owner.Keys <= Repr
      && this !in table.Repr && this !in owner.Keys && table.Repr !! owner.Keys
      && table.Valid() && table.Map.Keys == times.Keys + {p} && table.Map[p] == list && list.Valid()
      && MayOwn(p, list) && MayOwn(p, list.contents)
      && forall q {:trigger ListOk(q)} :: q in table.Map && q != p ==> ListOk(q)
    }

    /** The object belongs to no other page and not to the hash table. */
    ghost predicate MayOwn(p: Page, o: object)
      reads this, table
    {
      o != this && o !in table.Repr && (o in owner ==> owner[o] == p)
    }

    ghost method Record(p: Page, list: List<nat>, ts: seq<nat>)
      requires AllButOne(p, list) && list.items == ts != []
      modifies `owner, `Repr, `times
      ensures Valid() && Repr == old(Repr) + {list, list.contents} + table.Repr && times == old(times)[p := ts]
    {
      TakeOver(p, list);
      label Taken:
      times := times[p := ts];
      assert ListOk(p);
      forall q | q in table.Map && q != p ensures ListOk(q) {
        assert old@Taken(ListOk(q));
      }
    }

    ghost method TakeOver(p: Page, list: List<nat>)
      requires AllButOne(p, list)
      modifies `owner, `Repr
      ensures AllButOne(p, list) && Owns(p, list) && Owns(p, list.contents)
      ensures Repr == old(Repr) + {list, list.contents} + table.Repr
    {
      owner, Repr := owner[list := p][list.contents := p], Repr + {list, list.contents} + table.Repr;
      forall q | q in table.Map && q != p ensures ListOk(q) {
        assert old(ListOk(q));
      }
    }

    /** A list of its own for a page that has none. */
    method Insert(p: Page, list: List<nat>)
      requires Valid() && p !in table.Map
      requires list.Valid() && list.items != [] && list !in Repr && list.contents !in Repr
      modifies Repr
      ensures Valid() && fresh(Repr - old(Repr) - {list, list.contents})
      ensures times == old(times)[p := old(list.items)]
    {
      var none := table.Set(p, list);
      forall q | q in table.Map && q != p ensures ListOk(q) {
        assert old(ListOk(q));
      }
      Record(p, list, list.items);
    }

    /** The list of page p gets one more time; the other lists and the hash table stay as they are. */
    method AppendTime(p: Page, list: List<nat>, time: nat)
      requires Valid() && p in table.Map && table.Map[p] == list
      modifies list, list.contents
      ensures list.Valid() && list.items == times[p] + [time]
              && (list.contents == old(list.contents) || fresh(list.contents))
      ensures table.Valid() && table.Map == old(table.Map) && Owns(p, list) && list in Repr && times == old(times)
      ensures forall q {:trigger ListOk(q)} :: q in table.Map && q != p ==> ListOk(q)
    {
      assert ListOk(p);
      list.Append(time);
      forall q | q in table.Map && q != p ensures ListOk(q) {
        assert old(ListOk(q));
      }
    }

    /** The next reference time of a page, or -1. */
    method PeekNextRefTime(p: Page) returns (t: int)
      requires Valid()
      ensures t == if p in times && times[p] != [] then times[p][|times[p]| - 1] else -1
    {
      var refTimes := table.Get(p);
      if refTimes == Null {
        return -1;
      }
      assert ListOk(p);
      var last := refTimes.value.Peek();
      return last.value;
    }

    /** Takes the next reference time of a page off the table, together with its list once empty. */
    method PopNextRefTime(p: Page) returns (t: int)
      requires Valid()
      modifies Repr
      ensures Valid() && Repr == old(Repr)
      ensures if p !in old(times) then t == -1 && times == old(times)
              else old(times)[p] != [] && t == old(times)[p][|old(times)[p]| - 1] && times == Popped(old(times), p)
    {
      var refTimes := table.Get(p);
      if refTimes == Null {
        return -1;
      }
      assert ListOk(p);
      t := PopFromList(p, refTimes.value);
    }

    method PopFromList(p: Page, list: List<nat>) returns (t: int)
      requires Valid() && p in table.Map && table.Map[p] == list
      modifies Repr
      ensures Valid() && Repr == old(Repr)
      ensures p in old(times) && old(times)[p] != []
      ensures t == old(times)[p][|old(times)[p]| - 1] && times == Popped(old(times), p)
    {
      assert ListOk(p);
      var popped := list.Pop();
      times := Popped(times, p);
      if list.count == 0 {
        var removed := table.Remove(p);
      }
      forall q | q in table.Map ensures ListOk(q) {
        assert q != p ==> old(ListOk(q));
      }
      return popped.value;
    }
  }
}
