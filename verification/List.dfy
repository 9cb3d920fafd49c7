/** The dynamic array of a2/starter/opt.c (also a3/list.h). */
module Lists {
  /** A pointer that may be NULL. */
  datatype Ptr<T> = Null | To(value: T)

  class List<T(==)> {
    var contents: array<Ptr<T>>
    var count: nat
    var capacity: nat
    ghost var items: seq<T>

    ghost predicate Valid()
      reads this, contents
    {
      && 0 < capacity == contents.Length
      && |items| == count <= capacity
      && (forall i :: 0 <= i < count ==> contents[i] == To(items[i]))
      && (forall i :: count <= i < capacity ==> contents[i] == Null)
    }

    constructor (size: nat)
      requires size > 0
      ensures Valid() && fresh(contents)
      ensures items == []
    {
      contents := new Ptr<T>[size](_ => Null);
      count, capacity := 0, size;
      items := [];
    }

    /** Appends a value, doubling the capacity when the array is full. */
    method Append(value: T)
      requires Valid()
      modifies this, contents
      ensures Valid() && (contents == old(contents) || fresh(contents))
      ensures items == old(items) + [value]
    {
      if count == capacity {
        var newContents := new Ptr<T>[capacity * 2](_ => Null);
        for i := 0 to capacity
          modifies newContents
          invariant forall j :: 0 <= j < i ==> newContents[j] == contents[j]
          invariant forall j :: i <= j < capacity * 2 ==> newContents[j] == Null
        {
          newContents[i] := contents[i];
        }
        contents := newContents;
        capacity := capacity * 2;
      }
      contents[count] := To(value);
      count := count + 1;
      items := items + [value];
    }

    /** The first index at which value occurs, or -1. */
    method Find(value: T) returns (index: int)
      requires Valid()
      ensures -1 <= index < |items|
      ensures index == -1 ==> value !in items
      ensures index >= 0 ==> items[index] == value && value !in items[..index]
    {
      for i := 0 to count
        invariant value !in items[..i]
      {
        if contents[i] == To(value) {
          return i;
        }
        assert items[..i + 1] == items[..i] + [items[i]];
      }
      return -1;
    }

    /** The loop of Remove: the values behind index move down by one. */
    method MoveDown(index: nat)
      requires Valid() && index < count
      modifies contents
      ensures forall j :: 0 <= j < index || count - 1 <= j < capacity ==> contents[j] == old(contents[j])
      ensures forall j :: index <= j < count - 1 ==> contents[j] == old(contents[j + 1])
    {
      for i := index to count - 1
        modifies contents
        invariant forall j :: 0 <= j < index ==> contents[j] == old(contents[j])
        invariant forall j :: index <= j < i ==> contents[j] == old(contents[j + 1])
        invariant forall j :: i <= j < capacity ==> contents[j] == old(contents[j])
      {
        contents[i] := contents[i + 1];
      }
    }

    /** Removes and returns the value at index, moving the rest down; Null when there is none.
        (An empty list may only be asked for a negative index: count - 1 is unsigned.) */
    method Remove(index: int) returns (deleted: Ptr<T>)
      requires Valid() && (count > 0 || index < 0)
      modifies this, contents
      ensures Valid() && contents == old(contents)
      ensures if 0 <= index < |old(items)|
              then deleted == To(old(items)[index]) && items == old(items)[..index] + old(items)[index + 1..]
              else deleted == Null && items == old(items)
    {
      if index < 0 || index > count - 1 {
        return Null;
      }
      deleted := contents[index];
      MoveDown(index);
      contents[count - 1] := Null;
      count := count - 1;
      ghost var rest := items[..index] + items[index + 1..];
      assert forall j :: 0 <= j < count ==> contents[j] == To(rest[j]);
      items := rest;
    }

    /** Removes the first occurrence of a value, if there is one. */
    method Delete(value: T)
      requires Valid()
      modifies this, contents
      ensures Valid() && contents == old(contents)
      ensures value !in old(items) ==> items == old(items)
      ensures value in old(items) ==>
                exists i :: 0 <= i < |old(items)| && old(items)[i] == value
                    && items == old(items)[..i] + old(items)[i + 1..]
    {
      var ind := Find(value);
      if ind == -1 {
        return;
      }
      var deleted := Remove(ind);
    }

    method Pop() returns (last: Ptr<T>)
      requires Valid()
      modifies this, contents
      ensures Valid() && contents == old(contents)
      ensures if old(items) == [] then last == Null && items == []
              else last == To(old(items)[|old(items)| - 1]) && items == old(items)[..|old(items)| - 1]
    {
      last := Remove(count - 1);
    }

    method Peek() returns (last: Ptr<T>)
      requires Valid()
      ensures last == if items == [] then Null else To(items[|items| - 1])
    {
      if count == 0 {
        return Null;
      }
      return contents[count - 1];
    }
  }
}
