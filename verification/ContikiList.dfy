/** Linked lists whose links lie in the elements. */
module ContikiList {
  /** An element: the link, and what the element holds besides. */
  class Node<T> {
    var next: Node?<T>
    var value: T

    constructor (value: T)
      ensures this.value == value && next == null
    {
      this.value := value;
      next := null;
    }
  }

  /** The nodes of s, in their order, are linked from head. */
  ghost predicate Linked<T>(head: Node?<T>, s: seq<Node<T>>)
    reads s`next
  {
    && Distinct(s)
    && head == At(s, 0)
    && forall i {:trigger s[i].next} :: 0 <= i < |s| ==> s[i].next == At(s, i + 1)
  }

  lemma LinkedDistinct<T>(head: Node?<T>, s: seq<Node<T>>)
    requires Linked(head, s)
    ensures Distinct(s)
  {
  }

  ghost predicate Distinct<T>(s: seq<Node<T>>) {
    forall i, j :: 0 <= i < j < |s| ==> s[i] != s[j]
  }

  /** What a link to position i of s is. */
  ghost function At<T>(s: seq<Node<T>>, i: nat): Node?<T> {
    if i < |s| then s[i] else null
  }

  lemma HeadOf<T>(head: Node?<T>, s: seq<Node<T>>)
    requires Linked(head, s)
    ensures head == At(s, 0)
  {
  }

  lemma NextOf<T>(head: Node?<T>, s: seq<Node<T>>, i: nat)
    requires Linked(head, s) && i < |s|
    ensures s[i].next == At(s, i + 1)
  {
  }

  /** The list without x. */
  ghost function Without<T>(s: seq<Node<T>>, x: Node<T>): seq<Node<T>> {
    if s == [] then [] else if s[0] == x then s[1..] else [s[0]] + Without(s[1..], x)
  }

  /** Of distinct nodes all but x remain. */
  lemma {:induction false} WithoutKeeps<T>(s: seq<Node<T>>, x: Node<T>)
    requires Distinct(s)
    ensures Distinct(Without(s, x)) && forall y :: y in Without(s, x) <==> y in s && y != x
  {
    if s != [] {
      var r := Without(s[1..], x);
      WithoutKeeps(s[1..], x);
      assert forall y :: y in s <==> y == s[0] || y in s[1..];
      assert s[0] !in s[1..];
      if s[0] != x {
        assert forall j :: 0 < j < |[s[0]] + r| ==> ([s[0]] + r)[j] == r[j - 1];
      }
    }
  }

  lemma {:induction false} WithoutAbsent<T>(s: seq<Node<T>>, x: Node<T>)
    requires x !in s
    ensures Without(s, x) == s
  {
    if s != [] {
      WithoutAbsent(s[1..], x);
    }
  }

  lemma {:induction false} WithoutAt<T>(s: seq<Node<T>>, k: nat)
    requires Distinct(s) && k < |s|
    ensures Without(s, s[k]) == s[..k] + s[k + 1..]
  {
    if k > 0 {
      WithoutAt(s[1..], k - 1);
      assert s[..k] + s[k + 1..] == [s[0]] + (s[1..][..k - 1] + s[1..][k..]);
    }
  }

  /** x stands after p in the new list. */
  ghost predicate Inserted<T>(was: seq<Node<T>>, p: Node<T>, x: Node<T>, now: seq<Node<T>>) {
    exists k :: 0 <= k < |was| && was[k] == p && now == was[..k + 1] + [x] + was[k + 1..]
  }

  /** A list. */
  class List<T> {
    var head: Node?<T>
    ghost var items: seq<Node<T>>

    ghost predicate Valid()
      reads this, items`next
    {
      Linked(head, items)
    }

    /** list_init. */
    constructor ()
      ensures Valid() && items == []
    {
      head := null;
      items := [];
    }

    /** list_tail. */
    method Tail() returns (l: Node?<T>)
      requires Valid()
      ensures l == if items == [] then null else items[|items| - 1]
    {
      if head == null {
        return null;
      }
      l := head;
      ghost var i := 0;
      while l.next != null
        invariant 0 <= i < |items| && l == items[i]
        decreases |items| - i
      {
        l := l.next;
        i := i + 1;
      }
    }

    /** list_remove. */
    method Remove(item: Node<T>)
      requires Valid()
      modifies this, items`next, item`next
      ensures Valid() && items == Without(old(items), item)
      ensures item in old(items) ==> item.next == null
      ensures item !in old(items) ==> item.next == old(item.next) && head == old(head)
    {
      if head == null {
        return;
      }
      var r: Node?<T> := null;
      var l := head;
      ghost var i := 0;
      while l != null
        invariant 0 <= i <= |items| && l == At(items, i) && r == (if i == 0 then null else items[i - 1])
        invariant item !in items[..i]
        decreases |items| - i
      {
        if l == item {
          WithoutAt(items, i);
          assert item == items[i] && item in items;
          if r == null {
            head := l.next;
          } else {
            r.next := l.next;
          }
          l.next := null;
          items := items[..i] + items[i + 1..];
          return;
        }
        r := l;
        l := l.next;
        i := i + 1;
      }
      WithoutAbsent(items, item);
    }

    /** list_add. */
    method Add(item: Node<T>)
      requires Valid()
      modifies this, items`next, item`next
      ensures Valid() && items == Without(old(items), item) + [item]
    {
      WithoutKeeps(items, item);
      Remove(item);
      item.next := null;
      var l := Tail();
      if l == null {
        head := item;
      } else {
        assert l in Without(old(items), item);
        l.next := item;
      }
      items := items + [item];
    }

    /** list_push. */
    method Push(item: Node<T>)
      requires Valid()
      modifies this, items`next, item`next
      ensures Valid() && items == [item] + Without(old(items), item)
    {
      WithoutKeeps(items, item);
      Remove(item);
      item.next := head;
      head := item;
      items := [item] + items;
    }

    /** list_chop. */
    method Chop() returns (r: Node?<T>)
      requires Valid()
      modifies this, items`next
      ensures Valid()
      ensures if old(items) == [] then r == null && items == [] else
        r == old(items[|items| - 1]) && items == old(items[..|items| - 1])
    {
      if head == null {
        return null;
      }
      if head.next == null {
        r := head;
        head := null;
        items := [];
        return;
      }
      var l := head;
      ghost var i := 0;
      while l.next.next != null
        invariant 0 <= i < |items| - 1 && l == items[i]
        decreases |items| - i
      {
        l := l.next;
        i := i + 1;
      }
      r := l.next;
      l.next := null;
      items := items[..|items| - 1];
    }

    /** list_pop. */
    method Pop() returns (l: Node?<T>)
      requires Valid()
      modifies this
      ensures Valid()
      ensures if old(items) == [] then l == null && items == [] else l == old(items[0]) && items == old(items[1..])
    {
      l := head;
      if head != null {
        head := head.next;
        items := items[1..];
      }
    }

    /** list_length. */
    method Length() returns (n: nat)
      requires Valid()
      ensures n == |items|
    {
      n := 0;
      var l := head;
      while l != null
        invariant 0 <= n <= |items| && l == At(items, n)
        decreases |items| - n
      {
        n := n + 1;
        l := l.next;
      }
    }

    /** list_insert: unlike the other operations it does not look whether the new element is on the list already. */
    method Insert(previtem: Node?<T>, newitem: Node<T>)
      requires Valid() && (previtem != null ==> previtem in items && newitem !in items)
      modifies this, items`next, newitem`next
      ensures Valid()
      ensures previtem == null ==> items == [newitem] + Without(old(items), newitem)
      ensures previtem != null ==> Inserted(old(items), previtem, newitem, items)
    {
      if previtem == null {
        Push(newitem);
      } else {
        ghost var k :| 0 <= k < |items| && items[k] == previtem;
        newitem.next := previtem.next;
        previtem.next := newitem;
        items := items[..k + 1] + [newitem] + items[k + 1..];
      }
    }
  }
}
