/** Intrusive circular lists (include/list.h) as sequences: every operation is proved at the level of
    its `next` and `prev` pointers. The debug hooks of the header are compiled out. */
module List {
  import opened Wrappers

  /** `struct list_head`, with the structure it is embedded in; the head of a list is in none. */
  class ListHead<T> {
    var next: ListHead?<T>
    var prev: ListHead?<T>
    const owner: Option<T>

    constructor (owner: Option<T>)
      ensures this.owner == owner && next == this && prev == this
      ensures IsList(this, [])
    {
      this.owner := owner;
      next, prev := this, this;
    }
  }

  ghost predicate Linked<T>(a: ListHead<T>, b: ListHead<T>)
    reads a, b
  {
    a.next == b && b.prev == a
  }

  ghost predicate Distinct<T>(s: seq<ListHead<T>>) {
    forall i, j :: 0 <= i < j < |s| ==> s[i] != s[j]
  }

  /** `head` is the head of a well-formed circular list of exactly the entries `s`. */
  ghost predicate IsList<T>(head: ListHead<T>, s: seq<ListHead<T>>)
    reads head, s
  {
    && Distinct(s) && head !in s
    && head.next == (if s == [] then head else s[0])
    && head.prev == (if s == [] then head else s[|s| - 1])
    && (forall i {:trigger s[i].next} :: 0 <= i < |s| ==> s[i].next == if i + 1 < |s| then s[i + 1] else head)
    && (forall i {:trigger s[i].prev} :: 0 <= i < |s| ==> s[i].prev == if i == 0 then head else s[i - 1])
  }

  /** Two lists that share nothing. */
  ghost predicate Apart<T>(h: ListHead<T>, s: seq<ListHead<T>>, h': ListHead<T>, s': seq<ListHead<T>>) {
    h != h' && h !in s' && h' !in s && forall i :: 0 <= i < |s| ==> s[i] !in s'
  }

  function Without<A>(s: seq<A>, k: nat): seq<A>
    requires k < |s|
  {
    s[..k] + s[k + 1..]
  }

  /** `list_empty` */
  predicate Empty<T>(head: ListHead<T>)
    reads head
  {
    head.next == head
  }

  /** `list_is_singular` */
  predicate Singular<T>(head: ListHead<T>)
    reads head
  {
    !Empty(head) && head.next == head.prev
  }

  /** `list_is_last` */
  predicate IsLast<T>(entry: ListHead<T>, head: ListHead<T>)
    reads entry
  {
    entry.next == head
  }

  /** The pointer tests count entries. */
  lemma TestsCount<T>(head: ListHead<T>, s: seq<ListHead<T>>)
    requires IsList(head, s)
    ensures Empty(head) <==> s == []
    ensures Singular(head) <==> |s| == 1
    ensures forall i :: 0 <= i < |s| ==> (IsLast(s[i], head) <==> i == |s| - 1)
  {
  }

  lemma Ends<T>(head: ListHead<T>, s: seq<ListHead<T>>)
    requires IsList(head, s)
    ensures head !in s
    ensures head.next == if s == [] then head else s[0]
    ensures head.prev == if s == [] then head else s[|s| - 1]
    ensures forall k {:trigger s[k].next} :: 0 <= k < |s| ==> s[k].next == if k + 1 < |s| then s[k + 1] else head
    ensures forall k {:trigger s[k].prev} :: 0 <= k < |s| ==> s[k].prev == if k == 0 then head else s[k - 1]
  {
  }

  /** `__list_add` */
  method AddBetween<T>(n: ListHead<T>, prev: ListHead<T>, next: ListHead<T>)
    requires n != prev && n != next
    modifies n, prev, next
    ensures Linked(prev, n) && Linked(n, next)
    ensures prev != next ==> prev.prev == old(prev.prev) && next.next == old(next.next)
  {
    next.prev := n;
    n.next := next;
    n.prev := prev;
    prev.next := n;
  }

  /** `list_add`: at the front. */
  method Add<T>(n: ListHead<T>, head: ListHead<T>, ghost s: seq<ListHead<T>>)
    requires IsList(head, s) && n !in [head] + s
    modifies n, head, head.next
    ensures IsList(head, [n] + s)
  {
    AddBetween(n, head, head.next);
  }

  /** `list_add_tail`: at the back. */
  method AddTail<T>(n: ListHead<T>, head: ListHead<T>, ghost s: seq<ListHead<T>>)
    requires IsList(head, s) && n !in [head] + s
    modifies n, head, head.prev
    ensures IsList(head, s + [n])
  {
    AddBetween(n, head.prev, head);
  }

  /** `__list_del` */
  method Bypass<T>(prev: ListHead<T>, next: ListHead<T>)
    modifies prev, next
    ensures Linked(prev, next)
    ensures prev != next ==> prev.prev == old(prev.prev) && next.next == old(next.next)
  {
    next.prev := prev;
    prev.next := next;
  }

  /** `__list_del_entry`: the entry keeps its stale pointers. */
  method DelEntry<T>(entry: ListHead<T>, ghost head: ListHead<T>, ghost s: seq<ListHead<T>>, ghost k: nat)
    requires IsList(head, s) && k < |s| && s[k] == entry
    modifies entry.prev, entry.next
    ensures IsList(head, Without(s, k))
  {
    Bypass(entry.prev, entry.next);
  }

  /** `list_del`: the entry is poisoned, which is NULL here. */
  method Del<T>(entry: ListHead<T>, ghost head: ListHead<T>, ghost s: seq<ListHead<T>>, ghost k: nat)
    requires IsList(head, s) && k < |s| && s[k] == entry
    modifies entry, entry.prev, entry.next
    ensures IsList(head, Without(s, k)) && entry.next == null == entry.prev
  {
    DelEntry(entry, head, s, k);
    entry.next := null;
    entry.prev := null;
  }

  /** `list_del` and then `list_add_tail` to another list. */
  method Transfer<T>(entry: ListHead<T>, head: ListHead<T>, ghost from: ListHead<T>, ghost s: seq<ListHead<T>>,
                     ghost k: nat, ghost t: seq<ListHead<T>>)
    requires IsList(from, s) && k < |s| && s[k] == entry
    requires IsList(head, t) && Apart(from, s, head, t)
    modifies from, s, head, t
    ensures IsList(head, t + [entry]) && IsList(from, Without(s, k))
  {
    Del(entry, from, s, k);
    AddTail(entry, head, t);
  }

  /** `list_move_tail`: from one list to the back of another, or of the same one. */
  method MoveTail<T>(entry: ListHead<T>, head: ListHead<T>, ghost from: ListHead<T>, ghost s: seq<ListHead<T>>,
                     ghost k: nat, ghost t: seq<ListHead<T>>)
    requires IsList(from, s) && k < |s| && s[k] == entry
    requires (head == from && t == Without(s, k)) || (IsList(head, t) && Apart(from, s, head, t))
    modifies entry, entry.prev, entry.next, head, head.prev
    ensures IsList(head, t + [entry])
    ensures head != from ==> IsList(from, Without(s, k))
  {
    DelEntry(entry, from, s, k);
    AddTail(entry, head, t);
  }

  /** `list_move`: likewise to the front. */
  method Move<T>(entry: ListHead<T>, head: ListHead<T>, ghost from: ListHead<T>, ghost s: seq<ListHead<T>>,
                 ghost k: nat, ghost t: seq<ListHead<T>>)
    requires IsList(from, s) && k < |s| && s[k] == entry
    requires (head == from && t == Without(s, k)) || (IsList(head, t) && Apart(from, s, head, t))
    modifies entry, entry.prev, entry.next, head, head.next
    ensures IsList(head, [entry] + t)
    ensures head != from ==> IsList(from, Without(s, k))
  {
    DelEntry(entry, from, s, k);
    Add(entry, head, t);
  }

  /** `list_rotate_left` */
  method RotateLeft<T>(head: ListHead<T>, ghost s: seq<ListHead<T>>)
    requires IsList(head, s)
    modifies head, s
    ensures IsList(head, if s == [] then [] else s[1..] + [s[0]])
  {
    TestsCount(head, s);
    if !Empty(head) {
      assert Without(s, 0) == s[1..];
      MoveTail(head.next, head, head, s, 0, s[1..]);
    }
  }

  /** `list_cut_position`: everything up to and including `entry` moves to `list`. */
  method CutPosition<T>(list: ListHead<T>, head: ListHead<T>, entry: ListHead<T>, ghost s: seq<ListHead<T>>,
                        ghost k: nat)
    requires IsList(head, s) && list !in [head] + s
    requires k <= |s| && entry == ([head] + s)[k]
    modifies list, head, s
    ensures IsList(head, s[k..])
    ensures s != [] ==> IsList(list, s[..k])
    ensures s == [] ==> list.next == old(list.next) && list.prev == old(list.prev)
  {
    TestsCount(head, s);
    if Empty(head) {
      return;
    }
    if Singular(head) && head.next != entry && head != entry {
      assert false;
    }
    if entry == head {
      list.next, list.prev := list, list;
    } else {
      CutAfter(list, head, entry, s, k);
    }
  }

  /** `__list_cut_position` */
  method CutAfter<T>(list: ListHead<T>, head: ListHead<T>, entry: ListHead<T>, ghost s: seq<ListHead<T>>, ghost k: nat)
    requires IsList(head, s) && list !in [head] + s
    requires 0 < k <= |s| && entry == s[k - 1]
    modifies list, head, s
    ensures IsList(head, s[k..]) && IsList(list, s[..k])
  {
    var newFirst := entry.next;
    list.next := head.next;
    list.next.prev := list;
    list.prev := entry;
    entry.next := list;
    head.next := newFirst;
    newFirst.prev := head;
  }

  /** `__list_splice` */
  method SpliceBetween<T>(list: ListHead<T>, prev: ListHead<T>, next: ListHead<T>, ghost t: seq<ListHead<T>>)
    requires IsList(list, t) && t != []
    requires prev !in [list] + t && next !in [list] + t
    modifies prev, next, t[0], t[|t| - 1]
    ensures Linked(prev, t[0]) && Linked(t[|t| - 1], next)
    ensures forall i :: 0 <= i < |t| - 1 ==> Linked(t[i], t[i + 1])
    ensures prev != next ==> prev.prev == old(prev.prev) && next.next == old(next.next)
  {
    forall i | 0 <= i < |t| - 1 ensures Linked(t[i], t[i + 1]) {
    }
    var first, last := list.next, list.prev;
    first.prev := prev;
    prev.next := first;
    last.next := next;
    next.prev := last;
  }

  /** `list_splice`: all of `list` to the front. */
  method Splice<T>(list: ListHead<T>, head: ListHead<T>, ghost t: seq<ListHead<T>>, ghost s: seq<ListHead<T>>)
    requires IsList(list, t) && IsList(head, s) && Apart(list, t, head, s)
    modifies head, s, t
    ensures IsList(head, t + s)
  {
    TestsCount(list, t);
    if !Empty(list) {
      SpliceBetween(list, head, head.next, t);
    }
  }

  /** `list_splice_tail`: all of `list` to the back. */
  method SpliceTail<T>(list: ListHead<T>, head: ListHead<T>, ghost t: seq<ListHead<T>>, ghost s: seq<ListHead<T>>)
    requires IsList(list, t) && IsList(head, s) && Apart(list, t, head, s)
    modifies head, s, t
    ensures IsList(head, s + t)
  {
    TestsCount(list, t);
    if !Empty(list) {
      SpliceBetween(list, head.prev, head, t);
    }
  }

  /** `list_splice_tail_init`: the donor is empty afterwards. */
  method SpliceTailInit<T>(list: ListHead<T>, head: ListHead<T>, ghost t: seq<ListHead<T>>, ghost s: seq<ListHead<T>>)
    requires IsList(list, t) && IsList(head, s) && Apart(list, t, head, s)
    modifies list, head, s, t
    ensures IsList(head, s + t) && IsList(list, [])
  {
    if !Empty(list) {
      SpliceTail(list, head, t, s);
      list.next, list.prev := list, list;
    } else {
      TestsCount(list, t);
      assert s + t == s;
    }
  }
}
