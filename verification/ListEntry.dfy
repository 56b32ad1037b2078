/**
 The intrusive circular list of include/ntdef.h: a head and its entries, linked both ways.  Every
 operation is proved against the sequence of entries.
 */
module ListEntry {
  class Entry {
    var flink: Entry?
    var blink: Entry?

    constructor ()
      ensures flink == null && blink == null
    {
      flink, blink := null, null;
    }
  }

  /** The i-th node of the circle; the head is both the first and the one after the last. */
  ghost function Node(head: Entry, s: seq<Entry>, i: int): Entry
    requires 0 <= i <= |s| + 1
  {
    if i == 0 || i == |s| + 1 then head else s[i - 1]
  }

  ghost predicate Circular(head: Entry, s: seq<Entry>)
    reads head, s
  {
    && head !in s && (forall i, j :: 0 <= i < j < |s| ==> s[i] != s[j])
    && (forall i {:trigger Linked(head, s, i)} :: 0 <= i <= |s| ==> Linked(head, s, i))
  }

  /** The i-th node and the one after it point at each other. */
  ghost predicate Linked(head: Entry, s: seq<Entry>, i: int)
    requires 0 <= i <= |s|
    reads head, s
  {
    var a, b := Node(head, s, i), Node(head, s, i + 1);
    a.flink == b && b.blink == a
  }

  method InitializeListHead(head: Entry)
    modifies head
    ensures Circular(head, [])
  {
    head.flink := head;
    head.blink := head;
  }

  method IsListEmpty(head: Entry, ghost s: seq<Entry>) returns (empty: bool)
    requires Circular(head, s)
    ensures empty <==> s == []
  {
    assert Linked(head, s, 0);
    empty := head.flink == head;
  }

  /** Removes and returns the first entry; on an empty list returns the head itself. */
  method RemoveHeadList(head: Entry, ghost s: seq<Entry>) returns (entry: Entry)
    requires Circular(head, s)
    modifies head, s
    ensures s == [] ==> entry == head && Circular(head, [])
    ensures s != [] ==> entry == s[0] && Circular(head, s[1..])
  {
    assert Linked(head, s, 0);
    entry := head.flink;
    assert s != [] ==> Linked(head, s, 1);
    head.flink := entry.flink;
    entry.flink.blink := head;
    if s != [] {
      ghost var t := s[1..];
      forall i | 0 <= i <= |t|
        ensures Linked(head, t, i)
      {
        assert old(Linked(head, s, i + 1));
      }
    }
  }

  /** Removes the k-th entry; true if none is left. */
  method RemoveEntryList(entry: Entry, ghost head: Entry, ghost s: seq<Entry>, ghost k: nat) returns (empty: bool)
    requires Circular(head, s) && k < |s| && s[k] == entry
    modifies head, s
    ensures Circular(head, s[..k] + s[k + 1..]) && (empty <==> |s| == 1)
  {
    assert Linked(head, s, k) && Linked(head, s, k + 1);
    var prev := entry.blink;
    prev.flink := entry.flink;
    entry.flink.blink := prev;
    empty := entry.flink == prev;
    ghost var t := s[..k] + s[k + 1..];
    forall i | 0 <= i <= |t|
      ensures Linked(head, t, i)
    {
      if i < k {
        assert old(Linked(head, s, i));
      } else if i > k {
        assert old(Linked(head, s, i + 1));
      }
    }
  }

  method InsertHeadList(head: Entry, entry: Entry, ghost s: seq<Entry>)
    requires Circular(head, s) && entry != head && entry !in s
    modifies head, s, entry
    ensures Circular(head, [entry] + s)
  {
    assert Linked(head, s, 0);
    var first := head.flink;
    head.flink := entry;
    entry.flink := first;
    entry.blink := head;
    first.blink := entry;
    ghost var t := [entry] + s;
    forall i | 0 <= i <= |t|
      ensures Linked(head, t, i)
    {
      if i > 1 {
        assert old(Linked(head, s, i - 1));
      }
    }
  }

  method InsertTailList(head: Entry, entry: Entry, ghost s: seq<Entry>)
    requires Circular(head, s) && entry != head && entry !in s
    modifies head, s, entry
    ensures Circular(head, s + [entry])
  {
    assert Linked(head, s, |s|);
    var last := head.blink;
    head.blink := entry;
    entry.blink := last;
    entry.flink := head;
    last.flink := entry;
    ghost var t := s + [entry];
    forall i | 0 <= i <= |t|
      ensures Linked(head, t, i)
    {
      if i < |s| {
        assert old(Linked(head, s, i));
      }
    }
  }
}
