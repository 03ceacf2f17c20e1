/** Intrusive circular lists: entries linked through Flink and Blink, headed by an entry of their own or not
    headed at all, and singly linked lists. */
module ListEntry {
  import opened Words

  class Entry {
    var flink: Entry
    var blink: Entry

    /** An entry starts out linked to itself. */
    constructor ()
      ensures flink == this && blink == this
    {
      flink := this;
      blink := this;
    }
  }

  /** The entries of c, in this order, form one cycle; Blink goes around it the other way. */
  ghost predicate Ring(c: seq<Entry>)
    reads c
  {
    && c != [] && Distinct(c)
    && (forall i {:trigger c[i].flink} | 0 <= i < |c| :: c[i].flink == c[if i + 1 < |c| then i + 1 else 0])
    && (forall i {:trigger c[i].blink} | 0 <= i < |c| :: c[i].blink == c[if i > 0 then i - 1 else |c| - 1])
  }

  /** The list with the given head holds the entries s. */
  ghost predicate IsList(head: Entry, s: seq<Entry>)
    reads head, s
  {
    Ring([head] + s)
  }

  /** On every ring the two links undo each other, and each leads to an entry of the ring. */
  lemma LinksInverse(c: seq<Entry>, i: nat)
    requires Ring(c) && i < |c|
    ensures c[i].flink in c && c[i].blink in c && c[i].flink.blink == c[i] && c[i].blink.flink == c[i]
  {
  }

  method InitializeListHead(head: Entry)
    modifies head
    ensures IsList(head, [])
  {
    head.flink := head;
    head.blink := head;
  }

  method IsListEmpty(head: Entry, ghost s: seq<Entry>) returns (r: bool)
    requires IsList(head, s)
    ensures r <==> s == []
  {
    assert ([head] + s)[0].flink == ([head] + s)[if 1 < |s| + 1 then 1 else 0];
    r := head.flink == head;
  }

  lemma DistinctRemoved(c: seq<Entry>, i: nat)
    requires i < |c| && Distinct(c)
    ensures Distinct(RemoveAt(c, i))
    ensures forall j | 0 <= j < |c| - 1 :: RemoveAt(c, i)[j] == c[if j < i then j else j + 1]
  {
  }

  /** Takes an entry out of its ring; the neighbours are the only entries that are written. The answer says whether
      at most one other entry is left, which for a headed list means that it is empty now. An entry that is
      alone in its ring stays as it is. */
  method RemoveEntryList(entry: Entry, ghost c: seq<Entry>, ghost i: nat) returns (r: bool)
    requires Ring(c) && i < |c| && entry == c[i]
    modifies entry.blink`flink, entry.flink`blink
    ensures Ring(if |c| > 1 then RemoveAt(c, i) else c)
    ensures r <==> |c| <= 2
    ensures entry.flink == old(entry.flink) && entry.blink == old(entry.blink)
  {
    var flink, blink := entry.flink, entry.blink;
    ghost var n, p := if i + 1 < |c| then i + 1 else 0, if i > 0 then i - 1 else |c| - 1;
    assert flink == c[n] && blink == c[p];
    DistinctRemoved(c, i);
    blink.flink := flink;
    flink.blink := blink;
    r := flink == blink;
    if |c| > 1 {
      ghost var d := RemoveAt(c, i);
      forall j | 0 <= j < |d|
        ensures d[j].flink == d[if j + 1 < |d| then j + 1 else 0]
        ensures d[j].blink == d[if j > 0 then j - 1 else |d| - 1]
      {
        var k := if j < i then j else j + 1;
        assert d[j] == c[k] && k != i;
      }
    }
  }

  /** The first entry leaves the list. From an empty list the head itself is returned and nothing changes. */
  method RemoveHeadList(head: Entry, ghost s: seq<Entry>) returns (entry: Entry)
    requires IsList(head, s)
    modifies head`flink, head.flink.flink`blink
    ensures entry == if s == [] then head else s[0]
    ensures IsList(head, if s == [] then [] else s[1..])
  {
    ghost var c := [head] + s;
    assert head == c[0] && c[0].flink == c[if 1 < |c| then 1 else 0];
    entry := head.flink;
    var flink := entry.flink;
    assert |c| > 1 ==> entry == c[1] && flink == c[if 2 < |c| then 2 else 0];
    head.flink := flink;
    flink.blink := head;
    if s != [] {
      ghost var d := [head] + s[1..];
      assert forall j | 0 <= j < |d| :: d[j] == c[if j < 1 then j else j + 1];
    }
  }

  method RemoveTailList(head: Entry, ghost s: seq<Entry>) returns (entry: Entry)
    requires IsList(head, s)
    modifies head`blink, head.blink.blink`flink
    ensures entry == if s == [] then head else s[|s| - 1]
    ensures IsList(head, if s == [] then [] else s[..|s| - 1])
  {
    ghost var c := [head] + s;
    assert head == c[0] && c[0].blink == c[|c| - 1];
    entry := head.blink;
    var blink := entry.blink;
    assert |c| > 1 ==> blink == c[|c| - 2];
    head.blink := blink;
    blink.flink := head;
    if s != [] {
      ghost var d := [head] + s[..|s| - 1];
      assert forall j | 0 <= j < |d| :: d[j] == c[j];
    }
  }

  method InsertTailList(head: Entry, entry: Entry, ghost s: seq<Entry>)
    requires IsList(head, s) && entry != head && entry !in s
    modifies entry, head`blink, head.blink`flink
    ensures IsList(head, s + [entry])
  {
    ghost var c := [head] + s;
    assert head == c[0] && c[0].blink == c[|c| - 1];
    var blink := head.blink;
    entry.flink := head;
    entry.blink := blink;
    blink.flink := entry;
    head.blink := entry;
    ghost var d := [head] + (s + [entry]);
    assert forall j | 0 <= j < |d| :: d[j] == if j < |c| then c[j] else entry;
  }

  method InsertHeadList(head: Entry, entry: Entry, ghost s: seq<Entry>)
    requires IsList(head, s) && entry != head && entry !in s
    modifies entry, head`flink, head.flink`blink
    ensures IsList(head, [entry] + s)
  {
    ghost var c := [head] + s;
    assert head == c[0] && c[0].flink == c[if 1 < |c| then 1 else 0];
    assert forall j | 0 <= j < |c| :: c[j] != entry;
    var flink := head.flink;
    entry.flink := flink;
    entry.blink := head;
    flink.blink := entry;
    head.flink := entry;
    ghost var d := [head] + ([entry] + s);
    assert forall j | 0 <= j < |d| :: d[j] == if j == 0 then c[0] else if j == 1 then entry else c[j - 1];
  }

  /** A ring without a head, given by any of its entries, is appended to the list, starting with that entry. */
  method AppendTailList(head: Entry, listToAppend: Entry, ghost s: seq<Entry>, ghost t: seq<Entry>)
    requires IsList(head, s) && Ring(t) && t[0] == listToAppend
    requires head !in t && forall e | e in s :: e !in t
    modifies head`blink, head.blink`flink, listToAppend`blink, listToAppend.blink`flink
    ensures IsList(head, s + t)
  {
    ghost var c := [head] + s;
    assert head == c[0] && c[0].blink == c[|c| - 1] && t[0].blink == t[|t| - 1];
    assert forall j | 0 <= j < |c| :: c[j] !in t;
    var listEnd := head.blink;
    head.blink.flink := listToAppend;
    head.blink := listToAppend.blink;
    listToAppend.blink.flink := head;
    listToAppend.blink := listEnd;
    ghost var d := [head] + (s + t);
    assert d == c + t;
    DistinctConcat(c, t);
    forall j | 0 <= j < |d|
      ensures d[j].flink == d[if j + 1 < |d| then j + 1 else 0]
      ensures d[j].blink == d[if j > 0 then j - 1 else |d| - 1]
    {
      assert j < |c| ==> d[j] == c[j];
      assert j >= |c| ==> d[j] == t[j - |c|];
    }
  }

  lemma DistinctConcat(c: seq<Entry>, t: seq<Entry>)
    requires Distinct(c) && Distinct(t) && forall j | 0 <= j < |c| :: c[j] !in t
    ensures Distinct(c + t)
  {
  }

  // ----- Singly linked lists

  class SingleEntry {
    var next: SingleEntry?

    constructor ()
      ensures next == null
    {
      next := null;
    }
  }

  /** The entries behind head, in order, up to null. */
  ghost predicate IsStack(head: SingleEntry, s: seq<SingleEntry>)
    reads head, s
  {
    var c := [head] + s;
    && (forall i, j | 0 <= i < j < |c| :: c[i] != c[j])
    && forall i {:trigger c[i].next} | 0 <= i < |c| :: c[i].next == if i + 1 < |c| then c[i + 1] else null
  }

  method PopEntryList(head: SingleEntry, ghost s: seq<SingleEntry>) returns (first: SingleEntry?)
    requires IsStack(head, s)
    modifies head
    ensures first == if s == [] then null else s[0]
    ensures IsStack(head, if s == [] then [] else s[1..])
  {
    ghost var c := [head] + s;
    assert c[0].next == if 1 < |c| then c[1] else null;
    first := head.next;
    if first != null {
      assert c[1].next == if 2 < |c| then c[2] else null;
      head.next := first.next;
      ghost var d := [head] + s[1..];
      assert forall j | 0 <= j < |d| :: d[j] == c[if j < 1 then j else j + 1];
    }
  }

  method PushEntryList(head: SingleEntry, entry: SingleEntry, ghost s: seq<SingleEntry>)
    requires IsStack(head, s) && entry != head && entry !in s
    modifies head, entry
    ensures IsStack(head, [entry] + s)
  {
    ghost var c := [head] + s;
    assert c[0].next == if 1 < |c| then c[1] else null;
    entry.next := head.next;
    head.next := entry;
    ghost var d := [head] + ([entry] + s);
    assert forall j | 0 <= j < |d| :: d[j] == if j == 0 then c[0] else if j == 1 then entry else c[j - 1];
  }
}
