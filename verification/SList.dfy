/** The intrusive circular list of kernel/lib/ec/list.h.  An entry is embedded in a record (CONTAINING_RECORD);
    a list head is an entry whose m_next is the first entry of the ring. */
module SList {
  import opened Sequences

  class Entry<T> {
    const record: T       // the structure the entry is embedded in
    var next: Entry?<T>

    constructor (record: T)
      ensures this.record == record && next == null
    {
      this.record := record;
      next := null;
    }
  }

  /** next is the successor of each entry of the sequence, and the ring closes. */
  ghost predicate Ring<T>(es: seq<Entry<T>>)
    reads es
  {
    && NoDuplicates(es)
    && (forall i | 0 <= i < |es| - 1 :: es[i].next == es[i + 1])
    && (es != [] ==> es[|es| - 1].next == es[0])
  }

  lemma ClosesAtLast<T>(es: seq<Entry<T>>, i: nat)
    requires Ring(es) && i < |es| && es[i].next == es[0]
    ensures i == |es| - 1
  {
    assert es[i].next == es[if i < |es| - 1 then i + 1 else 0];
  }

  class Head<T> {
    var next: Entry?<T>
    ghost var entries: seq<Entry<T>>

    constructor ()
      ensures Valid() && entries == []
    {
      next := null;
      entries := [];
    }

    ghost predicate Valid()
      reads this, entries
    {
      && Ring(entries)
      && next == if entries == [] then null else entries[0]
    }

    /** The last entry, found by going around once. */
    method Last() returns (last: Entry<T>)
      requires Valid() && entries != []
      ensures last == entries[|entries| - 1]
    {
      last := next;
      ghost var i := 0;
      while last.next != next
        invariant 0 <= i < |entries| && last == entries[i]
        decreases |entries| - i
      {
        assert last.next == entries[if i < |entries| - 1 then i + 1 else 0];
        last := last.next;
        i := i + 1;
      }
      ClosesAtLast(entries, i);
    }

    method Push(entry: Entry<T>)
      requires Valid() && entry !in entries
      modifies this, entries, entry
      ensures Valid() && entries == [entry] + old(entries)
    {
      if next == null {
        next := entry;
        entry.next := entry;
      } else {
        var last := Last();
        entry.next := next;
        last.next := entry;
        next := entry;
      }
      entries := [entry] + entries;
    }

    method Pop()
      requires Valid()
      modifies this, entries
      ensures Valid() && entries == if old(entries) == [] then [] else old(entries)[1..]
    {
      if next == null {
        return;
      }
      if next.next == next {
        ClosesAtLast(entries, 0);
        next := null;
        entries := [];
      } else {
        assert next.next == entries[if 0 < |entries| - 1 then 1 else 0];
        var last := Last();
        last.next := next.next;
        next := next.next;
        entries := entries[1..];
      }
    }

    /** The entry before the given one, going around at most once; null if the entry is not in the ring. */
    method Previous(entry: Entry<T>) returns (prev: Entry?<T>, ghost i: nat)
      requires Valid() && entries != []
      ensures prev == null <==> entry !in entries
      ensures prev != null ==> i < |entries| && prev == entries[i] && entry == entries[if i < |entries| - 1 then i + 1 else 0]
    {
      prev := next;
      i := 0;
      while prev.next != entry
        invariant 0 <= i < |entries| && prev == entries[i]
        invariant forall j | 0 < j <= i :: entries[j] != entry
        decreases |entries| - i
      {
        assert prev.next == entries[if i < |entries| - 1 then i + 1 else 0];
        prev := prev.next;
        if prev == next {
          ClosesAtLast(entries, i);
          prev := null;
          return;
        }
        i := i + 1;
      }
      assert prev.next == entries[if i < |entries| - 1 then i + 1 else 0];
    }

    /** Takes the first entry out of a ring of at least two, given the last one. */
    method UnlinkFirst(prev: Entry<T>, entry: Entry<T>)
      requires Valid() && |entries| > 1 && entry == entries[0] && prev == entries[|entries| - 1]
      modifies this, entries
      ensures Valid() && entries == old(entries)[1..]
    {
      assert entry.next == entries[1];
      prev.next := entry.next;
      next := entry.next;
      entries := entries[1..];
    }

    /** Takes a later entry out of the ring, given the one before it. */
    method UnlinkLater(prev: Entry<T>, entry: Entry<T>, ghost p: nat)
      requires Valid() && 0 < p < |entries| && entry == entries[p] && prev == entries[p - 1]
      modifies this, entries
      ensures Valid() && entries == old(entries)[..p] + old(entries)[p + 1..]
    {
      ghost var es := entries;
      prev.next := entry.next;
      entries := es[..p] + es[p + 1..];
      forall i | 0 <= i < |entries| - 1 ensures entries[i].next == entries[i + 1] {
        assert i < p - 1 ==> es[i].next == es[i + 1];
        assert i >= p ==> es[i + 1].next == es[i + 2];
      }
    }

    /** Takes an entry out of the ring; an entry that is not in the ring leaves every link as it is. */
    method Remove(entry: Entry<T>)
      requires Valid()
      modifies this, entries
      ensures Valid() && entries == Without(old(entries), entry)
      ensures entry !in old(entries) ==> unchanged(this) && forall e | e in old(entries) :: unchanged(e)
    {
      if next == null {
        return;
      }
      var prev, i := Previous(entry);
      if prev == null {
        return;  // not in the list
      }
      IndexUnique(entries, if i < |entries| - 1 then i + 1 else 0);
      if prev == entry {
        // it was the only entry
        SoleEntry(entries, i);
        next := null;
        entries := [];
      } else if next == entry {
        UnlinkFirst(prev, entry);
      } else {
        UnlinkLater(prev, entry, i + 1);
      }
    }
  }

  lemma SoleEntry<T>(es: seq<Entry<T>>, i: nat)
    requires NoDuplicates(es) && i < |es| && es[i] == es[if i < |es| - 1 then i + 1 else 0]
    ensures |es| == 1
  {
  }
}
