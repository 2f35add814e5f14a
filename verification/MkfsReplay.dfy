/**
 mkfs on a volume with integrity protection: mkfs runs on a dummy device of the same
 size, and the pages its block events touched are copied over to the real device.
 */
module MkfsReplay {
  import opened ByteStrings
  import opened Ordering

  const SECTOR: nat := 512

  datatype Event = Event(sector: nat, bytes: nat, isRead: bool, isWrite: bool, isDiscard: bool) {
    predicate Counts() {
      !isDiscard && (isRead || isWrite)
    }

    function Start(): nat { sector * SECTOR }

    function End(): nat { Start() + bytes }
  }

  /** Page i is among those the collecting loop runs over for an event. */
  predicate Visited(e: Event, pageSize: nat, i: nat)
    requires pageSize > 0
  {
    e.Counts() && Quot(e.Start(), pageSize) <= i < DivCeil(e.End(), pageSize)
  }

  predicate Touches(e: Event, b: nat) {
    e.sector * 512 <= b < e.sector * 512 + e.bytes
  }

  predicate InPage(b: nat, i: nat, pageSize: nat) {
    Times(i, pageSize) <= b < Times(i, pageSize) + pageSize
  }

  /** Some byte of the event lies in page i. */
  ghost predicate Overlapped(e: Event, pageSize: nat, i: nat) {
    exists b :: Touches(e, b) && InPage(b, i, pageSize)
  }

  /** The collected pages of an event, in terms of bytes. */
  lemma VisitedBytes(e: Event, pageSize: nat, i: nat)
    requires pageSize > 0
    ensures Visited(e, pageSize, i) <==>
              && !e.isDiscard && (e.isRead || e.isWrite)
              && Times(i, pageSize) < e.sector * 512 + e.bytes && e.sector * 512 < Times(i, pageSize) + pageSize
  {
    var first, last := Quot(e.Start(), pageSize), DivCeil(e.End(), pageSize);
    if first <= i { TimesMonotone(first + 1, i + 1, pageSize); } else { TimesMonotone(i + 1, first, pageSize); }
    if i < last { TimesMonotone(i + 1, last, pageSize); } else { TimesMonotone(last, i, pageSize); }
  }

  /**
   Events of positive length are collected exactly where they overlap a page; an empty
   event overlaps nothing and yet collects a page exactly if it lies strictly inside one.
   */
  lemma VisitedExactly(e: Event, pageSize: nat, i: nat)
    requires pageSize > 0
    ensures e.bytes > 0 ==>
              (Visited(e, pageSize, i) <==>
                 !e.isDiscard && (e.isRead || e.isWrite) && Overlapped(e, pageSize, i))
    ensures e.bytes == 0 ==>
              && !Overlapped(e, pageSize, i)
              && (Visited(e, pageSize, i) <==>
                    && !e.isDiscard && (e.isRead || e.isWrite)
                    && Times(i, pageSize) < e.sector * 512 < Times(i, pageSize) + pageSize)
  {
    VisitedBytes(e, pageSize, i);
    if e.bytes > 0 && Visited(e, pageSize, i) {
      var b := if Times(i, pageSize) <= e.Start() then e.Start() else Times(i, pageSize);
      assert Touches(e, b) && InPage(b, i, pageSize);
    }
  }

  /** The loop over the events: page numbers in order of first appearance. */
  method CollectPages(events: seq<Event>, pageSize: nat) returns (pages: seq<nat>)
    requires pageSize > 0
    ensures NoDuplicates(pages)
    ensures forall i: nat :: i in pages <==> Replayed(events, pageSize, i)
    ensures forall i: nat :: i in pages <==>
              exists e :: && e in events && !e.isDiscard && (e.isRead || e.isWrite)
                          && Times(i, pageSize) < e.sector * 512 + e.bytes
                          && e.sector * 512 < Times(i, pageSize) + pageSize
  {
    pages := [];
    for k := 0 to |events|
      invariant NoDuplicates(pages)
      invariant forall i: nat :: i in pages <==> Replayed(events[..k], pageSize, i)
    {
      var e := events[k];
      assert events[..k + 1] == events[..k] + [e];
      ghost var before := pages;
      if e.Counts() {
        var first, last := Quot(e.Start(), pageSize), DivCeil(e.End(), pageSize);
        var i := first;
        while i < last
          invariant first <= i && NoDuplicates(pages)
          invariant forall j :: j in pages <==> j in before || (first <= j < i && j < last)
        {
          if i !in pages {
            pages := pages + [i];
          }
          i := i + 1;
        }
      }
      assert forall i :: i in pages <==> i in before || Visited(e, pageSize, i);
    }
    assert events[..|events|] == events;
    forall i: nat
      ensures Replayed(events, pageSize, i) <==>
                exists e :: && e in events && !e.isDiscard && (e.isRead || e.isWrite)
                            && Times(i, pageSize) < e.sector * 512 + e.bytes
                            && e.sector * 512 < Times(i, pageSize) + pageSize
    {
      ReplayedBytes(events, pageSize, i);
    }
  }

  /** The replayed pages, in terms of bytes. */
  lemma ReplayedBytes(events: seq<Event>, pageSize: nat, i: nat)
    requires pageSize > 0
    ensures Replayed(events, pageSize, i) <==>
              exists e :: && e in events && !e.isDiscard && (e.isRead || e.isWrite)
                          && Times(i, pageSize) < e.sector * 512 + e.bytes
                          && e.sector * 512 < Times(i, pageSize) + pageSize
  {
    forall e | e in events
      ensures Visited(e, pageSize, i) <==>
                && !e.isDiscard && (e.isRead || e.isWrite)
                && Times(i, pageSize) < e.sector * 512 + e.bytes && e.sector * 512 < Times(i, pageSize) + pageSize
    {
      VisitedBytes(e, pageSize, i);
    }
  }

  /** The page a byte lies in. */
  lemma PageOfByte(b: nat, i: nat, pageSize: nat)
    requires pageSize > 0
    ensures Quot(b, pageSize) == i <==> Times(i, pageSize) <= b < Times(i, pageSize) + pageSize
  {
    var q := Quot(b, pageSize);
    if q < i { TimesMonotone(q + 1, i, pageSize); }
    if i < q { TimesMonotone(i + 1, q, pageSize); }
  }

  /** Copying one page through the buffer. */
  method CopyPage(dummy: array<Byte>, device: array<Byte>, offset: nat, pageSize: nat)
    requires dummy != device && offset + pageSize <= dummy.Length == device.Length
    modifies device
    ensures forall b :: 0 <= b < device.Length ==>
              device[b] == if offset <= b < offset + pageSize then dummy[b] else old(device[b])
  {
    var buf := dummy[offset..offset + pageSize];
    for k := 0 to pageSize
      invariant forall b :: 0 <= b < device.Length ==>
                  device[b] == if offset <= b < offset + k then dummy[b] else old(device[b])
    {
      device[offset + k] := buf[k];
    }
  }

  /** The migration loop: stops with an error at the first page that reaches beyond the device. */
  method MigratePages(dummy: array<Byte>, device: array<Byte>, pageSize: nat, pages: seq<nat>) returns (ok: bool)
    requires dummy != device && dummy.Length == device.Length && pageSize > 0
    modifies device
    ensures ok <==> forall i :: i in pages ==> Times(i, pageSize) + pageSize <= device.Length
    ensures forall b :: 0 <= b < device.Length && Quot(b, pageSize) !in pages ==> device[b] == old(device[b])
    ensures ok ==> forall b :: 0 <= b < device.Length && Quot(b, pageSize) in pages ==> device[b] == dummy[b]
  {
    for k := 0 to |pages|
      invariant forall i :: i in pages[..k] ==> Times(i, pageSize) + pageSize <= device.Length
      invariant forall b :: 0 <= b < device.Length ==>
                  device[b] == if Quot(b, pageSize) in pages[..k] then dummy[b] else old(device[b])
    {
      var offset := Times(pages[k], pageSize);
      if offset + pageSize > dummy.Length {
        assert pages[k] in pages;
        return false;
      }
      CopyPage(dummy, device, offset, pageSize);
      assert pages[..k + 1] == pages[..k] + [pages[k]];
      forall b | 0 <= b < device.Length
        ensures Quot(b, pageSize) == pages[k] <==> offset <= b < offset + pageSize
      {
        PageOfByte(b, pages[k], pageSize);
      }
    }
    assert pages[..|pages|] == pages;
    ok := true;
  }

  lemma PageFits(i: nat, pageSize: nat, pageCount: nat)
    requires pageSize > 0
    ensures i < pageCount <==> Times(i, pageSize) + pageSize <= Times(pageCount, pageSize)
  {
    if pageCount <= i { TimesMonotone(pageCount, i, pageSize); } else { TimesMonotone(i + 1, pageCount, pageSize); }
  }

  /** Page i belongs to an event that is replayed. */
  ghost predicate Replayed(events: seq<Event>, pageSize: nat, i: nat)
    requires pageSize > 0
  {
    exists e :: e in events && Visited(e, pageSize, i)
  }

  /** Every byte that an event reads or writes lies in a replayed page. */
  lemma TouchedIsReplayed(events: seq<Event>, pageSize: nat, e: Event, b: nat)
    requires pageSize > 0 && e in events && !e.isDiscard && (e.isRead || e.isWrite)
    requires e.sector * 512 <= b < e.sector * 512 + e.bytes
    ensures Replayed(events, pageSize, Quot(b, pageSize))
  {
    VisitedBytes(e, pageSize, Quot(b, pageSize));
  }

  lemma PageStart(b: nat, pageSize: nat)
    requires pageSize > 0
    ensures Times(Quot(b, pageSize), pageSize) == b - b % pageSize
  {
    QuotIs(b, pageSize);
    TimesIs(Quot(b, pageSize), pageSize);
  }

  /** The page around byte b meets no event that counts. */
  ghost predicate Clear(events: seq<Event>, pageSize: nat, b: nat)
    requires pageSize > 0
  {
    forall e :: e in events && !e.isDiscard && (e.isRead || e.isWrite) ==>
      e.sector * 512 + e.bytes <= b - b % pageSize || b - b % pageSize + pageSize <= e.sector * 512
  }

  lemma ClearNotReplayed(events: seq<Event>, pageSize: nat, b: nat)
    requires pageSize > 0
    ensures Clear(events, pageSize, b) <==> !Replayed(events, pageSize, Quot(b, pageSize))
  {
    PageStart(b, pageSize);
    ReplayedBytes(events, pageSize, Quot(b, pageSize));
  }

  /** An event stays on a device of that length: it ends there, or is empty and starts there or between two pages. */
  predicate OnDevice(e: Event, pageSize: nat, length: nat)
    requires pageSize > 0
  {
    if e.bytes > 0 then e.sector * 512 + e.bytes <= length
    else e.sector * 512 <= length || e.sector * 512 % pageSize == 0
  }

  /** Exactly the events that stay on a device of whole pages concern only its pages. */
  lemma EventOnDevice(e: Event, pageSize: nat, pageCount: nat)
    requires pageSize > 0 && !e.isDiscard && (e.isRead || e.isWrite)
    ensures (forall i: nat :: Visited(e, pageSize, i) ==> i < pageCount) <==>
              OnDevice(e, pageSize, Times(pageCount, pageSize))
  {
    forall i: nat
      ensures Visited(e, pageSize, i) && OnDevice(e, pageSize, Times(pageCount, pageSize)) ==> i < pageCount
    {
      VisitedBytes(e, pageSize, i);
      if pageCount <= i {
        TimesMonotone(pageCount, i, pageSize);
        BetweenPages(e.sector * 512, i, pageSize);
      }
    }
    if !OnDevice(e, pageSize, Times(pageCount, pageSize)) {
      var last := if e.bytes > 0 then e.sector * 512 + e.bytes - 1 else e.sector * 512;
      var i := Quot(last, pageSize);
      PageStart(last, pageSize);
      VisitedBytes(e, pageSize, i);
      if i < pageCount {
        TimesMonotone(i + 1, pageCount, pageSize);
      }
    }
  }

  /** A byte strictly inside a page is no multiple of the page size. */
  lemma BetweenPages(b: nat, i: nat, pageSize: nat)
    requires pageSize > 0
    ensures Times(i, pageSize) < b < Times(i, pageSize) + pageSize ==> b % pageSize != 0
  {
    PageOfByte(b, i, pageSize);
    PageStart(b, pageSize);
  }

  /** Exactly if all events stay on the device, only its pages are replayed. */
  lemma EventsOnDevice(events: seq<Event>, pageSize: nat, pageCount: nat)
    requires pageSize > 0
    ensures (forall i: nat :: Replayed(events, pageSize, i) ==> i < pageCount) <==>
              forall e :: e in events && !e.isDiscard && (e.isRead || e.isWrite) ==>
                OnDevice(e, pageSize, Times(pageCount, pageSize))
  {
    forall e | e in events && !e.isDiscard && (e.isRead || e.isWrite)
      ensures (forall i: nat :: Visited(e, pageSize, i) ==> i < pageCount) <==>
                OnDevice(e, pageSize, Times(pageCount, pageSize))
    {
      EventOnDevice(e, pageSize, pageCount);
    }
    forall e, i: nat | e in events && Visited(e, pageSize, i)
      ensures Replayed(events, pageSize, i) && !e.isDiscard && (e.isRead || e.isWrite)
    {
    }
  }

  /**
   The whole replay on a device of whole pages: it succeeds exactly if all events stay on the
   device; then the real device agrees with the dummy wherever an event read or wrote, and on
   the rest of those pages; and in any case it is untouched elsewhere.
   */
  method Replay(events: seq<Event>, dummy: array<Byte>, device: array<Byte>, pageSize: nat, ghost pageCount: nat)
    returns (ok: bool)
    requires dummy != device && pageSize > 0 && dummy.Length == device.Length == Times(pageCount, pageSize)
    modifies device
    ensures ok <==> forall e :: e in events && !e.isDiscard && (e.isRead || e.isWrite) ==>
                      if e.bytes > 0 then e.sector * 512 + e.bytes <= device.Length
                      else e.sector * 512 <= device.Length || e.sector * 512 % pageSize == 0
    ensures ok ==> forall e, b :: && e in events && !e.isDiscard && (e.isRead || e.isWrite)
                                  && e.sector * 512 <= b < e.sector * 512 + e.bytes && 0 <= b < device.Length ==>
                     device[b] == dummy[b]
    ensures ok ==> forall b :: 0 <= b < device.Length && Replayed(events, pageSize, Quot(b, pageSize)) ==>
                     device[b] == dummy[b]
    ensures forall b :: && 0 <= b < device.Length
                        && (forall e :: e in events && !e.isDiscard && (e.isRead || e.isWrite) ==>
                              || e.sector * 512 + e.bytes <= b - b % pageSize
                              || b - b % pageSize + pageSize <= e.sector * 512) ==>
              device[b] == old(device[b])
  {
    var pages := CollectPages(events, pageSize);
    forall i | i in pages
      ensures i < pageCount <==> Times(i, pageSize) + pageSize <= device.Length
    {
      PageFits(i, pageSize, pageCount);
    }
    EventsOnDevice(events, pageSize, pageCount);
    ok := MigratePages(dummy, device, pageSize, pages);
    forall b | 0 <= b < device.Length
      ensures Clear(events, pageSize, b) <==> Quot(b, pageSize) !in pages
    {
      ClearNotReplayed(events, pageSize, b);
    }
    if ok {
      forall e, b | e in events && !e.isDiscard && (e.isRead || e.isWrite) && 0 <= b < device.Length
                    && e.sector * 512 <= b < e.sector * 512 + e.bytes
        ensures device[b] == dummy[b]
      {
        TouchedIsReplayed(events, pageSize, e, b);
      }
    }
  }
}
