/** Mapping the kernel heap at boot (src/allocator.rs). */
module Heap {
  import opened Prelude
  import opened Frames

  const HEAP_START: nat := 0x4444_4444_0000
  const HEAP_SIZE: nat := 8 * 1024 * 1024

  /** `Page::containing_address` of the first and last heap byte. */
  const FIRST_PAGE: nat := HEAP_START / FRAME_SIZE
  const LAST_PAGE: nat := (HEAP_START + HEAP_SIZE - 1) / FRAME_SIZE
  const PAGES: nat := LAST_PAGE - FIRST_PAGE + 1

  /** The pages mapped are exactly those that hold a byte of the heap's 8 MiB: 2048 pages. */
  lemma PagesExactly(p: nat)
    ensures FIRST_PAGE <= p <= LAST_PAGE
      <==> exists address :: 0x4444_4444_0000 <= address < 0x4444_4444_0000 + 8 * 1024 * 1024 && address / 4096 == p
    ensures PAGES == 2048
  {
    if FIRST_PAGE <= p <= LAST_PAGE {
      assert (4096 * p) / 4096 == p;
    }
  }

  datatype MapError = FrameAllocationFailed | ParentEntryHugePage | PageAlreadyMapped
  datatype Result = Ok | Err(error: MapError)

  /**
   * What `map_to` does for one page: it asks the same allocator for `tables` page-table frames, gives up
   * if one is missing, and may refuse the page for its own reasons.
   */
  datatype MapCall = MapCall(tables: nat, refusal: Option<MapError>)

  class Mapper {
    var mapping: map<nat, nat>
    var tableFrames: seq<nat>

    constructor ()
      ensures mapping == map[] && tableFrames == []
    {
      mapping := map[];
      tableFrames := [];
    }

    method MapTo(page: nat, frame: nat, call: MapCall, allocator: FrameAllocator) returns (r: Result)
      requires allocator.next <= Total(allocator)
      modifies this, allocator
      ensures r.Ok? <==> call.refusal.None? && old(allocator.next) + call.tables <= Total(allocator)
      ensures r.Err? ==> mapping == old(mapping)
      ensures r.Err? ==>
        r.error == if old(allocator.next) + call.tables > Total(allocator)
                   then FrameAllocationFailed else call.refusal.value
      ensures r.Ok? ==> mapping == old(mapping)[page := frame] && allocator.next == old(allocator.next) + call.tables
      ensures r.Ok? ==>
        tableFrames == old(tableFrames) + UsableFrames(allocator.memoryMap)[old(allocator.next)..allocator.next]
    {
      ghost var start, frames := allocator.next, UsableFrames(allocator.memoryMap);
      var t := 0;
      while t < call.tables
        invariant t <= call.tables && allocator.next == start + t <= |frames|
        invariant mapping == old(mapping) && tableFrames == old(tableFrames) + frames[start..start + t]
      {
        var table := allocator.AllocateFrame();
        if table.None? {
          return Err(FrameAllocationFailed);
        }
        assert frames[start..start + t + 1] == frames[start..start + t] + [table.value];
        tableFrames := tableFrames + [table.value];
        t := t + 1;
      }
      if call.refusal.Some? {
        return Err(call.refusal.value);
      }
      mapping := mapping[page := frame];
      return Ok;
    }
  }

  ghost function Total(allocator: FrameAllocator): nat {
    |UsableFrames(allocator.memoryMap)|
  }

  /** Where in the list of usable frames page `j`'s own frame comes from. */
  ghost function FrameIndex(start: nat, calls: seq<MapCall>, j: nat): nat
    requires j <= |calls|
  {
    if j == 0 then start else FrameIndex(start, calls, j - 1) + 1 + calls[j - 1].tables
  }

  /** The frames taken for page tables while the first `j` pages were mapped. */
  ghost function TableFrames(frames: seq<nat>, start: nat, calls: seq<MapCall>, j: nat): seq<nat>
    requires j <= |calls| && FrameIndex(start, calls, j) <= |frames|
  {
    if j == 0 then []
    else
      var own := FrameIndex(start, calls, j - 1);
      TableFrames(frames, start, calls, j - 1) + frames[own + 1..own + 1 + calls[j - 1].tables]
  }

  lemma {:induction false} FrameIndexGrows(start: nat, calls: seq<MapCall>, i: nat, j: nat)
    requires i < j <= |calls|
    ensures FrameIndex(start, calls, i) + 1 + calls[i].tables <= FrameIndex(start, calls, j)
    decreases j
  {
    if i < j - 1 {
      FrameIndexGrows(start, calls, i, j - 1);
    }
  }

  /** The page is mapped as before, or not at all as before. */
  ghost predicate SameAt(now: map<nat, nat>, before: map<nat, nat>, p: nat) {
    (p in now <==> p in before) && (p in now ==> now[p] == before[p])
  }

  /** Heap page `j` is mapped to the frame at its place in the list. */
  ghost predicate HasOwnFrame(mapping: map<nat, nat>, frames: seq<nat>, start: nat, calls: seq<MapCall>, j: nat)
    requires j <= |calls|
  {
    && FrameIndex(start, calls, j) < |frames|
    && FIRST_PAGE + j in mapping && mapping[FIRST_PAGE + j] == frames[FrameIndex(start, calls, j)]
  }

  /** The first `j` heap pages are mapped to their frames, and pages outside the heap as in `before`. */
  ghost predicate MapsHeap(now: map<nat, nat>, before: map<nat, nat>, frames: seq<nat>, start: nat,
                           calls: seq<MapCall>, j: nat)
    requires j <= |calls|
  {
    && (forall i :: 0 <= i < j ==> HasOwnFrame(now, frames, start, calls, i))
    && (forall p: nat :: !(FIRST_PAGE <= p <= LAST_PAGE) ==> SameAt(now, before, p))
  }

  lemma MapsOneMore(now: map<nat, nat>, before: map<nat, nat>, frames: seq<nat>, start: nat, calls: seq<MapCall>,
                    j: nat)
    requires j < PAGES <= |calls| && MapsHeap(now, before, frames, start, calls, j)
    requires FrameIndex(start, calls, j) < |frames|
    ensures MapsHeap(now[FIRST_PAGE + j := frames[FrameIndex(start, calls, j)]], before, frames, start, calls, j + 1)
  {
    var next := now[FIRST_PAGE + j := frames[FrameIndex(start, calls, j)]];
    forall i | 0 <= i < j + 1
      ensures HasOwnFrame(next, frames, start, calls, i)
    {
      assert i < j ==> HasOwnFrame(now, frames, start, calls, i);
    }
    forall p: nat | !(FIRST_PAGE <= p <= LAST_PAGE)
      ensures SameAt(next, before, p)
    {
      assert SameAt(now, before, p) && p != FIRST_PAGE + j;
    }
  }

  /** Where `init_heap` stands before heap page `j`. */
  ghost predicate Progress(now: map<nat, nat>, before: map<nat, nat>, tables: seq<nat>, next: nat, frames: seq<nat>,
                           start: nat, calls: seq<MapCall>, j: nat)
    requires j <= |calls|
  {
    && next == FrameIndex(start, calls, j) && (j > 0 ==> next <= |frames|)
    && MapsHeap(now, before, frames, start, calls, j)
    && (next <= |frames| ==> tables == TableFrames(frames, start, calls, j))
  }

  lemma OnePageOn(now: map<nat, nat>, before: map<nat, nat>, tables: seq<nat>, next: nat, frames: seq<nat>,
                  start: nat, calls: seq<MapCall>, j: nat)
    requires j < PAGES <= |calls| && Progress(now, before, tables, next, frames, start, calls, j)
    requires next + 1 + calls[j].tables <= |frames|
    ensures Progress(now[FIRST_PAGE + j := frames[next]], before, tables + frames[next + 1..next + 1 + calls[j].tables],
                     next + 1 + calls[j].tables, frames, start, calls, j + 1)
  {
    MapsOneMore(now, before, frames, start, calls, j);
  }

  /** One page of the heap: a frame for the page itself, then the page tables it needs. */
  method MapPage(mapper: Mapper, allocator: FrameAllocator, page: nat, call: MapCall) returns (r: Result)
    modifies mapper, allocator
    ensures r.Ok? <==> call.refusal.None? && old(allocator.next) + 1 + call.tables <= Total(allocator)
    ensures r.Err? ==> mapper.mapping == old(mapper.mapping)
    ensures r.Err? ==>
      r.error == if old(allocator.next) + 1 + call.tables > Total(allocator)
                 then FrameAllocationFailed else call.refusal.value
    ensures r.Ok? ==>
      var frames, own := UsableFrames(allocator.memoryMap), old(allocator.next);
      && allocator.next == own + 1 + call.tables
      && mapper.mapping == old(mapper.mapping)[page := frames[own]]
      && mapper.tableFrames == old(mapper.tableFrames) + frames[own + 1..own + 1 + call.tables]
  {
    var frame := allocator.AllocateFrame();
    if frame.None? {
      return Err(FrameAllocationFailed);
    }
    r := mapper.MapTo(page, frame.value, call, allocator);
  }

  /** The body of the page loop. */
  method MapNext(mapper: Mapper, allocator: FrameAllocator, calls: seq<MapCall>, j: nat,
                 ghost before: map<nat, nat>, ghost start: nat)
    returns (r: Result)
    requires j < PAGES <= |calls|
    requires Progress(mapper.mapping, before, mapper.tableFrames, allocator.next,
                      UsableFrames(allocator.memoryMap), start, calls, j)
    modifies mapper, allocator
    ensures r.Ok? <==> calls[j].refusal.None? && FrameIndex(start, calls, j + 1) <= Total(allocator)
    ensures r.Ok? ==>
      Progress(mapper.mapping, before, mapper.tableFrames, allocator.next,
               UsableFrames(allocator.memoryMap), start, calls, j + 1)
    ensures r.Err? ==> mapper.mapping == old(mapper.mapping)
  {
    ghost var now, tables, next := mapper.mapping, mapper.tableFrames, allocator.next;
    r := MapPage(mapper, allocator, FIRST_PAGE + j, calls[j]);
    if r.Ok? {
      OnePageOn(now, before, tables, next, UsableFrames(allocator.memoryMap), start, calls, j);
    }
  }

  /**
   * Maps every heap page in order. It succeeds exactly when no page is refused and the memory map holds
   * a frame for each page and each page table; page `j` then has the frame at its own place in the list.
   */
  method InitHeap(mapper: Mapper, allocator: FrameAllocator, calls: seq<MapCall>) returns (r: Result)
    requires |calls| == PAGES && mapper.tableFrames == []
    modifies mapper, allocator
    ensures r.Ok? <==>
      (forall j :: 0 <= j < PAGES ==> calls[j].refusal.None?)
        && FrameIndex(old(allocator.next), calls, PAGES) <= Total(allocator)
    ensures r.Ok? ==>
      MapsHeap(mapper.mapping, old(mapper.mapping), UsableFrames(allocator.memoryMap), old(allocator.next),
               calls, PAGES)
    ensures r.Ok? ==>
      mapper.tableFrames == TableFrames(UsableFrames(allocator.memoryMap), old(allocator.next), calls, PAGES)
    ensures forall p: nat :: !(FIRST_PAGE <= p <= LAST_PAGE) ==> SameAt(mapper.mapping, old(mapper.mapping), p)
  {
    ghost var start, frames, before := allocator.next, UsableFrames(allocator.memoryMap), mapper.mapping;
    var j := 0;
    while j < PAGES
      invariant j <= PAGES
      invariant forall i :: 0 <= i < j ==> calls[i].refusal.None?
      invariant Progress(mapper.mapping, before, mapper.tableFrames, allocator.next, frames, start, calls, j)
    {
      FrameIndexGrows(start, calls, j, PAGES);
      var mapped := MapNext(mapper, allocator, calls, j, before, start);
      if mapped.Err? {
        return mapped;
      }
      j := j + 1;
    }
    return Ok;
  }

  lemma {:induction false} TableFrameIndex(frames: seq<nat>, start: nat, calls: seq<MapCall>, j: nat, f: nat)
    returns (at: nat)
    requires j <= |calls| && FrameIndex(start, calls, j) <= |frames| && f in TableFrames(frames, start, calls, j)
    ensures at < |frames| && frames[at] == f
    ensures forall i :: 0 <= i <= |calls| ==> FrameIndex(start, calls, i) != at
    decreases j
  {
    var own := FrameIndex(start, calls, j - 1);
    var last := frames[own + 1..own + 1 + calls[j - 1].tables];
    if f in last {
      var t :| 0 <= t < |last| && last[t] == f;
      at := own + 1 + t;
      forall i | 0 <= i <= |calls|
        ensures FrameIndex(start, calls, i) != at
      {
        if i < j - 1 {
          FrameIndexGrows(start, calls, i, j - 1);
        } else if i > j {
          FrameIndexGrows(start, calls, j, i);
        }
      }
    } else {
      at := TableFrameIndex(frames, start, calls, j - 1, f);
    }
  }

  /**
   * The heap mapping is total and injective: when `init_heap` succeeds over a memory map without shared frames,
   * every page that holds a heap byte is mapped, to a frame no other heap page has and no page table uses.
   */
  lemma HeapFramesAreItsOwn(regions: seq<Region>, start: nat, calls: seq<MapCall>,
                            mapping: map<nat, nat>, before: map<nat, nat>)
    requires NoDup(UsableFrames(regions)) && |calls| == PAGES
      && FrameIndex(start, calls, PAGES) <= |UsableFrames(regions)|
    requires MapsHeap(mapping, before, UsableFrames(regions), start, calls, PAGES)
    ensures forall address :: HEAP_START <= address < HEAP_START + HEAP_SIZE ==>
      FIRST_PAGE <= address / FRAME_SIZE <= LAST_PAGE
    ensures forall p :: FIRST_PAGE <= p <= LAST_PAGE ==> p in mapping
    ensures forall p, q :: FIRST_PAGE <= p < q <= LAST_PAGE ==> mapping[p] != mapping[q]
    ensures forall p :: FIRST_PAGE <= p <= LAST_PAGE ==>
      mapping[p] !in TableFrames(UsableFrames(regions), start, calls, PAGES)
  {
    var frames := UsableFrames(regions);
    forall p | FIRST_PAGE <= p <= LAST_PAGE
      ensures p in mapping
    {
      assert HasOwnFrame(mapping, frames, start, calls, p - FIRST_PAGE);
    }
    forall p, q | FIRST_PAGE <= p < q <= LAST_PAGE
      ensures mapping[p] != mapping[q]
    {
      var a, b := p - FIRST_PAGE, q - FIRST_PAGE;
      assert HasOwnFrame(mapping, frames, start, calls, a) && HasOwnFrame(mapping, frames, start, calls, b);
      FrameIndexGrows(start, calls, a, b);
    }
    forall p | FIRST_PAGE <= p <= LAST_PAGE
      ensures mapping[p] !in TableFrames(frames, start, calls, PAGES)
    {
      assert HasOwnFrame(mapping, frames, start, calls, p - FIRST_PAGE);
      if mapping[p] in TableFrames(frames, start, calls, PAGES) {
        var at := TableFrameIndex(frames, start, calls, PAGES, mapping[p]);
      }
    }
  }
}
