/** `lib_regmap_t` in the form of the source: the page table, the 16-bit pointer and the
    latch as fields, over snapshot objects that the operations update in place. Each method
    is proved against the operation of module RegisterMap that it implements. */
module Registers {
  import opened Bits
  import opened Options
  import opened SnapshotWord
  import opened R = RegisterMap
  import opened S = Snapshot
  import M = SnapshotMachine

  /** No two snapshots share what their readers write. */
  ghost predicate Apart(snapshots: seq<Snapshot>) {
    forall i, j :: 0 <= i < j < |snapshots| ==>
      snapshots[i] != snapshots[j] && snapshots[i].state != snapshots[j].state
  }

  /** All the storage of a snapshot, and the core it is on. */
  ghost function StorageOf(s: Snapshot): set<object> {
    {s, s.zero, s.one, s.state, s.state.core}
  }

  ghost function Storage(snapshots: seq<Snapshot>): set<object> {
    set s, o | s in snapshots && o in StorageOf(s) :: o
  }

  /** The snapshot objects are valid, have this map as their one reader, and have reached
      these states. */
  ghost predicate Show(snapshots: seq<Snapshot>, states: seq<M.State>)
    reads Storage(snapshots)
  {
    && |snapshots| == |states|
    && forall i :: 0 <= i < |snapshots| ==> ShowsOne(snapshots, i, states[i])
  }

  ghost predicate ShowsOne(snapshots: seq<Snapshot>, i: nat, state: M.State)
    reads Storage(snapshots)
    requires i < |snapshots|
  {
    var s := snapshots[i];
    assert StorageOf(s) <= Storage(snapshots);
    s.Valid() && |s.latches| == 1 && s.Now() == state
  }

  lemma {:induction false} TheReader(s: Snapshot)
    requires s.Valid() && |s.latches| == 1
    ensures s.states != [] && |s.Now().readers| == 1 && S.LatchAgrees(s.latches[0], s.Now().readers[0])
  {
  }

  /** The reader's release and acquire on the k-th snapshot; the others stay as they are. */
  method ReleaseOne(snapshots: seq<Snapshot>, k: nat, ghost states: seq<M.State>)
    requires Apart(snapshots) && Show(snapshots, states) && k < |snapshots|
    requires |states[k].readers| == 1 && states[k].readers[0].Holding?
    modifies Storage(snapshots)
    ensures Show(snapshots, states[k := M.Left(states[k], 0)])
  {
    hide M.Next, M.IsRun, LatchesAgree, BitAnd, BitXor, ShiftRight;
    var s := snapshots[k];
    assert ShowsOne(snapshots, k, states[k]) && StorageOf(s) <= Storage(snapshots);
    TheReader(s);
    s.Release(0);
    forall i | 0 <= i < |snapshots| && i != k
      ensures ShowsOne(snapshots, i, states[i])
    {
      assert old(ShowsOne(snapshots, i, states[i]));
    }
  }

  method AcquireOne(snapshots: seq<Snapshot>, k: nat, fails: nat, ghost states: seq<M.State>)
    returns (ok: bool, buffer: Buffer)
    requires Apart(snapshots) && Show(snapshots, states) && k < |snapshots|
    requires |states[k].readers| == 1 && states[k].readers[0].Outside?
    modifies Storage(snapshots)
    ensures ok == (ReaderCount(states[k].word, ActiveBit(states[k].word)) != READER_MASK)
    ensures ok ==> buffer == ActiveBit(states[k].word) && states[k].versions != []
    ensures Show(snapshots, if ok then states[k := M.Entered(states[k], 0)] else states)
  {
    hide M.Next, M.IsRun, LatchesAgree, BitAnd, BitXor, ShiftRight;
    var s := snapshots[k];
    assert ShowsOne(snapshots, k, states[k]) && StorageOf(s) <= Storage(snapshots);
    TheReader(s);
    ok, buffer := s.Acquire(0, fails);
    forall i | 0 <= i < |snapshots| && i != k
      ensures ShowsOne(snapshots, i, states[i])
    {
      assert old(ShowsOne(snapshots, i, states[i]));
    }
  }

  class Registers {
    var pages: seq<Page>
    var snapshots: seq<Snapshot>
    var currentAddress: uint16
    var latchedPage: Option<nat>
    var latchedBuffer: Buffer
    ghost var offers: seq<Offer>

    constructor ()
      ensures pages == [] && snapshots == [] && latchedPage == None && offers == []
    {
      pages, snapshots, currentAddress, latchedPage, latchedBuffer, offers := [], [], 0, None, 0, [];
    }

    /** What the operations may change. */
    ghost function Footprint(): set<object>
      reads this
    {
      {this} + Storage(snapshots)
    }

    /** The fields are those of m. */
    ghost predicate Fields(m: Map)
      reads this
    {
      && pages == m.pages && currentAddress == m.address && offers == m.offers
      && match m.latch
         case Unlatched => latchedPage == None
         case Latched(p, b) => latchedPage == Some(p) && latchedBuffer == b
    }

    /** Fields and snapshots are those of m. */
    ghost predicate Is(m: Map)
      reads Footprint()
    {
      this !in Storage(snapshots) && Apart(snapshots) && Show(snapshots, m.snapshots) && Fields(m)
    }

    /** The map's acquire and release on the k-th snapshot, before the latch is noted. */
    method AcquireOf(ghost m: Map, k: nat, fails: nat) returns (ok: bool, buffer: Buffer)
      requires Is(m) && k < |m.snapshots| && |m.snapshots[k].readers| == 1 && m.snapshots[k].readers[0].Outside?
      modifies Footprint()
      ensures snapshots == old(snapshots)
      ensures ok == (ReaderCount(m.snapshots[k].word, ActiveBit(m.snapshots[k].word)) != READER_MASK)
      ensures ok ==> buffer == ActiveBit(m.snapshots[k].word) && m.snapshots[k].versions != []
      ensures Is(if ok then Replace(m, k, M.Entered(m.snapshots[k], 0)) else m)
    {
      ok, buffer := AcquireOne(snapshots, k, fails, m.snapshots);
    }

    method ReleaseOf(ghost m: Map, k: nat)
      requires Is(m) && k < |m.snapshots| && |m.snapshots[k].readers| == 1 && m.snapshots[k].readers[0].Holding?
      modifies Footprint()
      ensures snapshots == old(snapshots)
      ensures Is(Replace(m, k, M.Left(m.snapshots[k], 0)))
    {
      ReleaseOne(snapshots, k, m.snapshots);
    }

    /** Notes the latch, and nothing else. */
    method Note(ghost m: Map, page: Option<nat>, buffer: Buffer)
      requires Is(m)
      modifies this
      ensures Is(m.(latch := if page.Some? then R.Latched(page.value, buffer) else Unlatched))
      ensures snapshots == old(snapshots)
    {
      latchedPage, latchedBuffer := page, buffer;
    }

    /** `lib_regmap_end_read`; `lib_regmap_begin_read` does the same. */
    method EndRead(ghost m: Map)
      requires Is(m) && R.Inv(m)
      modifies Footprint()
      ensures Is(R.EndRead(m)) && snapshots == old(snapshots)
    {
      if latchedPage.Some? {
        LatchedReader(m);
        var k := pages[latchedPage.value].snapshot;
        ReleaseOf(m, k);
        Note(Replace(m, k, M.Left(m.snapshots[k], 0)), None, 0);
      }
    }

    /** `lib_regmap_find_page`. */
    method FindPage(address: uint16) returns (page: Option<nat>)
      ensures page == R.FindPage(pages, address)
      ensures page.Some? ==> page.value < |pages| && Within(pages[page.value], address)
      ensures forall q :: 0 <= q < (if page.Some? then page.value else |pages|) && q < |pages| ==>
                !Within(pages[q], address)
    {
      for index := 0 to |pages|
        invariant R.FindPage(pages, address) == FindFrom(pages, address, index)
        invariant forall q :: 0 <= q < index ==> !Within(pages[q], address)
      {
        if pages[index].Contains(address) {
          return Some(index);
        }
      }
      return None;
    }

    /** Moves the pointer, and nothing else. */
    method MoveTo(ghost m: Map, address: uint16)
      requires Is(m)
      modifies this
      ensures Is(m.(address := address)) && snapshots == old(snapshots)
    {
      currentAddress := address;
    }

    /** Latches the page that holds the address: the first half of `lib_regmap_read_current`. */
    method Relatch(ghost m: Map, fails: nat)
      requires Is(m) && R.Inv(m)
      modifies Footprint()
      ensures Is(R.Relatch(m)) && snapshots == old(snapshots)
    {
      hide R.Relatch, R.EndRead, R.Acquire, R.Inv, Show, Apart, BitAnd, BitXor, ShiftRight;
      ghost var parts := RelatchParts(m);
      var page := FindPage(currentAddress);
      if page != latchedPage {
        EndRead(m);
        if page.Some? {
          Latch(R.EndRead(m), page.value, fails);
        }
      }
    }

    method Latch(ghost m: Map, page: nat, fails: nat)
      requires Is(m) && CanLatch(m, page)
      modifies Footprint()
      ensures Is(Taken(m, page)) && snapshots == old(snapshots)
    {
      var k := pages[page].snapshot;
      var ok, buffer := AcquireOf(m, k, fails);
      if ok {
        Note(Replace(m, k, M.Entered(m.snapshots[k], 0)), Some(page), buffer);
      }
    }

    /** The latched byte at the address, or the value of an unmapped one. */
    method LatchedByte(ghost m: Map) returns (value: byte)
      requires Is(m) && Covered(m)
      ensures value == ByteAt(m)
    {
      value := UNMAPPED_VALUE;
      if latchedPage.Some? {
        var page := pages[latchedPage.value];
        value := ByteOf(snapshots, page.snapshot, latchedBuffer, currentAddress - page.first, m.snapshots);
      }
    }

    /** `lib_regmap_read_current`. */
    method ReadCurrent(ghost m: Map, fails: nat) returns (value: byte)
      requires Is(m) && R.Inv(m)
      modifies Footprint()
      ensures Is(R.ReadCurrent(m).after) && snapshots == old(snapshots)
      ensures value == R.ReadCurrent(m).value
    {
      hide R.ReadCurrent, R.Relatch, BitAnd, BitXor, ShiftRight;
      ghost var n := ReadParts(m);
      Relatch(m, fails);
      value := LatchedByte(n);
      MoveTo(n, Add16(currentAddress, 1));
    }

    /** `lib_regmap_write_current`; `accepts` is the answer of the page's callback. */
    method WriteCurrent(ghost m: Map, value: byte, accepts: bool) returns (result: WriteResult)
      requires Is(m) && R.Inv(m)
      modifies Footprint()
      ensures Is(R.WriteCurrent(m, value)) && snapshots == old(snapshots)
      ensures result == if R.WriteCurrent(m, value).offers == m.offers then Ignored
                        else if accepts then Queued else Rejected
    {
      ghost var n := WriteParts(m, value);
      EndRead(m);
      result := Offered(n, value, accepts);
      MoveTo(AfterOffer(n, value), Add16(currentAddress, 1));
    }

    /** The part of `lib_regmap_write_current` between the release and the increment. */
    method Offered(ghost m: Map, value: byte, accepts: bool) returns (result: WriteResult)
      requires Is(m)
      modifies this`offers
      ensures Is(AfterOffer(m, value))
      ensures result == if AfterOffer(m, value).offers == m.offers then Ignored
                        else if accepts then Queued else Rejected
    {
      var page := FindPage(currentAddress);
      FindFromMeans(pages, currentAddress, 0);
      if page.Some? && pages[page.value].access == ReadWrite {
        offers := offers + [Offer(page.value, currentAddress, value)];
        return if accepts then Queued else Rejected;
      }
      return Ignored;
    }

    /** `lib_regmap_set_address`. */
    method SetAddress(ghost m: Map, address: uint16)
      requires Is(m) && R.Inv(m)
      modifies Footprint()
      ensures Is(R.SetAddress(m, address)) && snapshots == old(snapshots)
    {
      EndRead(m);
      MoveTo(R.EndRead(m), address);
    }

    /** `lib_regmap_init`: the loop compares each page only with the one before it. A table
        that is refused leaves the map as it was. */
    method Init(table: seq<Page>, data: seq<Snapshot>, ghost states: seq<M.State>) returns (ok: bool)
      requires Apart(data) && Show(data, states) && this !in Storage(data)
      requires SnapshotsOk(states) && forall i :: 0 <= i < |states| ==> states[i].readers[0].Outside?
      modifies this
      ensures ok <==> PagesOk(table, states)
      ensures !ok ==> unchanged(this)
      ensures ok ==> Is(Map(table, states, 0, Unlatched, [])) && R.Inv(Map(table, states, 0, Unlatched, []))
    {
      ok := Accepts(table, data, states);
      if ok {
        SetUp(table, data, states);
        FreshMap(table, states);
      }
    }

    method SetUp(table: seq<Page>, data: seq<Snapshot>, ghost states: seq<M.State>)
      requires Apart(data) && Show(data, states) && this !in Storage(data)
      modifies this
      ensures Is(Map(table, states, 0, Unlatched, []))
    {
      pages, snapshots, currentAddress, latchedPage, latchedBuffer, offers := table, data, 0, None, 0, [];
    }
  }

  lemma {:induction false} FreshMap(table: seq<Page>, states: seq<M.State>)
    requires PagesOk(table, states) && SnapshotsOk(states)
    requires forall i :: 0 <= i < |states| ==> states[i].readers[0].Outside?
    ensures R.Inv(Map(table, states, 0, Unlatched, []))
  {
  }

  method Accepts(table: seq<Page>, data: seq<Snapshot>, ghost states: seq<M.State>) returns (ok: bool)
    requires Show(data, states)
    ensures ok <==> PagesOk(table, states)
  {
    if table == [] {
      return false;
    }
    var previousEnd := 0;
    for index := 0 to |table|
      invariant InOrder(table, states, index)
      invariant if index > 0 then previousEnd == table[index - 1].End() else previousEnd == 0
    {
      var page := table[index];
      ok := PassesAlone(page, data, states);
      OneMoreInOrder(table, states, index);
      if !ok || page.first < previousEnd {
        return false;
      }
      previousEnd := page.End();
    }
    return true;
  }

  /** The first n pages of a table are well formed, disjoint and in ascending order. */
  ghost predicate InOrder(table: seq<Page>, states: seq<M.State>, n: nat)
    requires n <= |table|
  {
    && (forall i :: 0 <= i < n ==> PageOk(table[i], states))
    && (forall i, j :: 0 <= i < j < n ==> table[i].End() <= table[j].first)
  }

  lemma {:induction false} OneMoreInOrder(table: seq<Page>, states: seq<M.State>, n: nat)
    requires n < |table| && InOrder(table, states, n)
    ensures InOrder(table, states, n + 1)
            <==> PageOk(table[n], states) && (n > 0 ==> table[n - 1].End() <= table[n].first)
    ensures !InOrder(table, states, n + 1) ==> !InOrder(table, states, |table|)
  {
    if PageOk(table[n], states) && n > 0 && table[n - 1].End() <= table[n].first {
      forall i | 0 <= i < n
        ensures table[i].End() <= table[n].first
      {
        if i < n - 1 {
          assert table[i].End() <= table[n - 1].first;
        }
      }
    }
  }

  /** The address is one of the page's. */
  predicate Within(page: Page, address: uint16) { page.first <= address < page.first + page.length }

  /** One page by itself, in numbers. */
  ghost predicate Sound(page: Page, states: seq<M.State>) {
    && page.length >= 1 && page.first + page.length <= 0x1_0000
    && page.snapshot < |states| && |states[page.snapshot].buffers| == 2
    && |states[page.snapshot].buffers[0]| == |states[page.snapshot].buffers[1]| == page.length
    && (page.access == ReadOnly || (page.access == ReadWrite && page.hasQueue))
  }

  /** What `lib_regmap_init` demands, in numbers: each page is sound and starts where the one
      before it ends, or later. Then all are disjoint and in ascending order. */
  lemma {:induction false} NeighboursSuffice(table: seq<Page>, states: seq<M.State>)
    ensures PagesOk(table, states) <==>
              && table != [] && (forall i :: 0 <= i < |table| ==> Sound(table[i], states))
              && forall i :: 1 <= i < |table| ==> table[i - 1].first + table[i - 1].length <= table[i].first
  {
    if (forall i :: 0 <= i < |table| ==> Sound(table[i], states))
       && forall i :: 1 <= i < |table| ==> table[i - 1].first + table[i - 1].length <= table[i].first {
      forall i | 0 <= i < |table|
        ensures PageOk(table[i], states)
      {
        assert Sound(table[i], states);
      }
      AllInOrder(table, states, |table|);
    }
    if PagesOk(table, states) {
      forall i | 0 <= i < |table|
        ensures Sound(table[i], states)
      {
        assert PageOk(table[i], states);
      }
      forall i | 1 <= i < |table|
        ensures table[i - 1].first + table[i - 1].length <= table[i].first
      {
        assert table[i - 1].End() <= table[i].first;
      }
    }
  }

  lemma {:induction false} AllInOrder(table: seq<Page>, states: seq<M.State>, n: nat)
    requires n <= |table| && forall i :: 0 <= i < |table| ==> PageOk(table[i], states)
    requires forall i :: 1 <= i < |table| ==> table[i - 1].first + table[i - 1].length <= table[i].first
    ensures InOrder(table, states, n)
  {
    if n != 0 {
      AllInOrder(table, states, n - 1);
      OneMoreInOrder(table, states, n - 1);
    }
  }

  /** The tests that look at one page. */
  method PassesAlone(page: Page, data: seq<Snapshot>, ghost states: seq<M.State>) returns (ok: bool)
    requires Show(data, states)
    ensures ok <==> PageOk(page, states)
  {
    if page.snapshot >= |data| {
      return false;
    }
    assert ShowsOne(data, page.snapshot, states[page.snapshot]);
    ok := page.length != 0 && page.End() <= W16 && data[page.snapshot].length == page.length
          && (page.access == ReadOnly || page.access == ReadWrite) && (page.access == ReadWrite ==> page.hasQueue);
  }

  /** A byte of one of a snapshot's buffers. */
  method ByteOf(snapshots: seq<Snapshot>, k: nat, buffer: Buffer, index: nat, ghost states: seq<M.State>)
    returns (value: byte)
    requires Show(snapshots, states) && k < |snapshots|
    requires |states[k].buffers| == 2 && index < |states[k].buffers[buffer]|
    ensures value == states[k].buffers[buffer][index]
  {
    assert ShowsOne(snapshots, k, states[k]);
    value := if buffer == 0 then snapshots[k].zero[index] else snapshots[k].one[index];
  }

  ghost predicate CanLatch(m: Map, page: nat) {
    && page < |m.pages| && m.latch == Unlatched && m.pages[page].snapshot < |m.snapshots|
    && var s := m.snapshots[m.pages[page].snapshot];
       |s.readers| == 1 && s.readers[0].Outside? && s.versions != []
  }

  /** `lib_regmap_snapshot_acquire` as the map uses it. */
  ghost function Taken(m: Map, page: nat): Map
    requires CanLatch(m, page)
  {
    var k := m.pages[page].snapshot;
    var state := m.snapshots[k];
    if ReaderCount(state.word, ActiveBit(state.word)) == READER_MASK then m
    else Replace(m, k, M.Entered(state, 0)).(latch := R.Latched(page, ActiveBit(state.word)))
  }

  lemma {:induction false} FreeReader(m: Map, page: nat)
    requires R.Inv(m) && m.latch == Unlatched && page < |m.pages|
    ensures CanLatch(m, page) && R.Acquire(m, page) == Taken(m, page)
  {
    assert PageOk(m.pages[page], m.snapshots);
  }

  lemma {:induction false} RelatchParts(m: Map) returns (n: Map)
    requires R.Inv(m)
    ensures n == R.EndRead(m)
    ensures var page := R.FindPage(m.pages, m.address);
            && (page.Some? ==> CanLatch(n, page.value))
            && R.Relatch(m) == if page == (if m.latch.Latched? then Some(m.latch.page) else None) then m
                               else if page.Some? then Taken(n, page.value) else n
  {
    FindPageMeans(m, m.address);
    EndReadInv(m);
    n := R.EndRead(m);
    if R.FindPage(m.pages, m.address).Some? {
      FreeReader(n, R.FindPage(m.pages, m.address).value);
    }
  }

  /** A latched page holds the address, and its snapshot has the byte. */
  ghost predicate Covered(m: Map) {
    m.latch.Latched? ==>
      && m.latch.page < |m.pages|
      && var page := m.pages[m.latch.page];
      && page.Contains(m.address) && page.snapshot < |m.snapshots|
      && |m.snapshots[page.snapshot].buffers| == 2
      && |m.snapshots[page.snapshot].buffers[m.latch.buffer]| == page.length
  }

  ghost function ByteAt(m: Map): byte
    requires Covered(m)
  {
    if m.latch.Unlatched? then UNMAPPED_VALUE
    else
      var page := m.pages[m.latch.page];
      m.snapshots[page.snapshot].buffers[m.latch.buffer][m.address - page.first]
  }

  lemma {:induction false} ReadParts(m: Map) returns (n: Map)
    requires R.Inv(m)
    ensures n == R.Relatch(m) && n.address == m.address && Covered(n)
    ensures R.ReadCurrent(m) == ReadOutcome(n.(address := Add16(n.address, 1)), ByteAt(n))
  {
    RelatchInv(m);
    n := R.Relatch(m);
  }

  ghost function AfterOffer(m: Map, value: byte): Map {
    FindFromMeans(m.pages, m.address, 0);
    var page := R.FindPage(m.pages, m.address);
    if page.Some? && m.pages[page.value].access == ReadWrite
    then m.(offers := m.offers + [Offer(page.value, m.address, value)])
    else m
  }

  lemma {:induction false} WriteParts(m: Map, value: byte) returns (n: Map)
    requires R.Inv(m)
    ensures n == R.EndRead(m) && n.address == m.address && n.offers == m.offers
    ensures R.WriteCurrent(m, value) == AfterOffer(n, value).(address := Add16(m.address, 1))
    ensures R.WriteCurrent(m, value).offers == AfterOffer(n, value).offers
  {
    EndReadInv(m);
    FindPageMeans(m, m.address);
    n := R.EndRead(m);
  }

  lemma {:induction false} LatchedReader(m: Map)
    requires R.Inv(m) && m.latch.Latched?
    ensures m.latch.page < |m.pages|
    ensures var k := m.pages[m.latch.page].snapshot;
            k < |m.snapshots| && |m.snapshots[k].readers| == 1 && m.snapshots[k].readers[0].Holding?
  {
  }
}
