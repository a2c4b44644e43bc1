/** The register map of `lib_regmap`: pages over snapshots, a 16-bit pointer and one latch.
    Each function below is one operation of the source on the map's state; module Registers
    has them in the form of the source. Each snapshot is a state of the step machine whose one
    reader is this map. */
module RegisterMap {
  import opened Bits
  import opened Options
  import opened SnapshotWord
  import M = SnapshotMachine

  const UNMAPPED_VALUE: byte := 0xff

  datatype Access = ReadOnly | ReadWrite | OtherAccess

  datatype Page = Page(first: uint16, length: uint16, access: Access, snapshot: nat, hasQueue: bool) {
    function End(): nat { first + length }
    predicate Contains(address: uint16) { first <= address < End() }
  }

  datatype Latch = Unlatched | Latched(page: nat, buffer: Buffer)

  /** One call of a page's queue callback. */
  datatype Offer = Offer(page: nat, address: uint16, value: byte)

  datatype WriteResult = Ignored | Queued | Rejected

  datatype Map = Map(pages: seq<Page>, snapshots: seq<M.State>, address: uint16, latch: Latch, offers: seq<Offer>)

  // ---- page validation and lookup ----

  predicate PageOk(page: Page, snapshots: seq<M.State>) {
    && page.length != 0 && page.End() <= W16
    && page.snapshot < |snapshots|
    && |snapshots[page.snapshot].buffers| == 2
    && |snapshots[page.snapshot].buffers[0]| == |snapshots[page.snapshot].buffers[1]| == page.length
    && page.access != OtherAccess && (page.access == ReadWrite ==> page.hasQueue)
  }

  /** Every page is well formed, and the pages are disjoint and in ascending order. */
  ghost predicate PagesOk(pages: seq<Page>, snapshots: seq<M.State>) {
    && pages != []
    && (forall i :: 0 <= i < |pages| ==> PageOk(pages[i], snapshots))
    && (forall i, j :: 0 <= i < j < |pages| ==> pages[i].End() <= pages[j].first)
  }

  function FindFrom(pages: seq<Page>, address: uint16, i: nat): Option<nat>
    requires i <= |pages|
    decreases |pages| - i
  {
    if i == |pages| then None
    else if pages[i].Contains(address) then Some(i)
    else FindFrom(pages, address, i + 1)
  }

  function FindPage(pages: seq<Page>, address: uint16): Option<nat> { FindFrom(pages, address, 0) }

  lemma {:induction false} FindFromMeans(pages: seq<Page>, address: uint16, i: nat)
    requires i <= |pages|
    ensures match FindFrom(pages, address, i)
            case None => forall j :: i <= j < |pages| ==> !pages[j].Contains(address)
            case Some(p) => i <= p < |pages| && pages[p].Contains(address)
    decreases |pages| - i
  {
    if i != |pages| && !pages[i].Contains(address) {
      FindFromMeans(pages, address, i + 1);
    }
  }

  /** Lookup finds the one page that holds the address, if there is one: page p if and only if
      the address is at or after its first and before its first plus its length. */
  lemma {:induction false} FindPageMeans(m: Map, address: uint16)
    requires PagesOk(m.pages, m.snapshots)
    ensures forall p: nat :: FindPage(m.pages, address) == Some(p) <==>
              p < |m.pages| && m.pages[p].first <= address < m.pages[p].first + m.pages[p].length
    ensures FindPage(m.pages, address) == None <==>
              forall p :: 0 <= p < |m.pages| ==>
                !(m.pages[p].first <= address < m.pages[p].first + m.pages[p].length)
  {
    FindFromMeans(m.pages, address, 0);
    forall p | 0 <= p < |m.pages| && m.pages[p].first <= address < m.pages[p].first + m.pages[p].length
      ensures FindPage(m.pages, address) == Some(p)
    {
      assert m.pages[p].Contains(address);
    }
  }

  // ---- the invariant ----

  function SnapshotOf(m: Map, page: nat): nat
    requires page < |m.pages|
  {
    m.pages[page].snapshot
  }

  ghost predicate SnapshotsOk(snapshots: seq<M.State>) {
    forall s :: 0 <= s < |snapshots| ==> M.Inv(snapshots[s]) && |snapshots[s].readers| == 1
  }

  /** The map's reader holds a buffer of exactly the latched page's snapshot. */
  ghost predicate LatchAgrees(m: Map)
    requires SnapshotsOk(m.snapshots)
  {
    match m.latch
    case Unlatched => forall s :: 0 <= s < |m.snapshots| ==> m.snapshots[s].readers[0].Outside?
    case Latched(p, b) =>
      && p < |m.pages| && SnapshotOf(m, p) < |m.snapshots|
      && m.snapshots[SnapshotOf(m, p)].readers[0].Holds(b)
      && forall s :: 0 <= s < |m.snapshots| && s != SnapshotOf(m, p) ==> m.snapshots[s].readers[0].Outside?
  }

  ghost predicate Inv(m: Map) {
    && PagesOk(m.pages, m.snapshots)
    && SnapshotsOk(m.snapshots)
    && LatchAgrees(m)
  }

  /** Readers over all snapshots. */
  function TotalHeld(snapshots: seq<M.State>): nat {
    if snapshots == [] then 0
    else ReaderCount(snapshots[0].word, 0) + ReaderCount(snapshots[0].word, 1) + TotalHeld(snapshots[1..])
  }

  lemma {:induction false} HeldByTheMap(s: M.State)
    requires M.Inv(s) && |s.readers| == 1
    ensures ReaderCount(s.word, 0) + ReaderCount(s.word, 1) == if s.readers[0].Holding? then 1 else 0
  {
    hide BitAnd, BitXor, ShiftRight;
    Fields(M.CountsOf(s), 0);
    Fields(M.CountsOf(s), 1);
    assert s.readers[1..] == [];
    assert M.Held(s.readers[1..], 0) == 0 && M.Held(s.readers[1..], 1) == 0;
  }

  lemma {:induction false} TotalOf(snapshots: seq<M.State>, holder: int)
    requires SnapshotsOk(snapshots)
    requires forall s :: 0 <= s < |snapshots| ==> (snapshots[s].readers[0].Holding? <==> s == holder)
    ensures TotalHeld(snapshots) == if 0 <= holder < |snapshots| then 1 else 0
    decreases |snapshots|
  {
    if snapshots != [] {
      HeldByTheMap(snapshots[0]);
      TotalOf(snapshots[1..], holder - 1);
    }
  }

  /** Latch accounting: the reader counts in all the words sum to one exactly when a page is
      latched, and to zero otherwise. */
  lemma {:induction false} LatchAccounting(m: Map)
    requires Inv(m)
    ensures TotalHeld(m.snapshots) == if m.latch.Latched? then 1 else 0
  {
    TotalOf(m.snapshots, if m.latch.Latched? then SnapshotOf(m, m.latch.page) else -1);
  }

  // ---- the operations ----

  function Replace(m: Map, s: nat, state: M.State): Map
    requires s < |m.snapshots|
  {
    m.(snapshots := m.snapshots[s := state])
  }

  function EndRead(m: Map): Map
    requires Inv(m)
  {
    if m.latch.Unlatched? then m
    else
      var s := SnapshotOf(m, m.latch.page);
      Replace(m, s, M.Left(m.snapshots[s], 0)).(latch := Unlatched)
  }

  function Acquire(m: Map, page: nat): Map
    requires Inv(m) && page < |m.pages|
  {
    var s := SnapshotOf(m, page);
    var state := m.snapshots[s];
    if ReaderCount(state.word, ActiveBit(state.word)) == READER_MASK then m
    else Replace(m, s, M.Entered(state, 0)).(latch := Latched(page, ActiveBit(state.word)))
  }

  /** The latch a read at the current address works with. */
  function Relatch(m: Map): Map
    requires Inv(m)
  {
    FindPageMeans(m, m.address);
    var page := FindPage(m.pages, m.address);
    if page == (if m.latch.Latched? then Some(m.latch.page) else None) then m
    else
      EndReadInv(m);
      if page.Some? then Acquire(EndRead(m), page.value) else EndRead(m)
  }

  function Advance(m: Map): Map { m.(address := Add16(m.address, 1)) }

  datatype ReadOutcome = ReadOutcome(after: Map, value: byte)

  function ReadCurrent(m: Map): ReadOutcome
    requires Inv(m)
  {
    RelatchInv(m);
    var n := Relatch(m);
    ReadOutcome(Advance(n),
                if n.latch.Unlatched? then UNMAPPED_VALUE
                else n.snapshots[SnapshotOf(n, n.latch.page)].buffers[n.latch.buffer]
                       [n.address - n.pages[n.latch.page].first])
  }

  function WriteCurrent(m: Map, value: byte): Map
    requires Inv(m)
  {
    FindPageMeans(m, m.address);
    var n, page := EndRead(m), FindPage(m.pages, m.address);
    Advance(if page.Some? && m.pages[page.value].access == ReadWrite
            then n.(offers := n.offers + [Offer(page.value, m.address, value)]) else n)
  }

  function SetAddress(m: Map, address: uint16): Map
    requires Inv(m)
  {
    EndRead(m).(address := address)
  }

  // ---- what they keep ----

  /** Changing one snapshot's state, by a step that keeps its invariant, its size and how
      many readers it has. */
  lemma {:induction false} ReplaceKeeps(m: Map, s: nat, state: M.State)
    requires Inv(m) && s < |m.snapshots| && M.Inv(state) && |state.readers| == 1
    requires |state.buffers[0]| == |m.snapshots[s].buffers[0]|
    ensures PagesOk(m.pages, m.snapshots[s := state])
    ensures SnapshotsOk(m.snapshots[s := state])
  {
    var snapshots := m.snapshots[s := state];
    forall i | 0 <= i < |m.pages|
      ensures PageOk(m.pages[i], snapshots)
    {
      assert PageOk(m.pages[i], m.snapshots);
    }
  }

  lemma {:induction false} EndReadInv(m: Map)
    requires Inv(m)
    ensures Inv(EndRead(m)) && EndRead(m).latch == Unlatched
    ensures EndRead(m) == m.(snapshots := EndRead(m).snapshots, latch := Unlatched)
    ensures AllSameVersions(m, EndRead(m))
  {
    hide BitAnd, BitXor, ShiftRight;
    if m.latch.Latched? {
      var s := SnapshotOf(m, m.latch.page);
      M.ReleaseInv(m.snapshots[s], 0);
      M.ReleaseCounts(m.snapshots[s], 0);
      ReplaceKeeps(m, s, M.Left(m.snapshots[s], 0));
    }
  }

  /** Reading and latching never change what is published. */
  ghost predicate SameVersions(s: M.State, t: M.State) {
    t == s.(word := t.word, readers := t.readers) && ActiveBit(t.word) == ActiveBit(s.word)
  }

  ghost predicate AllSameVersions(m: Map, n: Map) {
    |n.snapshots| == |m.snapshots|
    && forall s :: 0 <= s < |m.snapshots| ==> SameVersions(m.snapshots[s], n.snapshots[s])
  }

  lemma {:induction false} SameVersionsCompose(m: Map, n: Map, o: Map)
    requires AllSameVersions(m, n) && AllSameVersions(n, o)
    ensures AllSameVersions(m, o)
  {
    forall s | 0 <= s < |m.snapshots|
      ensures SameVersions(m.snapshots[s], o.snapshots[s])
    {
      assert SameVersions(m.snapshots[s], n.snapshots[s]) && SameVersions(n.snapshots[s], o.snapshots[s]);
    }
  }

  /** The saturation branch is never taken: an unlatched map can always acquire. */
  lemma {:induction false} AcquireInv(m: Map, page: nat)
    requires Inv(m) && m.latch == Unlatched && page < |m.pages|
    ensures var n, s := Acquire(m, page), SnapshotOf(m, page);
            && Inv(n) && n == m.(snapshots := n.snapshots, latch := Latched(page, ActiveBit(m.snapshots[s].word)))
            && AllSameVersions(m, n)
            && n.snapshots[s].readers[0] == M.Holding(n.latch.buffer, M.Last(m.snapshots[s]))
  {
    hide BitAnd, BitXor, ShiftRight;
    var s := SnapshotOf(m, page);
    assert PageOk(m.pages[page], m.snapshots);
    var state := m.snapshots[s];
    HeldByTheMap(state);
    M.Acquires(state, 0);
    M.AcquireCounts(state, 0);
    ReplaceKeeps(m, s, M.Entered(state, 0));
  }

  lemma {:induction false} RelatchInv(m: Map)
    requires Inv(m)
    ensures var n, page := Relatch(m), FindPage(m.pages, m.address);
            && Inv(n) && n == m.(snapshots := n.snapshots, latch := n.latch)
            && AllSameVersions(m, n)
            && (page.None? ==> n.latch == Unlatched)
            && (page.Some? ==>
                  && n.latch.Latched? && n.latch.page == page.value < |n.pages|
                  && n.pages[page.value].Contains(m.address)
                  && PageOk(n.pages[page.value], n.snapshots))
  {
    hide BitAnd, BitXor, ShiftRight;
    FindPageMeans(m, m.address);
    var page := FindPage(m.pages, m.address);
    if page != (if m.latch.Latched? then Some(m.latch.page) else None) {
      EndReadInv(m);
      if page.Some? {
        var e := EndRead(m);
        AcquireInv(e, page.value);
        SameVersionsCompose(m, e, Acquire(e, page.value));
      }
    }
  }
}
