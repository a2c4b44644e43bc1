/** What the register map promises on the wire (docs/i2c_register_map.md): a paged EEPROM
    whose page contents are replaced whole, and whose reads see one version per visit. */
module Eeprom {
  import opened Bits
  import opened Options
  import opened RegisterMap

  /** Between START and STOP: nothing, a write with the address bytes so far, or a read. */
  datatype Mode = Idle | Writing(got: Bytes) | Reading

  /** The version a read transaction is looking at. */
  datatype View = NoView | View(page: nat, bytes: Bytes)

  datatype State = State(pages: seq<Page>, contents: seq<Bytes>, address: uint16,
                         mode: Mode, view: View, offers: seq<Offer>)

  datatype Event = StartWrite | StartRead | Put(value: byte) | Get | Stop
                 | Publish(snapshot: nat, data: Bytes) | Nothing

  ghost predicate Shaped(s: State) {
    && (forall i :: 0 <= i < |s.pages| ==> Fits(s.pages[i], s.contents))
    && (forall i, j :: 0 <= i < j < |s.pages| ==> s.pages[i].End() <= s.pages[j].first)
    && (s.mode.Writing? ==> |s.mode.got| <= 2)
    && (s.view.View? ==> s.view.page < |s.pages| && |s.view.bytes| == s.pages[s.view.page].length)
  }

  predicate Fits(page: Page, contents: seq<Bytes>) {
    page.End() <= W16 && page.snapshot < |contents| && |contents[page.snapshot]| == page.length
  }

  ghost predicate Allowed(s: State, e: Event) {
    e.Publish? ==> e.snapshot < |s.contents| && |e.data| == |s.contents[e.snapshot]|
  }

  /** The address two bytes spell, high byte first. */
  function AddressOf(high: byte, low: byte): uint16 {
    var h: int := high;
    h * 256 + low
  }

  function Step(address: uint16): uint16 { Add16(address, 1) }

  /** The view a read at the current address uses: the one it has while it stays on the
      page, else the page's current contents. */
  function ViewFor(s: State): View
    requires Shaped(s)
  {
    var page := FindPage(s.pages, s.address);
    FindFromMeans(s.pages, s.address, 0);
    if page.None? then NoView
    else if s.view.View? && s.view.page == page.value then s.view
    else View(page.value, s.contents[s.pages[page.value].snapshot])
  }

  function OfferFor(pages: seq<Page>, address: uint16, value: byte): seq<Offer> {
    FindFromMeans(pages, address, 0);
    var page := FindPage(pages, address);
    if page.Some? && pages[page.value].access == ReadWrite then [Offer(page.value, address, value)] else []
  }

  function Output(s: State, e: Event): Option<byte>
    requires Shaped(s)
  {
    if !e.Get? then None
    else if !s.mode.Reading? then Some(UNMAPPED_VALUE)
    else
      FindFromMeans(s.pages, s.address, 0);
      var v := ViewFor(s);
      Some(if v.NoView? then UNMAPPED_VALUE else v.bytes[s.address - s.pages[v.page].first])
  }

  function Next(s: State, e: Event): State
    requires Shaped(s) && Allowed(s, e)
  {
    match e
    case StartWrite => s.(mode := Writing([]), view := NoView)
    case StartRead => s.(mode := Reading, view := NoView)
    case Stop => s.(mode := Idle, view := NoView)
    case Put(value) =>
      if !s.mode.Writing? then s
      else if |s.mode.got| == 0 then s.(mode := Writing([value]))
      else if |s.mode.got| == 1 then
        s.(mode := Writing(s.mode.got + [value]), view := NoView, address := AddressOf(s.mode.got[0], value))
      else
        s.(view := NoView, offers := s.offers + OfferFor(s.pages, s.address, value), address := Step(s.address))
    case Get => if s.mode.Reading? then s.(view := ViewFor(s), address := Step(s.address)) else s
    case Publish(snapshot, data) => s.(contents := s.contents[snapshot := data])
    case Nothing => s
  }

  lemma {:induction false} NextShaped(s: State, e: Event)
    requires Shaped(s) && Allowed(s, e)
    ensures Shaped(Next(s, e))
  {
    hide BitAnd, BitXor, ShiftRight, FindFrom;
    FindFromMeans(s.pages, s.address, 0);
    var n := Next(s, e);
    forall i | 0 <= i < |n.pages|
      ensures Fits(n.pages[i], n.contents)
    {
      assert Fits(s.pages[i], s.contents);
    }
  }

  // ---- runs ----

  ghost predicate IsRun(states: seq<State>, events: seq<Event>) {
    && |states| == |events| + 1 && Shaped(states[0])
    && forall t :: 0 <= t < |events| ==>
         Shaped(states[t]) && Allowed(states[t], events[t]) && states[t + 1] == Next(states[t], events[t])
  }

  lemma {:induction false} RunShaped(states: seq<State>, events: seq<Event>, t: nat)
    requires IsRun(states, events) && t < |states|
    ensures Shaped(states[t]) && states[t].pages == states[0].pages
  {
    if t != 0 {
      RunShaped(states, events, t - 1);
      NextShaped(states[t - 1], events[t - 1]);
      assert states[t - 1 + 1] == Next(states[t - 1], events[t - 1]);
    }
  }

  /** The bytes put on the bus between steps t and u. */
  function Puts(events: seq<Event>, t: nat, u: nat): Bytes
    requires t <= u <= |events|
    decreases u
  {
    if t == u then []
    else Puts(events, t, u - 1) + (if events[u - 1].Put? then [events[u - 1].value] else [])
  }

  function Gets(events: seq<Event>, t: nat, u: nat): nat
    requires t <= u <= |events|
    decreases u
  {
    if t == u then 0 else Gets(events, t, u - 1) + (if events[u - 1].Get? then 1 else 0)
  }

  /** What a write of `data` at `address` offers, in order. */
  function OffersAt(pages: seq<Page>, address: uint16, data: Bytes): seq<Offer>
    decreases |data|
  {
    if data == [] then []
    else
      var n := |data| - 1;
      OffersAt(pages, address, data[..n]) + OfferFor(pages, (address + n) % W16, data[n])
  }

  /** The pointer is past `data`, and each of its bytes has been offered. */
  ghost predicate Offered(start: State, s: State, address: uint16, data: Bytes) {
    && s.address == (address + |data|) % W16
    && s.offers == start.offers + OffersAt(start.pages, address, data)
  }

  /** What a transaction that started in `start` has done once `burst` has arrived. Fewer
      than two bytes change nothing. Otherwise the first two are the address, and byte i after
      them is offered to the page that holds address + i modulo 2^16, if that page is
      read-write, and to no other. */
  ghost predicate Wrote(start: State, s: State, burst: Bytes) {
    if |burst| < 2 then s.mode == Writing(burst) && s.address == start.address && s.offers == start.offers
    else s.mode == Writing(burst[..2]) && Offered(start, s, AddressOf(burst[0], burst[1]), burst[2..])
  }

  /** A write transaction: a START at step a, then bytes, with anything published between. */
  lemma {:induction false} WriteTransaction(states: seq<State>, events: seq<Event>, a: nat, u: nat)
    requires IsRun(states, events) && a < u < |states| && events[a] == StartWrite
    requires forall t :: a < t < u ==> events[t].Put? || events[t].Publish? || events[t].Nothing?
    ensures Wrote(states[a], states[u], Puts(events, a + 1, u))
    decreases u
  {
    RunShaped(states, events, u - 1);
    RunShaped(states, events, a);
    assert states[u - 1 + 1] == Next(states[u - 1], events[u - 1]);
    if u != a + 1 {
      WriteTransaction(states, events, a, u - 1);
      WriteProgress(states[a], states[u - 1], Puts(events, a + 1, u - 1), events[u - 1]);
    }
  }

  lemma {:induction false} WriteProgress(start: State, s: State, burst: Bytes, e: Event)
    requires Shaped(s) && Allowed(s, e) && s.pages == start.pages && Wrote(start, s, burst)
    requires e.Put? || e.Publish? || e.Nothing?
    ensures Wrote(start, Next(s, e), burst + (if e.Put? then [e.value] else []))
  {
    if e.Put? {
      WriteStep(start, s, burst, e.value);
    } else {
      NothingWritten(start, s, burst, e);
      assert burst + [] == burst;
    }
  }

  lemma {:induction false} NothingWritten(start: State, s: State, burst: Bytes, e: Event)
    requires Shaped(s) && Allowed(s, e) && Wrote(start, s, burst) && (e.Publish? || e.Nothing?)
    ensures Wrote(start, Next(s, e), burst)
  {
  }

  /** One more byte of a write transaction. */
  lemma {:induction false} WriteStep(start: State, s: State, burst: Bytes, value: byte)
    requires Shaped(s) && s.pages == start.pages && Wrote(start, s, burst)
    ensures Wrote(start, Next(s, Put(value)), burst + [value])
  {
    if |burst| < 2 {
      AddressStep(start, s, burst, value);
    } else {
      DataStep(start, s, burst, value);
    }
  }

  lemma {:induction false} AddressStep(start: State, s: State, burst: Bytes, value: byte)
    requires Shaped(s) && s.pages == start.pages && Wrote(start, s, burst) && |burst| < 2
    ensures Wrote(start, Next(s, Put(value)), burst + [value])
  {
    hide FindFrom, OffersAt;
    var longer := burst + [value];
    if |burst| == 1 {
      assert longer[..2] == longer && longer[2..] == [];
      NothingOffered(start, Next(s, Put(value)), AddressOf(burst[0], value));
    }
  }

  lemma {:induction false} NothingOffered(start: State, s: State, address: uint16)
    requires s.address == address && s.offers == start.offers
    ensures Offered(start, s, address, [])
  {
  }

  lemma {:induction false} DataStep(start: State, s: State, burst: Bytes, value: byte)
    requires Shaped(s) && s.pages == start.pages && Wrote(start, s, burst) && |burst| >= 2
    ensures Wrote(start, Next(s, Put(value)), burst + [value])
  {
    hide Offered, OfferFor, Step, AddressOf;
    var longer, data := burst + [value], burst[2..];
    assert longer[..2] == burst[..2] && longer[2..] == data + [value];
    OfferedNext(start, s, Next(s, Put(value)), AddressOf(burst[0], burst[1]), data, value);
  }

  lemma {:induction false} OfferedNext(start: State, s: State, n: State, address: uint16, data: Bytes, value: byte)
    requires Offered(start, s, address, data)
    requires n.address == Step(s.address) && n.offers == s.offers + OfferFor(start.pages, s.address, value)
    ensures Offered(start, n, address, data + [value])
  {
    hide OffersAt, OfferFor, Step;
    OffersNext(start.pages, address, data, value);
    NextAddress(s.address, address + |data|);
  }

  lemma {:induction false} NextAddress(a: uint16, n: nat)
    requires a == n % W16
    ensures Step(a) == (n + 1) % W16
  {
    WrapIncrement16(n);
  }

  lemma {:induction false} OffersNext(pages: seq<Page>, address: uint16, data: Bytes, value: byte)
    ensures OffersAt(pages, address, data + [value])
         == OffersAt(pages, address, data) + OfferFor(pages, (address + |data|) % W16, value)
  {
    assert (data + [value])[..|data|] == data;
  }

  /** A read that has moved the pointer n places on from `start`. */
  ghost predicate Advanced(s: State, start: uint16, n: nat) { s.mode == Reading && s.address == (start + n) % W16 }

  /** The pointer advances by one for every byte read, modulo 2^16. */
  lemma {:induction false} ReadsAdvance(states: seq<State>, events: seq<Event>, t: nat, u: nat)
    requires IsRun(states, events) && t <= u < |states| && states[t].mode == Reading
    requires forall k :: t <= k < u ==> ReadsOn(events[k])
    ensures Advanced(states[u], states[t].address, Gets(events, t, u))
    decreases u
  {
    hide Advanced, Gets, Next;
    if t == u {
      NothingRead(states[t], events, t);
    } else {
      ReadsAdvance(states, events, t, u - 1);
      GetsNext(events, t, u);
      OneRead(states, events, u - 1, states[t].address, Gets(events, t, u - 1), Gets(events, t, u));
    }
  }

  lemma {:induction false} NothingRead(s: State, events: seq<Event>, t: nat)
    requires s.mode == Reading && t <= |events|
    ensures Advanced(s, s.address, Gets(events, t, t))
  {
  }

  lemma {:induction false} GetsNext(events: seq<Event>, t: nat, u: nat)
    requires t < u <= |events|
    ensures Gets(events, t, u) == Gets(events, t, u - 1) + (if events[u - 1].Get? then 1 else 0)
  {
  }

  lemma {:induction false} OneRead(states: seq<State>, events: seq<Event>, k: nat, start: uint16,
                                   before: nat, after: nat)
    requires IsRun(states, events) && k < |events| && Advanced(states[k], start, before)
    requires ReadsOn(events[k])
    requires after == before + if events[k].Get? then 1 else 0
    ensures Advanced(states[k + 1], start, after)
  {
    assert states[k + 1] == Next(states[k], events[k]);
    ReadProgress(states[k], events[k], start, before);
  }

  lemma {:induction false} ReadProgress(s: State, e: Event, start: uint16, n: nat)
    requires Shaped(s) && Allowed(s, e) && Advanced(s, start, n)
    requires ReadsOn(e)
    ensures Advanced(Next(s, e), start, n + if e.Get? then 1 else 0)
  {
    WrapIncrement16(start + n);
  }

  ghost predicate OnPage(s: State, page: nat) {
    page < |s.pages| && s.pages[page].first <= s.address < s.pages[page].first + s.pages[page].length
  }

  /** Lookup finds the page whose bounds hold the address, if there is one. */
  lemma {:induction false} PageFound(s: State, address: uint16)
    requires Shaped(s)
    ensures forall p :: 0 <= p < |s.pages| && s.pages[p].first <= address < s.pages[p].first + s.pages[p].length ==>
              FindPage(s.pages, address) == Some(p)
    ensures (forall p :: 0 <= p < |s.pages| ==>
               !(s.pages[p].first <= address < s.pages[p].first + s.pages[p].length)) ==>
              FindPage(s.pages, address) == None
  {
    FindFromMeans(s.pages, address, 0);
    forall p | 0 <= p < |s.pages| && s.pages[p].first <= address < s.pages[p].first + s.pages[p].length
      ensures FindPage(s.pages, address) == Some(p)
    {
      assert s.pages[p].Contains(address);
    }
  }

  lemma {:induction false} FoundPage(s: State, page: nat)
    requires Shaped(s) && OnPage(s, page)
    ensures FindPage(s.pages, s.address) == Some(page)
  {
    hide FindFrom;
    PageFound(s, s.address);
  }

  /** A read of an address no page holds delivers 0xff, and so does one outside a read
      transaction, which changes nothing. */
  lemma {:induction false} UnmappedRead(s: State)
    requires Shaped(s)
    requires s.mode != Reading || forall p :: 0 <= p < |s.pages| ==>
               !(s.pages[p].first <= s.address < s.pages[p].first + s.pages[p].length)
    ensures Output(s, Get) == Some(0xff)
    ensures s.mode != Reading ==> Next(s, Get) == s
  {
    PageFound(s, s.address);
  }

  /** A data byte is offered to the page whose bounds hold the address if that page is
      read-write, and to nobody otherwise. */
  lemma {:induction false} OfferGoesToThePage(s: State, address: uint16, value: byte)
    requires Shaped(s)
    ensures forall p :: 0 <= p < |s.pages| && s.pages[p].first <= address < s.pages[p].first + s.pages[p].length ==>
              OfferFor(s.pages, address, value)
              == if s.pages[p].access.ReadWrite? then [Offer(p, address, value)] else []
    ensures (forall p :: 0 <= p < |s.pages| ==>
               !(s.pages[p].first <= address < s.pages[p].first + s.pages[p].length)) ==>
              OfferFor(s.pages, address, value) == []
  {
    hide FindFrom;
    PageFound(s, address);
  }

  predicate ReadsOn(e: Event) { e.Get? || e.Publish? || e.Nothing? }

  /** The first read on a page takes the current contents for its view. */
  lemma {:induction false} FirstView(s: State, page: nat)
    requires Shaped(s) && s.mode == Reading && OnPage(s, page) && !(s.view.View? && s.view.page == page)
    ensures s.pages[page].snapshot < |s.contents|
    ensures var n := Next(s, Get);
            n.mode == Reading && n.view == View(page, s.contents[s.pages[page].snapshot])
  {
    hide FindFrom;
    FoundPage(s, page);
    assert Fits(s.pages[page], s.contents);
  }

  /** And what is read or published afterwards leaves the view alone. */
  lemma {:induction false} SameView(s: State, e: Event, page: nat)
    requires Shaped(s) && Allowed(s, e) && ReadsOn(e) && s.mode == Reading && OnPage(s, page)
    requires s.view.View? && s.view.page == page
    ensures Next(s, e).mode == Reading && Next(s, e).view == s.view
  {
    hide FindFrom;
    FoundPage(s, page);
  }

  lemma {:induction false} ViewStays(states: seq<State>, events: seq<Event>, page: nat, i: nat, j: nat)
    requires IsRun(states, events) && i < j < |states| && states[i].mode == Reading && events[i] == Get
    requires forall k :: i <= k < j ==> ReadsOn(events[k])
    requires forall k :: i <= k < j ==> OnPage(states[k], page)
    requires !(states[i].view.View? && states[i].view.page == page)
    ensures page < |states[i].pages| && Shaped(states[i])
    ensures states[i].pages[page].snapshot < |states[i].contents|
    ensures states[j].mode == Reading
    ensures states[j].view == View(page, states[i].contents[states[i].pages[page].snapshot])
    decreases j
  {
    hide Next;
    assert OnPage(states[i], page) && OnPage(states[j - 1], page);
    FirstView(states[i], page);
    if j == i + 1 {
      assert states[i + 1] == Next(states[i], events[i]);
    } else {
      ViewStays(states, events, page, i, j - 1);
      SameView(states[j - 1], events[j - 1], page);
      assert states[j - 1 + 1] == Next(states[j - 1], events[j - 1]);
    }
  }

  /** One version per visit to a page. The read at step i is the first of a run of reads that
      stays on one page up to step j; whatever is published in between, the byte read at j is
      the byte of what was current at step i. */
  lemma {:induction false} OneVersionPerVisit(states: seq<State>, events: seq<Event>, page: nat, i: nat, j: nat)
    requires IsRun(states, events) && i <= j < |events| && states[i].mode == Reading
    requires events[i] == Get && events[j] == Get
    requires forall k :: i <= k < j ==> ReadsOn(events[k])
    requires forall k :: i <= k <= j ==> OnPage(states[k], page)
    requires !(states[i].view.View? && states[i].view.page == page)
    ensures Shaped(states[i]) && Shaped(states[j])
    ensures page < |states[i].pages| && states[i].pages[page].snapshot < |states[i].contents|
    ensures states[i].pages[page].first <= states[j].address
    ensures states[j].address - states[i].pages[page].first < |states[i].contents[states[i].pages[page].snapshot]|
    ensures Output(states[j], Get)
         == Some(states[i].contents[states[i].pages[page].snapshot][states[j].address - states[i].pages[page].first])
  {
    RunShaped(states, events, i);
    RunShaped(states, events, j);
    FoundPage(states[j], page);
    assert Fits(states[i].pages[page], states[i].contents);
    if i != j {
      ViewStays(states, events, page, i, j);
    }
  }

  /** Writing an address and reading there. A write of the two bytes `high` and `low`, from step
      a to u, is followed by a START for reading; whatever is published up to the first read at
      step j, that read delivers byte address - first of what the page that holds the address
      shows when it is read. */
  lemma {:induction false} AddressedRead(states: seq<State>, events: seq<Event>, a: nat, u: nat, j: nat,
                                         high: byte, low: byte, page: nat)
    requires IsRun(states, events) && a < u < j < |events|
    requires events[a] == StartWrite && events[u] == StartRead && events[j] == Get
    requires forall t :: a < t < u ==> events[t].Put? || events[t].Publish? || events[t].Nothing?
    requires Puts(events, a + 1, u) == [high, low]
    requires forall t :: u < t < j ==> events[t].Publish? || events[t].Nothing?
    requires page < |states[j].pages| && Shaped(states[j])
    requires var p := states[j].pages[page]; p.first <= 256 * high + low < p.first + p.length
    ensures states[j].pages[page].snapshot < |states[j].contents|
    ensures var shown := states[j].contents[states[j].pages[page].snapshot];
            var offset := 256 * high + low - states[j].pages[page].first;
            0 <= offset < |shown| && Output(states[j], Get) == Some(shown[offset])
  {
    hide Output, Next, Wrote, Puts;
    WriteTransaction(states, events, a, u);
    AddressWritten(states[a], states[u], high, low);
    assert states[u + 1] == Next(states[u], events[u]);
    RunShaped(states, events, u);
    ReadStarted(states[u]);
    NothingReadYet(states, events, u + 1, j);
    assert Fits(states[j].pages[page], states[j].contents);
    FirstByteRead(states[j], page);
  }

  lemma {:induction false} AddressWritten(start: State, s: State, high: byte, low: byte)
    requires Wrote(start, s, [high, low])
    ensures s.address == 256 * high + low
  {
    assert [high, low][2..] == [];
  }

  lemma {:induction false} ReadStarted(s: State)
    requires Shaped(s)
    ensures Next(s, StartRead).mode == Reading && Next(s, StartRead).view == NoView
    ensures Next(s, StartRead).address == s.address
  {
  }

  lemma {:induction false} NothingReadYet(states: seq<State>, events: seq<Event>, t: nat, j: nat)
    requires IsRun(states, events) && t <= j < |states|
    requires forall k :: t <= k < j ==> events[k].Publish? || events[k].Nothing?
    ensures states[j].mode == states[t].mode && states[j].view == states[t].view
    ensures states[j].address == states[t].address
    decreases j
  {
    if t != j {
      NothingReadYet(states, events, t, j - 1);
      assert states[j - 1 + 1] == Next(states[j - 1], events[j - 1]);
    }
  }

  lemma {:induction false} FirstByteRead(s: State, page: nat)
    requires Shaped(s) && s.mode == Reading && s.view == NoView && OnPage(s, page)
    requires Fits(s.pages[page], s.contents)
    ensures Output(s, Get) == Some(s.contents[s.pages[page].snapshot][s.address - s.pages[page].first])
  {
    hide FindFrom;
    FoundPage(s, page);
  }
}
