/** `make_layout` of the image tool: painting the loadable segments of an ELF file onto the
    part of flash that the image identity covers. What the ELF parser reads (program headers,
    the identity section, `__data_load_end`) is input. */
module ImageLayout {
  import opened Bits
  import opened Options

  const PT_LOAD: uint32 := 1
  const IDENTITY_SIZE := 64

  datatype Header = Header(kind: uint32, offset: uint32, paddr: uint32, filesz: uint32)

  datatype Section = Section(address: uint32, offset: uint32, size: uint32)

  /** What of an ELF file, besides its bytes, decides the layout. */
  datatype Elf = Elf(headers: seq<Header>, identity: Section, dataLoadEnd: uint32)

  datatype Layout = Layout(origin: int, flashLength: int, dataLoadEnd: int,
                           identityAddress: int, identityOffset: nat, coverage: Bytes)
  {
    function IdentityEnd(): int { identityAddress + IDENTITY_SIZE }
    function Span(): int { IdentityEnd() - origin }
  }

  // ---- what a layout is ----

  /** The checks before the loop; `size` is the length of the file. */
  predicate ChecksPass(elf: Elf, size: nat, origin: int, flashLength: int) {
    && flashLength > IDENTITY_SIZE
    && elf.identity.address == origin + flashLength - IDENTITY_SIZE && elf.identity.size == IDENTITY_SIZE
    && origin < elf.dataLoadEnd <= elf.identity.address
    && elf.identity.offset + elf.identity.size <= size
  }

  predicate Holds(h: Header, address: int) {
    h.kind == PT_LOAD && h.paddr <= address < h.paddr + h.filesz
  }

  function ClipStart(h: Header, origin: int): int { if h.paddr > origin then h.paddr else origin }

  function ClipEnd(h: Header, end: int): int { if h.paddr + h.filesz < end then h.paddr + h.filesz else end }

  /** The clipped segment is loadable and not empty. */
  predicate Feeds(h: Header, origin: int, end: int) {
    h.kind == PT_LOAD && h.filesz != 0 && ClipStart(h, origin) < ClipEnd(h, end)
  }

  predicate InFile(h: Header, origin: int, end: int, size: nat) {
    Feeds(h, origin, end) ==> h.offset + (ClipEnd(h, end) - h.paddr) <= size
  }

  /** Two segments meet inside [origin, end). */
  predicate Meet(g: Header, h: Header, origin: int, end: int) {
    exists address :: origin <= address < end && Holds(g, address) && Holds(h, address)
  }

  ghost predicate Disjoint(headers: seq<Header>, origin: int, end: int) {
    forall i, j :: 0 <= i < j < |headers| ==> !Meet(headers[i], headers[j], origin, end)
  }

  ghost predicate Held(headers: seq<Header>, address: int) {
    exists h :: h in headers && Holds(h, address)
  }

  /** The clipped segments are disjoint, lie in the file and leave no hole. */
  ghost predicate Tile(headers: seq<Header>, origin: int, end: int, size: nat) {
    && Disjoint(headers, origin, end)
    && (forall h :: h in headers ==> InFile(h, origin, end, size))
    && (forall address :: origin <= address < end ==> Held(headers, address))
  }

  /** The file offset of the byte for an address. */
  function FileOffset(h: Header, address: int): int { h.offset + (address - h.paddr) }

  /** If segment h holds the address of place i, its byte in the file is there. */
  ghost predicate Gives(coverage: Bytes, data: Bytes, h: Header, origin: int, i: nat)
    requires i < |coverage|
  {
    Holds(h, origin + i) ==>
      0 <= FileOffset(h, origin + i) < |data| && coverage[i] == data[FileOffset(h, origin + i)]
  }

  /** Each byte of the coverage is the byte of whichever segment holds its address. */
  ghost predicate Covers(coverage: Bytes, data: Bytes, headers: seq<Header>, origin: int, end: int) {
    && |coverage| == end - origin
    && forall h, i :: h in headers && 0 <= i < |coverage| ==> Gives(coverage, data, h, origin, i)
  }

  ghost predicate Succeeds(elf: Elf, size: nat, origin: int, flashLength: int) {
    ChecksPass(elf, size, origin, flashLength) && Tile(elf.headers, origin, elf.dataLoadEnd, size)
  }

  /** A layout of the file: its constants are the inputs, its coverage the file's bytes. */
  ghost predicate IsLayout(l: Layout, elf: Elf, data: Bytes, origin: int, flashLength: int) {
    && l == Layout(origin, flashLength, elf.dataLoadEnd, elf.identity.address, elf.identity.offset, l.coverage)
    && Covers(l.coverage, data, elf.headers, origin, elf.dataLoadEnd)
  }

  /** There is at most one. */
  lemma {:induction false} LayoutUnique(a: Layout, b: Layout, elf: Elf, data: Bytes, origin: int, flashLength: int)
    requires Succeeds(elf, |data|, origin, flashLength)
    requires IsLayout(a, elf, data, origin, flashLength) && IsLayout(b, elf, data, origin, flashLength)
    ensures a == b
  {
    forall i | 0 <= i < |a.coverage|
      ensures a.coverage[i] == b.coverage[i]
    {
      assert Held(elf.headers, origin + i);
      var h :| h in elf.headers && Holds(h, origin + i);
      assert Gives(a.coverage, data, h, origin, i) && Gives(b.coverage, data, h, origin, i);
    }
    assert a.coverage == b.coverage;
  }

  // ---- the loop ----

  /** What the two byte arrays show after the first n headers. */
  ghost predicate Painted(coverage: Bytes, covered: Bytes, data: Bytes, headers: seq<Header>, n: nat,
                          origin: int, end: int)
    requires n <= |headers|
  {
    && |covered| == |coverage| && Covers(coverage, data, headers[..n], origin, end)
    && forall i :: 0 <= i < |covered| ==> (covered[i] != 0 <==> Held(headers[..n], origin + i))
  }

  /** Paints one segment over a stretch nobody has painted. */
  method Paint(data: Bytes, coverage: array<byte>, covered: array<byte>, start: nat, end: nat, from: nat)
    requires coverage != covered && start <= end <= coverage.Length == covered.Length
    requires from + (end - start) <= |data|
    modifies coverage, covered
    ensures forall i :: 0 <= i < coverage.Length ==>
              coverage[i] == if start <= i < end then data[from + (i - start)] else old(coverage[i])
    ensures forall i :: 0 <= i < covered.Length ==> covered[i] == if start <= i < end then 1 else old(covered[i])
  {
    for i := start to end
      invariant forall k :: 0 <= k < coverage.Length ==>
                  coverage[k] == if start <= k < i then data[from + (k - start)] else old(coverage[k])
      invariant forall k :: 0 <= k < covered.Length ==> covered[k] == if start <= k < i then 1 else old(covered[k])
    {
      coverage[i] := data[from + (i - start)];
      covered[i] := 1;
    }
  }

  /** The loop's body for header n: false where the source fails. */
  method PaintHeader(data: Bytes, coverage: array<byte>, covered: array<byte>, ghost headers: seq<Header>,
                     ghost n: nat, h: Header, origin: int, end: int) returns (ok: bool)
    requires coverage != covered && origin < end && coverage.Length == covered.Length == end - origin
    requires n < |headers| && h == headers[n] && Painted(coverage[..], covered[..], data, headers, n, origin, end)
    modifies coverage, covered
    ensures ok <==> InFile(h, origin, end, |data|) && forall i :: 0 <= i < n ==> !Meet(headers[i], h, origin, end)
    ensures ok ==> Painted(coverage[..], covered[..], data, headers, n + 1, origin, end)
  {
    NextHeader(headers, n);
    if !Feeds(h, origin, end) {
      assert forall address :: origin <= address < end ==> !Holds(h, address);
      CoversNext(coverage[..], coverage[..], data, headers, n, origin, end);
      return true;
    }
    var start, stop := ClipStart(h, origin), ClipEnd(h, end);
    assert forall address :: origin <= address < end ==> (Holds(h, address) <==> start <= address < stop);
    if exists i :: start - origin <= i < stop - origin && covered[i] != 0 {
      ghost var i :| start - origin <= i < stop - origin && covered[i] != 0;
      assert Held(headers[..n], origin + i);
      return false;
    }
    ghost var was, before := coverage[..], covered[..];
    NobodyMeets(headers, n, before, origin, end);
    var from := h.offset + (start - h.paddr);
    if from + (stop - start) > |data| {
      return false;
    }
    Paint(data, coverage, covered, start - origin, stop - origin, from);
    forall i | 0 <= i < |was|
      ensures NextByte(was, coverage[..], data, headers, n, origin, i)
      ensures covered[i] != 0 <==> Held(headers[..n + 1], origin + i)
    {
      assert Held(headers[..n], origin + i) <==> before[i] != 0;
    }
    CoversNext(was, coverage[..], data, headers, n, origin, end);
    return true;
  }

  lemma {:induction false} NextHeader(headers: seq<Header>, n: nat)
    requires n < |headers|
    ensures forall h :: h in headers[..n + 1] <==> h in headers[..n] || h == headers[n]
    ensures forall address :: Held(headers[..n + 1], address)
                              <==> Held(headers[..n], address) || Holds(headers[n], address)
  {
    assert headers[..n + 1] == headers[..n] + [headers[n]];
  }

  /** Byte i after header n: painted by it for the first time, or left alone. */
  ghost predicate NextByte(was: Bytes, now: Bytes, data: Bytes, headers: seq<Header>, n: nat, origin: int, i: nat)
    requires n < |headers| && i < |was| == |now|
  {
    if Holds(headers[n], origin + i) then
      && !Held(headers[..n], origin + i) && 0 <= FileOffset(headers[n], origin + i) < |data|
      && now[i] == data[FileOffset(headers[n], origin + i)]
    else now[i] == was[i]
  }

  lemma {:induction false} CoversNext(was: Bytes, now: Bytes, data: Bytes, headers: seq<Header>, n: nat,
                                      origin: int, end: int)
    requires n < |headers| && |was| == |now| && Covers(was, data, headers[..n], origin, end)
    requires forall i :: 0 <= i < |was| ==> NextByte(was, now, data, headers, n, origin, i)
    ensures Covers(now, data, headers[..n + 1], origin, end)
  {
    NextHeader(headers, n);
    forall h, i | h in headers[..n + 1] && 0 <= i < |now|
      ensures Gives(now, data, h, origin, i)
    {
      assert NextByte(was, now, data, headers, n, origin, i);
      if h in headers[..n] {
        assert Gives(was, data, h, origin, i);
      }
    }
  }

  lemma {:induction false} NobodyMeets(headers: seq<Header>, n: nat, covered: Bytes, origin: int, end: int)
    requires n < |headers| && |covered| == end - origin
    requires forall i :: 0 <= i < |covered| ==> (covered[i] != 0 <==> Held(headers[..n], origin + i))
    requires forall i :: 0 <= i < |covered| && Holds(headers[n], origin + i) ==> covered[i] == 0
    ensures forall i :: 0 <= i < n ==> !Meet(headers[i], headers[n], origin, end)
  {
    forall i | 0 <= i < n
      ensures !Meet(headers[i], headers[n], origin, end)
    {
      forall address | origin <= address < end && Holds(headers[i], address)
        ensures !Holds(headers[n], address)
      {
        assert headers[i] in headers[..n];
        assert covered[address - origin] != 0;
      }
    }
  }

  /** `make_layout`: succeeds exactly when the checks pass and the clipped segments tile the
      covered part of flash, and then returns the layout. */
  method MakeLayout(data: array<byte>, elf: Elf, origin: int, flashLength: int) returns (r: Option<Layout>)
    ensures r.Some? <==> Succeeds(elf, data.Length, origin, flashLength)
    ensures r.Some? ==> IsLayout(r.value, elf, data[..], origin, flashLength)
  {
    var identity, end := elf.identity, elf.dataLoadEnd;
    if flashLength <= IDENTITY_SIZE {
      return None;
    }
    if identity.address != origin + flashLength - IDENTITY_SIZE || identity.size != IDENTITY_SIZE {
      return None;
    }
    if end <= origin || end > identity.address {
      return None;
    }
    if identity.offset + identity.size > data.Length {
      return None;
    }
    var coverage, covered := new byte[end - origin](_ => 0), new byte[end - origin](_ => 0);
    for n := 0 to |elf.headers|
      invariant Painted(coverage[..], covered[..], data[..], elf.headers, n, origin, end)
      invariant Disjoint(elf.headers[..n], origin, end)
      invariant forall h :: h in elf.headers[..n] ==> InFile(h, origin, end, data.Length)
    {
      var ok := PaintHeader(data[..], coverage, covered, elf.headers, n, elf.headers[n], origin, end);
      if !ok {
        return None;
      }
    }
    assert elf.headers[..|elf.headers|] == elf.headers;
    if exists i :: 0 <= i < covered.Length && covered[i] == 0 {
      ghost var i :| 0 <= i < covered.Length && covered[i] == 0;
      assert !Held(elf.headers, origin + i);
      return None;
    }
    forall address | origin <= address < end
      ensures Held(elf.headers, address)
    {
      assert covered[..][address - origin] != 0;
    }
    return Some(Layout(origin, flashLength, end, identity.address, identity.offset, coverage[..]));
  }

  // ---- what follows about layouts ----

  /** How many segments hold an address. */
  function Holders(headers: seq<Header>, address: int): nat {
    if headers == [] then 0
    else (if Holds(headers[0], address) then 1 else 0) + Holders(headers[1..], address)
  }

  lemma {:induction false} HoldersRemove(headers: seq<Header>, k: nat, address: int)
    requires k < |headers|
    ensures Holders(headers, address)
         == (if Holds(headers[k], address) then 1 else 0) + Holders(headers[..k] + headers[k + 1..], address)
  {
    if k == 0 {
      assert headers[..0] + headers[1..] == headers[1..];
    } else {
      HoldersRemove(headers[1..], k - 1, address);
      assert (headers[..k] + headers[k + 1..])[1..] == headers[1..][..k - 1] + headers[1..][k..];
    }
  }

  lemma {:induction false} HoldersPositive(headers: seq<Header>, address: int)
    ensures Holders(headers, address) > 0 <==> Held(headers, address)
  {
    if headers != [] {
      HoldersPositive(headers[1..], address);
      assert headers == [headers[0]] + headers[1..];
    }
  }

  lemma {:induction false} TwoHolders(headers: seq<Header>, i: nat, j: nat, address: int)
    requires i < j < |headers| && Holds(headers[i], address) && Holds(headers[j], address)
    ensures Holders(headers, address) >= 2
  {
    HoldersRemove(headers, i, address);
    var rest := headers[..i] + headers[i + 1..];
    assert rest[j - 1] == headers[j];
    assert headers[j] in rest;
    HoldersPositive(rest, address);
  }

  lemma {:induction false} FindTwoHolders(headers: seq<Header>, address: int) returns (i: nat, j: nat)
    requires Holders(headers, address) >= 2
    ensures i < j < |headers| && Holds(headers[i], address) && Holds(headers[j], address)
  {
    if Holds(headers[0], address) {
      HoldersPositive(headers[1..], address);
      var k :| 0 <= k < |headers[1..]| && Holds(headers[1..][k], address);
      i, j := 0, k + 1;
    } else {
      i, j := FindTwoHolders(headers[1..], address);
      i, j := i + 1, j + 1;
    }
  }

  ghost predicate AtMostOne(headers: seq<Header>, address: int) { Holders(headers, address) <= 1 }

  ghost predicate ExactlyOne(headers: seq<Header>, address: int) { Holders(headers, address) == 1 }

  lemma {:induction false} DisjointMeansNoTwo(headers: seq<Header>, origin: int, end: int)
    ensures Disjoint(headers, origin, end)
            <==> forall address :: origin <= address < end ==> AtMostOne(headers, address)
  {
    if Disjoint(headers, origin, end) {
      forall address | origin <= address < end
        ensures AtMostOne(headers, address)
      {
        if Holders(headers, address) >= 2 {
          var i, j := FindTwoHolders(headers, address);
          assert false;
        }
      }
    } else {
      var i, j :| 0 <= i < j < |headers| && Meet(headers[i], headers[j], origin, end);
      var address :| origin <= address < end && Holds(headers[i], address) && Holds(headers[j], address);
      TwoHolders(headers, i, j, address);
      assert !AtMostOne(headers, address);
    }
  }

  /** Tiling says that each covered address is held by exactly one segment. */
  lemma {:induction false} TileMeansOneHolder(headers: seq<Header>, origin: int, end: int, size: nat)
    ensures Tile(headers, origin, end, size)
            <==> && (forall address :: origin <= address < end ==> ExactlyOne(headers, address))
                 && (forall h :: h in headers ==> InFile(h, origin, end, size))
  {
    DisjointMeansNoTwo(headers, origin, end);
    forall address | origin <= address < end
      ensures ExactlyOne(headers, address) <==> Held(headers, address) && AtMostOne(headers, address)
    {
      HoldersPositive(headers, address);
    }
  }

  lemma {:induction false} MultisetRemove(s: seq<Header>, k: nat)
    requires k < |s|
    ensures multiset(s) == multiset{s[k]} + multiset(s[..k] + s[k + 1..])
  {
    assert s == s[..k] + ([s[k]] + s[k + 1..]);
  }

  lemma {:induction false} SameRest(a: seq<Header>, b: seq<Header>, k: nat)
    requires a != [] && k < |b| && a[0] == b[k] && multiset(a) == multiset(b)
    ensures multiset(a[1..]) == multiset(b[..k] + b[k + 1..])
  {
    MultisetRemove(a, 0);
    MultisetRemove(b, k);
    assert a[..0] + a[1..] == a[1..];
    MultisetCancel(a[0], multiset(a[1..]), multiset(b[..k] + b[k + 1..]));
  }

  lemma {:induction false} MultisetCancel(h: Header, x: multiset<Header>, y: multiset<Header>)
    requires multiset{h} + x == multiset{h} + y
    ensures x == y
  {
    assert x == (multiset{h} + x) - multiset{h};
    assert y == (multiset{h} + y) - multiset{h};
  }

  lemma {:induction false} HoldersReorder(a: seq<Header>, b: seq<Header>, address: int)
    requires multiset(a) == multiset(b)
    ensures Holders(a, address) == Holders(b, address)
    decreases |a|
  {
    assert |a| == |multiset(a)| == |b|;
    if a != [] {
      assert a[0] in multiset(b);
      var k :| 0 <= k < |b| && b[k] == a[0];
      HoldersRemove(b, k, address);
      SameRest(a, b, k);
      HoldersReorder(a[1..], b[..k] + b[k + 1..], address);
    }
  }

  /** The order of the program headers does not matter: not to whether there is a layout,
      and not to what it is. */
  lemma {:induction false} OrderDoesNotMatter(x: Elf, y: Elf, data: Bytes, origin: int, flashLength: int)
    requires y == x.(headers := y.headers) && multiset(x.headers) == multiset(y.headers)
    ensures Succeeds(x, |data|, origin, flashLength) <==> Succeeds(y, |data|, origin, flashLength)
    ensures forall l :: IsLayout(l, x, data, origin, flashLength) <==> IsLayout(l, y, data, origin, flashLength)
  {
    TileMeansOneHolder(x.headers, origin, x.dataLoadEnd, |data|);
    TileMeansOneHolder(y.headers, origin, x.dataLoadEnd, |data|);
    forall address | origin <= address < x.dataLoadEnd
      ensures ExactlyOne(x.headers, address) <==> ExactlyOne(y.headers, address)
    {
      HoldersReorder(x.headers, y.headers, address);
    }
    SameMembers(x.headers, y.headers);
  }

  lemma {:induction false} SameMembers(a: seq<Header>, b: seq<Header>)
    requires multiset(a) == multiset(b)
    ensures forall h :: h in a <==> h in b
  {
    assert forall h :: h in a <==> h in multiset(a);
  }

  // ---- in numbers ----

  /** Segment i, and no other, has a byte for the address. */
  ghost predicate OnlySegment(headers: seq<Header>, address: int, i: nat)
    requires i < |headers|
  {
    && headers[i].kind == 1 && headers[i].paddr <= address < headers[i].paddr + headers[i].filesz
    && forall j :: 0 <= j < |headers| && j != i ==>
         !(headers[j].kind == 1 && headers[j].paddr <= address < headers[j].paddr + headers[j].filesz)
  }

  ghost predicate HasOneSegment(headers: seq<Header>, address: int) {
    exists i :: 0 <= i < |headers| && OnlySegment(headers, address, i)
  }

  /** The byte a segment has for an address lies in the file. */
  ghost predicate ByteInFile(h: Header, address: int, size: nat) {
    h.kind == 1 && h.paddr <= address < h.paddr + h.filesz ==> h.offset + (address - h.paddr) < size
  }

  /** When a file has a layout: the identity is the last 64 bytes of a longer flash and lies in
      the file, the covered part begins at the origin and is not empty, each of its addresses
      has its byte from one loadable segment, and all those bytes are in the file. */
  lemma {:induction false} SuccessInNumbers(elf: Elf, size: nat, origin: int, flashLength: int)
    ensures Succeeds(elf, size, origin, flashLength) <==>
              && flashLength > 64 && elf.identity.size == 64 && elf.identity.address + 64 == origin + flashLength
              && origin < elf.dataLoadEnd <= elf.identity.address && elf.identity.offset + 64 <= size
              && (forall a :: origin <= a < elf.dataLoadEnd ==> HasOneSegment(elf.headers, a))
              && (forall h, a :: h in elf.headers && origin <= a < elf.dataLoadEnd ==> ByteInFile(h, a, size))
  {
    forall h | h in elf.headers
      ensures InFile(h, origin, elf.dataLoadEnd, size)
              <==> forall a :: origin <= a < elf.dataLoadEnd ==> ByteInFile(h, a, size)
    {
      InFileByBytes(h, origin, elf.dataLoadEnd, size);
    }
    TileMeansOneHolder(elf.headers, origin, elf.dataLoadEnd, size);
    forall a | origin <= a < elf.dataLoadEnd
      ensures ExactlyOne(elf.headers, a) <==> HasOneSegment(elf.headers, a)
    {
      OneHolder(elf.headers, a);
    }
  }

  lemma {:induction false} InFileByBytes(h: Header, origin: int, end: int, size: nat)
    ensures InFile(h, origin, end, size) <==> forall a :: origin <= a < end ==> ByteInFile(h, a, size)
  {
    if Feeds(h, origin, end) {
      var last := ClipEnd(h, end) - 1;
      assert h.paddr <= last < h.paddr + h.filesz && origin <= last < end;
      assert ByteInFile(h, last, size) <==> InFile(h, origin, end, size);
    }
  }

  lemma {:induction false} OneHolder(headers: seq<Header>, address: int)
    ensures ExactlyOne(headers, address) <==> HasOneSegment(headers, address)
  {
    HoldersPositive(headers, address);
    if ExactlyOne(headers, address) {
      var i :| 0 <= i < |headers| && Holds(headers[i], address);
      forall j | 0 <= j < |headers| && j != i
        ensures !Holds(headers[j], address)
      {
        if Holds(headers[j], address) {
          TwoHolders(headers, if i < j then i else j, if i < j then j else i, address);
        }
      }
      assert OnlySegment(headers, address, i);
    }
    if HasOneSegment(headers, address) {
      var i :| 0 <= i < |headers| && OnlySegment(headers, address, i);
      assert headers[i] in headers && Holds(headers[i], address);
      if Holders(headers, address) >= 2 {
        var a, b := FindTwoHolders(headers, address);
        assert false;
      }
    }
  }

  /** What the layout says: the inputs, and for each covered address the byte of its segment. */
  lemma {:induction false} LayoutInNumbers(elf: Elf, data: Bytes, origin: int, flashLength: int, l: Layout,
                                           a: int, i: nat)
    requires Succeeds(elf, |data|, origin, flashLength) && IsLayout(l, elf, data, origin, flashLength)
    requires origin <= a < elf.dataLoadEnd && i < |elf.headers| && OnlySegment(elf.headers, a, i)
    ensures l.origin == origin && l.flashLength == flashLength && l.dataLoadEnd == elf.dataLoadEnd
    ensures l.identityAddress == elf.identity.address && l.identityOffset == elf.identity.offset
    ensures |l.coverage| == elf.dataLoadEnd - origin
    ensures var at := elf.headers[i].offset + (a - elf.headers[i].paddr);
            0 <= at < |data| && l.coverage[a - origin] == data[at]
  {
    hide Succeeds;
    assert elf.headers[i] in elf.headers;
    assert Gives(l.coverage, data, elf.headers[i], origin, a - origin);
  }
}
