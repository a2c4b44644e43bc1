/** The `stamp` and `verify` commands of the image tool, over an ELF file held as a mutable
    byte array. What the ELF parser reads outside the identity's bytes is taken as given and
    unchanged by stamping. */
module ImageTool {
  import opened Bits
  import opened Options
  import opened Endian
  import opened ImageLayout
  import opened ImageIdentity
  import Crc32

  /** The bytes of a file after `identity` was written at an offset. */
  function Spliced(data: Bytes, offset: nat, identity: Bytes): (r: Bytes)
    requires offset + |identity| <= |data|
    ensures |r| == |data|
  {
    data[..offset] + identity + data[offset + |identity|..]
  }

  /** What the arguments of `stamp` say about an image. */
  datatype Mark = Mark(major: byte, minor: byte, text: Bytes, dirty: bool, debug: bool)

  /** The 64 bytes for a mark, a span and a content length, with a given CRC. */
  function Marked(m: Mark, span: uint32, length: uint32, crc: uint32): (b: Bytes)
    requires 1 <= |m.text| <= 16
    ensures |b| == 64
  {
    [0x4d, 0x53, 0x50, 0x4d, 1, 0, 64, 0, m.major, m.minor, (if m.dirty then 1 else 0) + (if m.debug then 2 else 0), 0]
    + LowFirst(span) + LowFirst(crc) + m.text + Repeat(0, 16 - |m.text|) + LowFirst(length) + Repeat(0xff, 24)
  }

  /** The CRC over the covered content and the block with zeros for the CRC. */
  function Seal(m: Mark, span: uint32, coverage: Bytes): uint32
    requires 1 <= |m.text| <= 16 && |coverage| < W32
  {
    Crc32.Crc(coverage + Marked(m, span, |coverage|, 0))
  }

  /** The block that `stamp` writes. */
  function Sealed(m: Mark, span: uint32, coverage: Bytes): (b: Bytes)
    requires 1 <= |m.text| <= 16 && |coverage| < W32
    ensures |b| == 64
  {
    Marked(m, span, |coverage|, Seal(m, span, coverage))
  }

  /** What `verify` reads back from it. */
  function MarkedFields(m: Mark, span: uint32, coverage: Bytes): Fields
    requires 1 <= |m.text| <= 16 && |coverage| < W32
  {
    Fields(m.major, m.minor, (if m.dirty then 1 else 0) + (if m.debug then 2 else 0), Seal(m, span, coverage),
           m.text, span, |coverage|)
  }

  function Flags(dirty: bool, debug: bool): uint16 {
    BitOr(if debug then FLAG_DEBUG else 0, if dirty then FLAG_SOURCE_DIRTY else 0)
  }

  lemma {:induction false} FlagsKnown(dirty: bool, debug: bool)
    ensures Flags(dirty, debug) == (if dirty then 1 else 0) + (if debug then 2 else 0)
  {
    assert Pow2(1) == 2;
    OrDisjoint(if dirty then 1 else 0, if debug then 1 else 0, 1);
  }

  /** `build_identity` makes these bytes of these arguments. */
  lemma {:induction false} MarkedIsBuilt(m: Mark, span: uint32, length: uint32, crc: uint32)
    requires SourceText(m.text)
    ensures Marked(m, span, length, crc)
         == Block(Fields(m.major, m.minor, Flags(m.dirty, m.debug), crc, Padded(m.text), span, length))
  {
    hide Block, LowFirst, Repeat;
    FlagsKnown(m.dirty, m.debug);
    BlockBytes(Fields(m.major, m.minor, Flags(m.dirty, m.debug), crc, Padded(m.text), span, length));
  }

  /** Over the layout it was made for, the block decodes to what was marked. */
  lemma {:induction false} SealedDecodes(m: Mark, l: Layout)
    requires SourceText(m.text) && 0 <= l.Span() < W32 && |l.coverage| < W32
    ensures DecodeIdentity(Sealed(m, l.Span(), l.coverage), l) == Some(MarkedFields(m, l.Span(), l.coverage))
  {
    hide Block, Marked, DecodeIdentity, Padded;
    var f := MarkedFields(m, l.Span(), l.coverage);
    FlagsKnown(m.dirty, m.debug);
    MarkedIsBuilt(m, l.Span(), |l.coverage|, 0);
    MarkedIsBuilt(m, l.Span(), |l.coverage|, f.crc);
    DecodeInvertsBuild(Sealed(m, l.Span(), l.coverage), l, f);
  }

  /** The identity bytes a verified file holds. */
  ghost predicate Verifies(elf: Elf, data: Bytes, origin: int, flashLength: int, l: Layout, f: Fields) {
    && Succeeds(elf, |data|, origin, flashLength) && IsLayout(l, elf, data, origin, flashLength)
    && DecodeIdentity(data[l.identityOffset..l.identityOffset + IDENTITY_SIZE], l) == Some(f)
  }

  class ElfImage {
    const elf: Elf
    const data: array<byte>

    constructor (elf: Elf, data: array<byte>)
      ensures this.elf == elf && this.data == data
    {
      this.elf, this.data := elf, data;
    }

    /** `write_identity`. */
    method WriteIdentity(l: Layout, identity: Bytes)
      requires |identity| == IDENTITY_SIZE && l.identityOffset + IDENTITY_SIZE <= data.Length
      modifies data
      ensures data[..] == Spliced(old(data[..]), l.identityOffset, identity)
    {
      for i := 0 to |identity|
        invariant data[..] == Spliced(old(data[..]), l.identityOffset, identity[..i])
      {
        data[l.identityOffset + i] := identity[i];
        SpliceNext(old(data[..]), l.identityOffset, identity, i);
      }
      assert identity[..|identity|] == identity;
    }

    /** `verify_elf`: the fields of the identity, if it is good. */
    method VerifyElf(l: Layout) returns (r: Option<Fields>)
      requires l.identityOffset + IDENTITY_SIZE <= data.Length
      ensures r == DecodeIdentity(data[l.identityOffset..l.identityOffset + IDENTITY_SIZE], l)
    {
      r := DecodeIdentity(data[l.identityOffset..l.identityOffset + IDENTITY_SIZE], l);
    }

    /** `verify` of the ELF file alone. */
    method Verify(origin: int, flashLength: int) returns (r: Option<Fields>, ghost l: Layout)
      ensures r.Some? ==> Verifies(elf, data[..], origin, flashLength, l, r.value)
      ensures r.None? ==> forall k, f :: !Verifies(elf, data[..], origin, flashLength, k, f)
    {
      var layout := MakeLayout(data, elf, origin, flashLength);
      l := Layout(0, 0, 0, 0, 0, []);
      if layout.None? {
        return None, l;
      }
      l := layout.value;
      r := VerifyElf(layout.value);
      forall k, f | r.None?
        ensures !Verifies(elf, data[..], origin, flashLength, k, f)
      {
        if IsLayout(k, elf, data[..], origin, flashLength) {
          LayoutUnique(k, l, elf, data[..], origin, flashLength);
        }
      }
    }

    /** `stamp`. It fails, and leaves the file alone, exactly when there is no layout, the
        source identifier is refused or the span does not fit its 32-bit field; otherwise it
        writes the one block with the given fields and the CRC over it and the coverage, and
        accepts it. */
    method Stamp(origin: int, flashLength: int, major: byte, minor: byte, sourceId: string, dirty: bool, debug: bool)
      returns (ok: bool, ghost l: Layout)
      modifies data
      ensures ok <==> && Succeeds(elf, data.Length, origin, flashLength)
                      && EncodeSourceId(sourceId).Some? && flashLength < W32
      ensures !ok ==> data[..] == old(data[..])
      ensures ok ==> IsLayout(l, elf, old(data[..]), origin, flashLength)
                     && Ascii(sourceId).Some?
                     && Stamped(old(data[..]), data[..], l, Mark(major, minor, Ascii(sourceId).value, dirty, debug))
      ensures ok ==> && elf.identity.offset + 64 <= data.Length
                     && Says(data[elf.identity.offset..elf.identity.offset + 64],
                             Mark(major, minor, Ascii(sourceId).value, dirty, debug), flashLength, l.coverage)
    {
      var layout := MakeLayout(data, elf, origin, flashLength);
      l := Layout(0, 0, 0, 0, 0, []);
      if layout.None? {
        return false, l;
      }
      l := layout.value;
      SpanOf(l, elf, data[..], origin, flashLength);
      var identity := MakeIdentity(layout.value, major, minor, sourceId, dirty, debug);
      if identity.None? {
        return false, l;
      }
      StampAccepted(data[..], l, Mark(major, minor, Ascii(sourceId).value, dirty, debug));
      WriteIdentity(layout.value, identity.value);
      var verified := VerifyElf(layout.value);
      if verified.None? {
        // The final check of the source never fails.
        assert false;
      }
      StampedBytes(elf, old(data[..]), data[..], origin, flashLength, l,
                   Mark(major, minor, Ascii(sourceId).value, dirty, debug));
      return true, l;
    }
  }

  lemma {:induction false} SpanOf(l: Layout, elf: Elf, data: Bytes, origin: int, flashLength: int)
    requires Succeeds(elf, |data|, origin, flashLength) && IsLayout(l, elf, data, origin, flashLength)
    ensures l.Span() == flashLength > |l.coverage| && l.identityOffset + IDENTITY_SIZE <= |data|
  {
  }

  /** The middle of `stamp`: the block without its CRC, the CRC, the block with it. */
  method MakeIdentity(l: Layout, major: byte, minor: byte, sourceId: string, dirty: bool, debug: bool)
    returns (identity: Option<Bytes>)
    requires l.Span() > |l.coverage|
    ensures identity.Some? <==> EncodeSourceId(sourceId).Some? && l.Span() < W32
    ensures identity.Some? ==>
              && Ascii(sourceId).Some? && SourceText(Ascii(sourceId).value)
              && identity.value == Sealed(Mark(major, minor, Ascii(sourceId).value, dirty, debug), l.Span(), l.coverage)
  {
    var flags := Flags(dirty, debug);
    var source := EncodeSourceId(sourceId);
    if source.None? {
      return None;
    }
    var span, length := l.Span(), |l.coverage|;
    var unsigned := BuildIdentity(major, minor, source.value, flags, span, length, 0);
    if unsigned.None? {
      return None;
    }
    var crc := Crc32.Compute(l.coverage + unsigned.value);
    identity := BuildIdentity(major, minor, source.value, flags, span, length, crc);
    if identity.Some? {
      ghost var m := Mark(major, minor, Ascii(sourceId).value, dirty, debug);
      MarkedIsBuilt(m, span, length, 0);
      MarkedIsBuilt(m, span, length, crc);
    }
  }

  /** `after` is `before` with the block for the mark at the identity's file offset. */
  ghost predicate Stamped(before: Bytes, after: Bytes, l: Layout, m: Mark) {
    && SourceText(m.text) && 0 <= l.Span() < W32 && |l.coverage| < W32
    && l.identityOffset + IDENTITY_SIZE <= |before|
    && after == Spliced(before, l.identityOffset, Sealed(m, l.Span(), l.coverage))
  }

  lemma {:induction false} StampAccepted(before: Bytes, l: Layout, m: Mark)
    requires SourceText(m.text) && 0 <= l.Span() < W32 && |l.coverage| < W32
    requires l.identityOffset + IDENTITY_SIZE <= |before|
    ensures var after := Spliced(before, l.identityOffset, Sealed(m, l.Span(), l.coverage));
            DecodeIdentity(after[l.identityOffset..l.identityOffset + IDENTITY_SIZE], l)
            == Some(MarkedFields(m, l.Span(), l.coverage))
  {
    hide Sealed, DecodeIdentity, MarkedFields;
    var b := Sealed(m, l.Span(), l.coverage);
    assert Spliced(before, l.identityOffset, b)[l.identityOffset..l.identityOffset + IDENTITY_SIZE] == b;
    SealedDecodes(m, l);
  }

  // ---- stamping and layouts ----

  /** Segment h puts the file's byte at its offset for `address` into the coverage. */
  ghost predicate Used(elf: Elf, origin: int, h: Header, address: int) {
    h in elf.headers && origin <= address < elf.dataLoadEnd && Holds(h, address)
  }

  ghost predicate SameByte(elf: Elf, x: Bytes, y: Bytes, origin: int, h: Header, address: int) {
    Used(elf, origin, h, address) && 0 <= FileOffset(h, address) < |x| == |y| ==>
      x[FileOffset(h, address)] == y[FileOffset(h, address)]
  }

  /** Changing a file keeps its layout exactly when no byte that feeds the coverage changes. */
  lemma {:induction false} LayoutKept(elf: Elf, x: Bytes, y: Bytes, origin: int, flashLength: int, l: Layout)
    requires Succeeds(elf, |x|, origin, flashLength) && IsLayout(l, elf, x, origin, flashLength) && |y| == |x|
    ensures IsLayout(l, elf, y, origin, flashLength) <==> forall h, address :: SameByte(elf, x, y, origin, h, address)
  {
    if forall h, address :: SameByte(elf, x, y, origin, h, address) {
      forall h, i | h in elf.headers && 0 <= i < |l.coverage|
        ensures Gives(l.coverage, y, h, origin, i)
      {
        assert Gives(l.coverage, x, h, origin, i);
        assert SameByte(elf, x, y, origin, h, origin + i);
      }
    } else {
      var h, address :| !SameByte(elf, x, y, origin, h, address);
      var i := address - origin;
      assert address == origin + i;
      assert Gives(l.coverage, x, h, origin, i);
      assert !Gives(l.coverage, y, h, origin, i);
    }
  }

  /** The identity's file range feeds no covered address. */
  ghost predicate IdentityApart(elf: Elf, origin: int) {
    forall h, address :: Used(elf, origin, h, address) ==>
      !(elf.identity.offset <= FileOffset(h, address) < elf.identity.offset + IDENTITY_SIZE)
  }

  /** Where the identity's file range does feed a covered address, the byte stamped is the byte
      that was there. */
  ghost predicate StampHarmless(elf: Elf, before: Bytes, origin: int, b: Bytes)
    requires |b| == IDENTITY_SIZE && elf.identity.offset + IDENTITY_SIZE <= |before|
  {
    forall h, address :: StampsSame(elf, before, origin, b, h, address)
  }

  ghost predicate StampsSame(elf: Elf, before: Bytes, origin: int, b: Bytes, h: Header, address: int)
    requires |b| == IDENTITY_SIZE && elf.identity.offset + IDENTITY_SIZE <= |before|
  {
    var at := FileOffset(h, address) - elf.identity.offset;
    Used(elf, origin, h, address) && 0 <= at < IDENTITY_SIZE ==> before[elf.identity.offset + at] == b[at]
  }

  /** Stamp, then verify. `verify` accepts the stamped file, with the layout it had and the
      fields stamped, if and only if stamping changed no byte that feeds the coverage; so it
      does when the identity's file range feeds no covered address. Stamping again with the
      same arguments changes nothing. */
  lemma {:induction false} StampThenVerify(elf: Elf, before: Bytes, after: Bytes, origin: int, flashLength: int,
                                           l: Layout, m: Mark)
    requires Succeeds(elf, |before|, origin, flashLength) && IsLayout(l, elf, before, origin, flashLength)
    requires Stamped(before, after, l, m)
    ensures 0 <= flashLength < W32
    ensures var b := Sealed(m, flashLength, l.coverage);
            && (Verifies(elf, after, origin, flashLength, l, MarkedFields(m, flashLength, l.coverage))
                <==> StampHarmless(elf, before, origin, b))
            && (IdentityApart(elf, origin) ==> StampHarmless(elf, before, origin, b))
    ensures Stamped(after, after, l, m)
  {
    hide Sealed, DecodeIdentity, MarkedFields;
    var b := Sealed(m, l.Span(), l.coverage);
    SpanOf(l, elf, before, origin, flashLength);
    HarmlessMeansKept(elf, before, origin, flashLength, l, b);
    StampAccepted(before, l, m);
    SpliceTwice(before, l.identityOffset, b);
  }

  /** A 64-byte block says this, byte by byte, and its CRC is that of the coverage and of the
      block with zeros for the CRC. */
  ghost predicate Says(b: Bytes, m: Mark, span: int, coverage: Bytes) {
    && |b| == 64 && 1 <= |m.text| <= 16
    && b[0..8] == [0x4d, 0x53, 0x50, 0x4d, 1, 0, 64, 0]
    && b[8] == m.major && b[9] == m.minor
    && b[10] == (if m.dirty then 1 else 0) + (if m.debug then 2 else 0) && b[11] == 0
    && FromLittle(b[12..16]) == span
    && FromLittle(b[16..20]) == Crc32.Crc(coverage + (b[..16] + [0, 0, 0, 0] + b[20..]))
    && b[20..36] == m.text + seq(16 - |m.text|, _ => 0)
    && FromLittle(b[36..40]) == |coverage|
    && b[40..64] == seq(24, _ => 0xff)
  }

  /** What a stamped file holds, from the arguments: the block that says them at the identity's
      place, with the flash length for the span, and nothing else changed. */
  lemma {:induction false} StampedBytes(elf: Elf, before: Bytes, after: Bytes, origin: int, flashLength: int,
                                        l: Layout, m: Mark)
    requires Succeeds(elf, |before|, origin, flashLength) && IsLayout(l, elf, before, origin, flashLength)
    requires Stamped(before, after, l, m)
    ensures var o: int := elf.identity.offset;
            && |after| == |before| && o + 64 <= |after|
            && (forall i :: 0 <= i < |after| && !(o <= i < o + 64) ==> after[i] == before[i])
            && Says(after[o..o + 64], m, flashLength, l.coverage) && |l.coverage| == elf.dataLoadEnd - origin
  {
    hide Says, Sealed, Succeeds;
    SpanOf(l, elf, before, origin, flashLength);
    SealedSays(m, flashLength, l.coverage);
    var o: int, b := elf.identity.offset, Sealed(m, flashLength, l.coverage);
    assert after[o..o + 64] == b;
  }

  /** What `verify` returns for a stamped file it accepts: the arguments of the stamp, with the
      flash length and the length of the covered content. */
  lemma {:induction false} VerifiedFields(elf: Elf, before: Bytes, after: Bytes, origin: int, flashLength: int,
                                          l: Layout, m: Mark, k: Layout, f: Fields)
    requires Succeeds(elf, |before|, origin, flashLength) && IsLayout(l, elf, before, origin, flashLength)
    requires Stamped(before, after, l, m) && Verifies(elf, after, origin, flashLength, k, f)
    ensures f.major == m.major && f.minor == m.minor && f.source == m.text
    ensures f.flags == (if m.dirty then 1 else 0) + (if m.debug then 2 else 0)
    ensures f.span == flashLength && f.contentLength == elf.dataLoadEnd - origin
  {
    hide Sealed, Succeeds, FromLittle, Padded, DecodeSource;
    StampedBytes(elf, before, after, origin, flashLength, l, m);
    var b := after[elf.identity.offset..elf.identity.offset + IDENTITY_SIZE];
    TwoByteFlags(b, if m.dirty then 1 else 0, if m.debug then 2 else 0);
    SourceRoundTrip(b[20..36], f.source);
    SourceRoundTrip(b[20..36], m.text);
    PaddedText(m.text);
  }

  lemma {:induction false} PaddedText(text: Bytes)
    requires |text| <= 16
    ensures Padded(text) == text + seq(16 - |text|, _ => 0)
  {
  }

  lemma {:induction false} TwoByteFlags(b: Bytes, dirty: nat, debug: nat)
    requires |b| == 64 && b[10] == dirty + debug && b[11] == 0
    ensures FromLittle(b[10..12]) == dirty + debug
  {
    assert b[10..12] == [b[10], b[11]];
    assert [b[10], b[11]][1..] == [b[11]] && [b[11]][1..] == [];
    assert FromLittle([b[11]]) == b[11] + 256 * FromLittle([]);
  }

  lemma {:induction false} SealedSays(m: Mark, span: uint32, coverage: Bytes)
    requires 1 <= |m.text| <= 16 && |coverage| < W32
    ensures Says(Sealed(m, span, coverage), m, span, coverage)
  {
    var crc := Seal(m, span, coverage);
    hide Marked, FromLittle;
    MarkedParts(m, span, |coverage|, crc);
    MarkedZero(m, span, |coverage|, crc);
  }

  lemma {:induction false} WordBack(w: uint32)
    ensures FromLittle(LowFirst(w)) == w
  {
    Limits();
    LowFirstBytes(w);
    LittleRoundTrip(w, 4);
  }

  lemma {:induction false} MarkedParts(m: Mark, span: uint32, length: uint32, crc: uint32)
    requires 1 <= |m.text| <= 16
    ensures var b := Marked(m, span, length, crc);
            && b[0..8] == [0x4d, 0x53, 0x50, 0x4d, 1, 0, 64, 0] && b[8] == m.major && b[9] == m.minor
            && b[10] == (if m.dirty then 1 else 0) + (if m.debug then 2 else 0) && b[11] == 0
            && FromLittle(b[12..16]) == span && FromLittle(b[16..20]) == crc
            && b[20..36] == m.text + seq(16 - |m.text|, _ => 0)
            && FromLittle(b[36..40]) == length && b[40..64] == seq(24, _ => 0xff)
  {
    hide LowFirst, FromLittle;
    WordBack(span);
    WordBack(crc);
    WordBack(length);
    var b := Marked(m, span, length, crc);
    assert b[12..16] == LowFirst(span) && b[16..20] == LowFirst(crc) && b[36..40] == LowFirst(length);
  }

  lemma {:induction false} MarkedZero(m: Mark, span: uint32, length: uint32, crc: uint32)
    requires 1 <= |m.text| <= 16
    ensures var b := Marked(m, span, length, crc);
            Marked(m, span, length, 0) == b[..16] + [0, 0, 0, 0] + b[20..]
  {
    assert LowFirst(0) == [0, 0, 0, 0];
  }

  lemma {:induction false} HarmlessMeansKept(elf: Elf, before: Bytes, origin: int, flashLength: int,
                                             l: Layout, b: Bytes)
    requires Succeeds(elf, |before|, origin, flashLength) && IsLayout(l, elf, before, origin, flashLength)
    requires |b| == IDENTITY_SIZE && l.identityOffset + IDENTITY_SIZE <= |before|
    ensures IsLayout(l, elf, Spliced(before, l.identityOffset, b), origin, flashLength)
            <==> StampHarmless(elf, before, origin, b)
  {
    var after := Spliced(before, l.identityOffset, b);
    LayoutKept(elf, before, after, origin, flashLength, l);
    forall h, address
      ensures SameByte(elf, before, after, origin, h, address) <==> StampsSame(elf, before, origin, b, h, address)
    {
      if Used(elf, origin, h, address) {
        UsedInFile(elf, |before|, origin, flashLength, h, address);
      }
    }
  }

  lemma {:induction false} UsedInFile(elf: Elf, size: nat, origin: int, flashLength: int, h: Header, address: int)
    requires Succeeds(elf, size, origin, flashLength) && Used(elf, origin, h, address)
    ensures 0 <= FileOffset(h, address) < size
  {
    assert InFile(h, origin, elf.dataLoadEnd, size);
  }

  lemma {:induction false} SpliceNext(before: Bytes, offset: nat, b: Bytes, i: nat)
    requires i < |b| && offset + |b| <= |before|
    ensures Spliced(before, offset, b[..i + 1]) == Spliced(before, offset, b[..i])[offset + i := b[i]]
  {
  }

  lemma {:induction false} SpliceTwice(before: Bytes, offset: nat, b: Bytes)
    requires offset + |b| <= |before|
    ensures Spliced(Spliced(before, offset, b), offset, b) == Spliced(before, offset, b)
  {
    var after := Spliced(before, offset, b);
    assert after[..offset] == before[..offset] && after[offset + |b|..] == before[offset + |b|..];
  }

  /** Files that differ in the covered content only, inside a window of four bytes, are never
      both accepted. */
  lemma {:induction false} ChangedContentRejected(elf: Elf, x: Bytes, y: Bytes, origin: int, flashLength: int,
                                                  l: Layout, k: Layout, f: Fields, g: Fields, start: nat)
    requires Verifies(elf, x, origin, flashLength, l, f) && |y| == |x|
    requires IsLayout(k, elf, y, origin, flashLength) && k.coverage != l.coverage
    requires forall i :: 0 <= i < |l.coverage| && !(start <= i < start + 4) ==> k.coverage[i] == l.coverage[i]
    requires y[l.identityOffset..l.identityOffset + IDENTITY_SIZE]
          == x[l.identityOffset..l.identityOffset + IDENTITY_SIZE]
    ensures !Verifies(elf, y, origin, flashLength, k, g)
  {
    CoveredChangeRejected(x[l.identityOffset..l.identityOffset + IDENTITY_SIZE], l, k.coverage, start);
    assert k == l.(coverage := k.coverage);
  }

  /** A file whose identity ends 2^32 bytes after the flash origin: one covered byte, at
      address 0, and the identity in the last 64 bytes below 2^32. */
  const OVERLONG: Elf := Elf([Header(PT_LOAD, 0, 0, 1)], Section(0xFFFF_FFC0, 1, IDENTITY_SIZE), 1)

  lemma {:induction false} OverlongSucceeds()
    ensures Succeeds(OVERLONG, 1 + IDENTITY_SIZE, 0, W32)
  {
    var h := Header(PT_LOAD, 0, 0, 1);
    assert OVERLONG.headers == [h] && h in OVERLONG.headers && Holds(h, 0);
    assert Held(OVERLONG.headers, 0);
  }

  lemma {:induction false} OneByteCovers(h: Header, coverage: Bytes, data: Bytes)
    requires h.offset == h.paddr == 0 && data != [] && |coverage| == 1 && coverage[0] == data[0]
    ensures Covers(coverage, data, [h], 0, 1)
  {
    forall g, i | g in [h] && 0 <= i < |coverage|
      ensures Gives(coverage, data, g, 0, i)
    {
      assert g == h && i == 0;
      assert FileOffset(h, 0) == 0;
    }
  }

  /** It has a layout, and its span does not fit: the failure of `stamp` that has no message of
      its own can be reached. */
  lemma {:induction false} SpanMayNotFit(data: Bytes) returns (l: Layout)
    requires |data| == 1 + IDENTITY_SIZE
    ensures Succeeds(OVERLONG, |data|, 0, W32) && IsLayout(l, OVERLONG, data, 0, W32) && l.Span() == W32
  {
    hide Succeeds, Covers;
    OverlongSucceeds();
    OneByteCovers(OVERLONG.headers[0], [data[0]], data);
    assert OVERLONG.headers == [OVERLONG.headers[0]];
    l := Layout(0, W32, 1, 0xFFFF_FFC0, 1, [data[0]]);
  }
}
