/** `verify_binary` and `verify_hex` of the image tool: the BIN and HEX files made from a
    stamped ELF file. */
module ImageFiles {
  import opened Bits
  import opened Options
  import opened ImageLayout
  import H = IntelHex

  const ERASED: byte := 0xff

  /** What the two commands rely on in a layout. */
  predicate Consistent(l: Layout) {
    0 <= l.origin && l.origin + |l.coverage| == l.dataLoadEnd <= l.identityAddress
  }

  lemma {:induction false} LayoutsAreConsistent(elf: Elf, data: Bytes, origin: int, flashLength: int, l: Layout)
    requires Succeeds(elf, |data|, origin, flashLength) && IsLayout(l, elf, data, origin, flashLength)
    ensures Consistent(l)
  {
    assert Held(elf.headers, origin);
  }

  /** The flash contents a layout and an identity describe. */
  function Flash(l: Layout, identity: Bytes): Bytes
    requires Consistent(l)
  {
    l.coverage + seq(l.identityAddress - l.dataLoadEnd, _ => ERASED) + identity
  }

  /** A BIN file in numbers: as long as the flash, with the coverage at its start, the identity
      in its last 64 bytes and 0xff in between. */
  lemma {:induction false} FlashInNumbers(data: Bytes, l: Layout, identity: Bytes)
    requires Consistent(l) && |identity| == 64
    ensures data == Flash(l, identity) <==>
              && |data| == l.identityAddress + 64 - l.origin
              && forall i :: 0 <= i < |data| ==>
                   data[i] == if i < |l.coverage| then l.coverage[i]
                              else if i < l.identityAddress - l.origin then 0xff
                              else identity[i - (l.identityAddress - l.origin)]
  {
    var flash := Flash(l, identity);
    assert |flash| == l.identityAddress + 64 - l.origin;
    if |data| == |flash| && forall i :: 0 <= i < |data| ==> data[i] == flash[i] {
      assert data == flash;
    }
  }

  /** `verify_binary`. */
  method VerifyBinary(data: Bytes, l: Layout, identity: Bytes) returns (ok: bool)
    requires Consistent(l) && |identity| == IDENTITY_SIZE
    ensures ok <==> data == Flash(l, identity)
  {
    var gapStart, gapEnd := l.dataLoadEnd - l.origin, l.identityAddress - l.origin;
    if |data| != l.Span() {
      return false;
    }
    if data[..|l.coverage|] != l.coverage {
      return false;
    }
    for i := gapStart to gapEnd
      invariant forall k :: gapStart <= k < i ==> data[k] == ERASED
    {
      if data[i] != ERASED {
        assert Flash(l, identity)[i] == ERASED;
        return false;
      }
    }
    if data[gapEnd..] != identity {
      assert Flash(l, identity)[gapEnd..] == identity;
      return false;
    }
    assert data == data[..gapStart] + data[gapStart..gapEnd] + data[gapEnd..];
    return true;
  }

  function Expected(l: Layout, identity: Bytes): map<int, byte>
    requires Consistent(l)
  {
    H.Placed(H.Placed(map[], l.origin, l.coverage), l.identityAddress, identity)
  }

  /** The memory map expected of a HEX file, in numbers: the coverage from the origin on, the
      identity from its address on, and nothing else. */
  lemma {:induction false} ExpectedInNumbers(l: Layout, identity: Bytes, a: int)
    requires Consistent(l)
    ensures var m := Expected(l, identity);
            && (a in m <==> l.origin <= a < l.origin + |l.coverage|
                            || l.identityAddress <= a < l.identityAddress + |identity|)
            && (l.origin <= a < l.origin + |l.coverage| ==> m[a] == l.coverage[a - l.origin])
            && (l.identityAddress <= a < l.identityAddress + |identity| ==> m[a] == identity[a - l.identityAddress])
  {
    var c := H.Placed(map[], l.origin, l.coverage);
    assert a in c <==> l.origin <= a < l.origin + |l.coverage|;
  }

  /** `verify_hex`. */
  method VerifyHex(records: seq<Bytes>, l: Layout, identity: Bytes) returns (ok: bool)
    requires Consistent(l)
    ensures ok <==> H.Parsed(records) == Some(Expected(l, identity))
  {
    var actual := H.Parse(records);
    ok := actual.Some? && actual.value == Expected(l, identity);
  }

  /** When both commands accept, the BIN is the memory map of the HEX, from the flash origin
      on, with erased bytes where the HEX has none. */
  lemma {:induction false} BinaryIsHex(data: Bytes, records: seq<Bytes>, l: Layout, identity: Bytes)
    requires Consistent(l) && |identity| == IDENTITY_SIZE
    requires data == Flash(l, identity) && H.Parsed(records) == Some(Expected(l, identity))
    ensures var hex := H.Parsed(records).value;
            && (forall a :: a in hex ==> l.origin <= a < l.origin + |data|)
            && (forall i :: 0 <= i < |data| ==> data[i] == if l.origin + i in hex then hex[l.origin + i] else 0xff)
            && (forall a :: a in hex <==> l.origin <= a < l.dataLoadEnd || l.identityAddress <= a < l.IdentityEnd())
  {
    var hex := H.Parsed(records).value;
    forall i | 0 <= i < |data|
      ensures data[i] == if l.origin + i in hex then hex[l.origin + i] else 0xff
    {
    }
  }
}
