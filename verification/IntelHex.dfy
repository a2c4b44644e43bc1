/** `parse_intel_hex` of the image tool, on records already decoded from their hexadecimal
    text: byte count, address, type, payload, checksum. */
module IntelHex {
  import opened Bits
  import opened Options

  const DATA := 0
  const END_OF_FILE := 1
  const EXTENDED_SEGMENT := 2
  const START_SEGMENT := 3
  const EXTENDED_LINEAR := 4
  const START_LINEAR := 5

  /** What the loop has seen. */
  datatype Progress = Progress(values: map<int, byte>, base: nat, sawEof: bool)

  const START: Progress := Progress(map[], 0, false)

  function Sum(b: Bytes): nat
    decreases |b|
  {
    if b == [] then 0 else Sum(b[..|b| - 1]) + b[|b| - 1]
  }

  /** Length and checksum of one record are right. */
  predicate RecordOk(r: Bytes) { |r| >= 5 && |r| == r[0] as int + 5 && Sum(r) % 256 == 0 }

  function Address(r: Bytes): nat
    requires RecordOk(r)
  {
    256 * r[1] as int + r[2] as int
  }

  function Payload(r: Bytes): (p: Bytes)
    requires RecordOk(r)
    ensures |p| == r[0]
  {
    r[4..4 + r[0] as int]
  }

  function Word(p: Bytes): nat
    requires |p| == 2
  {
    256 * p[0] as int + p[1] as int
  }

  /** The map with the bytes of a data record in place. */
  function Placed(values: map<int, byte>, start: nat, p: Bytes): (r: map<int, byte>)
    ensures forall a :: a in r <==> a in values || start <= a < start + |p|
    ensures forall a :: a in r ==> r[a] == if start <= a < start + |p| then p[a - start] else values[a]
    decreases |p|
  {
    if p == [] then values
    else
      var last := |p| - 1;
      Placed(values, start, p[..last])[start + last := p[last]]
  }

  /** None of the addresses is taken. */
  predicate Unused(values: map<int, byte>, start: nat, n: nat) {
    forall a :: start <= a < start + n ==> a !in values
  }

  /** One record: the loop's new state, or None where the source fails. */
  function Take(s: Progress, r: Bytes): Option<Progress> {
    if !RecordOk(r) || s.sawEof then None
    else
      var count, kind, p := r[0], r[3], Payload(r);
      if kind == DATA then
        if Unused(s.values, s.base + Address(r), count)
        then Some(s.(values := Placed(s.values, s.base + Address(r), p))) else None
      else if kind == END_OF_FILE then
        if count == 0 && Address(r) == 0 then Some(s.(sawEof := true)) else None
      else if kind == EXTENDED_SEGMENT then
        if count == 2 && Address(r) == 0 then Some(s.(base := Word(p) * 16)) else None
      else if kind == EXTENDED_LINEAR then
        if count == 2 && Address(r) == 0 then Some(s.(base := Word(p) * W16)) else None
      else if kind == START_SEGMENT || kind == START_LINEAR then
        if count == 4 && Address(r) == 0 then Some(s) else None
      else None
  }

  function TakeAll(s: Progress, records: seq<Bytes>): Option<Progress>
    decreases |records|
  {
    if records == [] then Some(s)
    else
      match Take(s, records[0])
      case None => None
      case Some(n) => TakeAll(n, records[1..])
  }

  function Parsed(records: seq<Bytes>): Option<map<int, byte>> {
    match TakeAll(START, records)
    case None => None
    case Some(s) => if s.sawEof then Some(s.values) else None
  }

  // ---- the parser ----

  /** The loop of a data record. */
  method PlaceBytes(values: map<int, byte>, start: nat, p: Bytes) returns (r: Option<map<int, byte>>)
    ensures r == if Unused(values, start, |p|) then Some(Placed(values, start, p)) else None
  {
    var now := values;
    for offset := 0 to |p|
      invariant Unused(values, start, offset) && now == Placed(values, start, p[..offset])
    {
      if start + offset in now {
        return None;
      }
      assert p[..offset + 1][..offset] == p[..offset];
      now := now[start + offset := p[offset]];
    }
    assert p[..|p|] == p;
    return Some(now);
  }

  method SumOf(b: Bytes) returns (sum: nat)
    ensures sum == Sum(b)
  {
    sum := 0;
    for i := 0 to |b|
      invariant sum == Sum(b[..i])
    {
      assert b[..i + 1][..i] == b[..i];
      sum := sum + b[i];
    }
    assert b[..|b|] == b;
  }

  /** One turn of the loop over the lines. */
  method TakeRecord(s: Progress, record: Bytes) returns (r: Option<Progress>)
    ensures r == Take(s, record)
  {
    hide Placed, TakeAll;
    if |record| < 5 || |record| != record[0] as int + 5 {
      return None;
    }
    var sum := SumOf(record);
    if sum % 256 != 0 {
      return None;
    }
    var count, address, kind, payload := record[0], 256 * record[1] as int + record[2] as int, record[3],
                                         record[4..4 + record[0] as int];
    if s.sawEof {
      return None;
    }
    if kind == DATA {
      var values := PlaceBytes(s.values, s.base + address, payload);
      return if values.Some? then Some(s.(values := values.value)) else None;
    } else if kind == END_OF_FILE {
      return if count == 0 && address == 0 then Some(s.(sawEof := true)) else None;
    } else if kind == EXTENDED_SEGMENT {
      return if count == 2 && address == 0 then Some(s.(base := Word(payload) * 16)) else None;
    } else if kind == EXTENDED_LINEAR {
      return if count == 2 && address == 0 then Some(s.(base := Word(payload) * W16)) else None;
    } else if kind == START_SEGMENT || kind == START_LINEAR {
      return if count == 4 && address == 0 then Some(s) else None;
    }
    return None;
  }

  /** `parse_intel_hex`. */
  method Parse(records: seq<Bytes>) returns (r: Option<map<int, byte>>)
    ensures r == Parsed(records)
  {
    var s := START;
    for i := 0 to |records|
      invariant TakeAll(s, records[i..]) == TakeAll(START, records)
    {
      assert records[i..][1..] == records[i + 1..];
      var next := TakeRecord(s, records[i]);
      if next.None? {
        return None;
      }
      s := next.value;
    }
    return if s.sawEof then Some(s.values) else None;
  }

  // ---- what acceptance means ----

  predicate IsEof(r: Bytes) { |r| > 3 && r[3] == 1 }

  lemma {:induction false} AfterEof(s: Progress, records: seq<Bytes>)
    requires s.sawEof && TakeAll(s, records).Some?
    ensures records == []
  {
  }

  lemma {:induction false} EofInTail(s: Progress, records: seq<Bytes>)
    requires !s.sawEof && TakeAll(s, records).Some? && TakeAll(s, records).value.sawEof
    ensures records != [] && (forall i :: 0 <= i < |records| ==> RecordOk(records[i]))
    ensures forall i :: 0 <= i < |records| ==> (IsEof(records[i]) <==> i == |records| - 1)
    decreases |records|
  {
    var n := Take(s, records[0]).value;
    if n.sawEof {
      AfterEof(n, records[1..]);
    } else {
      EofInTail(n, records[1..]);
    }
  }

  /** An accepted file has one EOF record and it is the last. */
  lemma {:induction false} EofIsLast(records: seq<Bytes>)
    requires Parsed(records).Some?
    ensures records != [] && (forall i :: 0 <= i < |records| ==> RecordOk(records[i]))
    ensures forall i :: 0 <= i < |records| ==> (IsEof(records[i]) <==> i == |records| - 1)
  {
    EofInTail(START, records);
  }

  /** How many bytes a record carries, if it is a data record. */
  function PayloadBytes(r: Bytes): nat { if RecordOk(r) && r[3] == DATA then r[0] else 0 }

  /** How many bytes the data records carry. */
  function DataBytes(records: seq<Bytes>): nat {
    if records == [] then 0 else PayloadBytes(records[0]) + DataBytes(records[1..])
  }

  lemma {:induction false} PlacedSize(values: map<int, byte>, start: nat, p: Bytes)
    requires Unused(values, start, |p|)
    ensures |Placed(values, start, p)| == |values| + |p|
    decreases |p|
  {
    if p != [] {
      var last := |p| - 1;
      var before := Placed(values, start, p[..last]);
      PlacedSize(values, start, p[..last]);
      assert Placed(values, start, p).Keys == before.Keys + {start + last};
    }
  }

  ghost predicate Extends(values: map<int, byte>, more: map<int, byte>) {
    forall a :: a in values ==> a in more && more[a] == values[a]
  }

  lemma {:induction false} PlaceKeeps(values: map<int, byte>, start: nat, p: Bytes)
    requires Unused(values, start, |p|)
    ensures Extends(values, Placed(values, start, p)) && |Placed(values, start, p)| == |values| + |p|
  {
    PlacedSize(values, start, p);
  }

  /** A record adds its payload, or nothing. */
  ghost predicate Adds(values: map<int, byte>, base: nat, r: Bytes, more: map<int, byte>) {
    && RecordOk(r)
    && if r[3] == DATA then
         Unused(values, base + Address(r), |Payload(r)|) && more == Placed(values, base + Address(r), Payload(r))
       else more == values
  }

  lemma {:induction false} AddsKeeps(values: map<int, byte>, base: nat, r: Bytes, more: map<int, byte>)
    requires Adds(values, base, r, more)
    ensures Extends(values, more) && |more| == |values| + PayloadBytes(r)
  {
    hide Placed, Sum, Payload, Address;
    if r[3] == DATA {
      PlaceKeeps(values, base + Address(r), Payload(r));
    }
  }

  lemma {:induction false} TakeAdds(s: Progress, r: Bytes, n: Progress)
    requires Take(s, r) == Some(n)
    ensures Adds(s.values, s.base, r, n.values)
  {
  }

  lemma {:induction false} NothingOverwritten(s: Progress, records: seq<Bytes>, n: Progress)
    requires TakeAll(s, records) == Some(n)
    ensures Extends(s.values, n.values) && |n.values| == |s.values| + DataBytes(records)
    decreases |records|
  {
    if records != [] {
      var t := Take(s, records[0]).value;
      TakeAdds(s, records[0], t);
      AddsKeeps(s.values, s.base, records[0], t.values);
      NothingOverwritten(t, records[1..], n);
    }
  }

  /** An accepted file assigns each address at most once: it has as many addresses as its
      data records have bytes. */
  lemma {:induction false} EachAddressOnce(records: seq<Bytes>)
    requires Parsed(records).Some?
    ensures |Parsed(records).value| == DataBytes(records)
  {
    NothingOverwritten(START, records, TakeAll(START, records).value);
  }

  lemma {:induction false} SumUpdate(b: Bytes, k: nat, value: byte)
    requires k < |b|
    ensures Sum(b[k := value]) == Sum(b) - b[k] + value
    decreases |b|
  {
    var last := |b| - 1;
    if k == last {
      assert b[k := value][..last] == b[..last];
    } else {
      SumUpdate(b[..last], k, value);
      assert b[k := value][..last] == b[..last][k := value];
    }
  }

  lemma {:induction false} BadRecordRejects(s: Progress, records: seq<Bytes>, i: nat)
    requires i < |records| && !RecordOk(records[i])
    ensures TakeAll(s, records) == None
    decreases |records|
  {
    if i != 0 && Take(s, records[0]).Some? {
      BadRecordRejects(Take(s, records[0]).value, records[1..], i - 1);
    }
  }

  function Altered(records: seq<Bytes>, i: nat, k: nat, value: byte): seq<Bytes>
    requires i < |records| && k < |records[i]|
  {
    var r: Bytes := records[i][k := value];
    records[i := r]
  }

  /** Altering one decoded byte of one record of an accepted file makes it rejected. */
  lemma {:induction false} AlteredByteRejected(records: seq<Bytes>, i: nat, k: nat, value: byte)
    requires Parsed(records).Some? && i < |records| && k < |records[i]| && value != records[i][k]
    ensures Parsed(Altered(records, i, k, value)) == None
  {
    EofIsLast(records);
    SumUpdate(records[i], k, value);
    BadRecordRejects(START, Altered(records, i, k, value), i);
  }

  // ---- exactly the well-formed files ----

  /** The checks that look at one record, in numbers: length, checksum, and for every type but
      that of data (0) an address of 0 and the length of its payload. Types are end of file (1),
      extended segment (2) and linear (4) address, and start segment (3) and linear (5) address. */
  predicate Shaped(r: Bytes) {
    && |r| >= 5 && |r| == r[0] as int + 5 && Sum(r) % 256 == 0
    && (r[3] == 0
        || (r[1] == 0 && r[2] == 0
            && ((r[3] == 1 && r[0] == 0) || ((r[3] == 2 || r[3] == 4) && r[0] == 2)
                || ((r[3] == 3 || r[3] == 5) && r[0] == 4))))
  }

  predicate AllShaped(records: seq<Bytes>) { forall i :: 0 <= i < |records| ==> Shaped(records[i]) }

  /** The base that the records before number i leave in force: 16 or 65536 times the big-endian
      word of the last base record, or 0. */
  function BaseAt(records: seq<Bytes>, i: nat): nat
    requires i <= |records| && AllShaped(records)
  {
    if i == 0 then 0
    else
      var r := records[i - 1];
      if r[3] == 2 then 16 * (256 * r[4] as int + r[5] as int)
      else if r[3] == 4 then 0x1_0000 * (256 * r[4] as int + r[5] as int)
      else BaseAt(records, i - 1)
  }

  function StartOf(records: seq<Bytes>, i: nat): nat
    requires i < |records| && AllShaped(records)
  {
    BaseAt(records, i) + 256 * records[i][1] as int + records[i][2] as int
  }

  /** The sum of a record is that of its bytes: each counts once, and zeros count nothing. */
  lemma {:induction false} SumCounts(b: Bytes, k: nat)
    requires k < |b|
    ensures Sum(b) == b[k] + Sum(b[k := 0])
    ensures Sum(seq(|b|, _ => 0)) == 0
    decreases |b|
  {
    SumUpdate(b, k, 0);
    SumOfZeros(|b|);
  }

  lemma {:induction false} SumOfZeros(n: nat)
    ensures Sum(seq(n, _ => 0)) == 0
  {
    if n != 0 {
      assert seq(n, _ => 0)[..n - 1] == seq(n - 1, _ => 0);
      SumOfZeros(n - 1);
    }
  }

  /** Record i is a data record with a byte for address a. */
  predicate Carries(records: seq<Bytes>, i: nat, a: int)
    requires i < |records| && AllShaped(records)
  {
    records[i][3] == 0 && StartOf(records, i) <= a < StartOf(records, i) + records[i][0] as int
  }

  function ByteFor(records: seq<Bytes>, i: nat, a: int): byte
    requires i < |records| && AllShaped(records) && Carries(records, i, a)
  {
    records[i][4 + (a - StartOf(records, i))]
  }

  /** What the parser takes out of a record that has a shape. */
  lemma {:induction false} ShapedParts(r: Bytes)
    requires Shaped(r)
    ensures RecordOk(r) && Address(r) == 256 * r[1] as int + r[2] as int
    ensures forall k :: 0 <= k < r[0] as int ==> Payload(r)[k] == r[4 + k]
    ensures r[0] == 2 ==> Word(Payload(r)) == 256 * r[4] as int + r[5] as int
  {
  }

  /** Records i and j have no address in common. */
  ghost predicate Separate(records: seq<Bytes>, i: nat, j: nat)
    requires i < |records| && j < |records| && AllShaped(records)
  {
    forall a :: Carries(records, i, a) ==> !Carries(records, j, a)
  }

  /** Every record has a shape, the last and only the last is the EOF record, and no two data
      records have an address in common. Start-address records, and base records that change
      nothing or are never used, may stand anywhere before the last. */
  ghost predicate WellFormed(records: seq<Bytes>) {
    && records != [] && AllShaped(records)
    && (forall i :: 0 <= i < |records| ==> (IsEof(records[i]) <==> i == |records| - 1))
    && (forall i, j :: 0 <= i < j < |records| ==> Separate(records, i, j))
  }

  /** The map has exactly the bytes that the first n records carry. */
  ghost predicate IsContents(m: map<int, byte>, records: seq<Bytes>, n: nat)
    requires n <= |records| && AllShaped(records)
  {
    && (forall a :: a in m ==> exists i :: 0 <= i < n && Carries(records, i, a))
    && (forall i, a :: 0 <= i < n && Carries(records, i, a) ==> a in m && m[a] == ByteFor(records, i, a))
  }

  /** The loop is in state s after the first n records, none of which was refused. */
  ghost predicate Reached(s: Progress, records: seq<Bytes>, n: nat)
    requires n <= |records| && AllShaped(records)
  {
    && !s.sawEof && s.base == BaseAt(records, n) && IsContents(s.values, records, n)
    && (forall i :: 0 <= i < n ==> !IsEof(records[i]))
    && (forall i, j :: 0 <= i < j < n ==> Separate(records, i, j))
  }

  /** A data record is taken exactly when it is separate from those before it. */
  lemma {:induction false} FreshMeansSeparate(s: Progress, records: seq<Bytes>, n: nat)
    requires n < |records| && AllShaped(records) && Reached(s, records, n) && records[n][3] == DATA
    ensures Unused(s.values, StartOf(records, n), records[n][0] as int)
            <==> forall i :: 0 <= i < n ==> Separate(records, i, n)
  {
    var start, count := StartOf(records, n), records[n][0] as int;
    if Unused(s.values, start, count) {
      forall i | 0 <= i < n
        ensures Separate(records, i, n)
      {
        forall a | Carries(records, i, a)
          ensures !Carries(records, n, a)
        {
          assert a in s.values;
        }
      }
    } else {
      var a :| start <= a < start + count && a in s.values;
      var i :| 0 <= i < n && Carries(records, i, a);
      assert Carries(records, n, a) && !Separate(records, i, n);
    }
  }

  lemma {:induction false} DataContents(m: map<int, byte>, records: seq<Bytes>, n: nat)
    requires n < |records| && AllShaped(records) && IsContents(m, records, n) && records[n][3] == DATA
    requires forall i :: 0 <= i < n ==> Separate(records, i, n)
    ensures RecordOk(records[n]) && IsContents(Placed(m, StartOf(records, n), Payload(records[n])), records, n + 1)
  {
    ShapedParts(records[n]);
    hide Placed, StartOf, Payload, Address;
    var more := Placed(m, StartOf(records, n), Payload(records[n]));
    forall a | a in more
      ensures exists i :: 0 <= i < n + 1 && Carries(records, i, a)
    {
      if a in m {
        var i :| 0 <= i < n && Carries(records, i, a);
        assert 0 <= i < n + 1;
      } else {
        assert Carries(records, n, a);
      }
    }
    forall i, a | 0 <= i < n + 1 && Carries(records, i, a)
      ensures a in more && more[a] == ByteFor(records, i, a)
    {
      if i < n {
        assert Separate(records, i, n) && !Carries(records, n, a);
      } else {
        PlacedByte(records, n, a);
      }
    }
  }

  lemma {:induction false} PlacedByte(records: seq<Bytes>, n: nat, a: int)
    requires n < |records| && AllShaped(records) && Carries(records, n, a)
    ensures RecordOk(records[n]) && Payload(records[n])[a - StartOf(records, n)] == ByteFor(records, n, a)
  {
    ShapedParts(records[n]);
  }

  lemma {:induction false} OtherContents(m: map<int, byte>, records: seq<Bytes>, n: nat)
    requires n < |records| && AllShaped(records) && IsContents(m, records, n) && records[n][3] != DATA
    ensures IsContents(m, records, n + 1)
    ensures forall i :: 0 <= i < n ==> Separate(records, i, n)
  {
    assert forall a :: !Carries(records, n, a);
    forall a | a in m
      ensures exists i :: 0 <= i < n + 1 && Carries(records, i, a)
    {
      var i :| 0 <= i < n && Carries(records, i, a);
      assert 0 <= i < n + 1;
    }
  }

  lemma {:induction false} TakeDataRecord(s: Progress, r: Bytes, start: nat)
    requires Shaped(r) && r[3] == DATA && !s.sawEof && start == s.base + 256 * r[1] as int + r[2] as int
    ensures RecordOk(r)
    ensures Take(s, r) == if Unused(s.values, start, r[0] as int)
                          then Some(s.(values := Placed(s.values, start, Payload(r)))) else None
  {
  }

  lemma {:induction false} TakeOtherRecord(s: Progress, r: Bytes)
    requires Shaped(r) && r[3] != DATA && !IsEof(r) && !s.sawEof
    ensures Take(s, r) == Some(s.(base := if r[3] == 2 then 16 * (256 * r[4] as int + r[5] as int)
                                          else if r[3] == 4 then 0x1_0000 * (256 * r[4] as int + r[5] as int)
                                          else s.base))
  {
    ShapedParts(r);
  }

  /** One record that is not the EOF record: refused, or a step further. */
  lemma {:induction false} ReachNext(s: Progress, records: seq<Bytes>, n: nat)
    requires n < |records| && AllShaped(records) && Reached(s, records, n) && !IsEof(records[n])
    ensures Take(s, records[n]).Some? <==> forall i :: 0 <= i < n ==> Separate(records, i, n)
    ensures Take(s, records[n]).Some? ==> Reached(Take(s, records[n]).value, records, n + 1)
  {
    hide Take, Placed, Separate;
    if records[n][3] == DATA {
      TakeDataRecord(s, records[n], StartOf(records, n));
      FreshMeansSeparate(s, records, n);
      if forall i :: 0 <= i < n ==> Separate(records, i, n) {
        DataContents(s.values, records, n);
      }
    } else {
      TakeOtherRecord(s, records[n]);
      OtherContents(s.values, records, n);
    }
  }

  lemma {:induction false} ReachEnd(s: Progress, records: seq<Bytes>, n: nat)
    requires n <= |records| && AllShaped(records) && Reached(s, records, n)
    ensures var r := TakeAll(s, records[n..]);
            && (r.Some? && r.value.sawEof <==> WellFormed(records))
            && (WellFormed(records) ==> IsContents(r.value.values, records, |records|))
    decreases |records| - n
  {
    if n < |records| {
      assert records[n..][0] == records[n] && records[n..][1..] == records[n + 1..];
      if IsEof(records[n]) {
        EofReached(s, records, n);
      } else {
        ReachNext(s, records, n);
        if Take(s, records[n]).Some? {
          ReachEnd(Take(s, records[n]).value, records, n + 1);
        }
      }
    }
  }

  lemma {:induction false} EofReached(s: Progress, records: seq<Bytes>, n: nat)
    requires n < |records| && AllShaped(records) && Reached(s, records, n) && IsEof(records[n])
    ensures var r := TakeAll(s, records[n..]);
            && (r.Some? && r.value.sawEof <==> WellFormed(records))
            && (WellFormed(records) ==> IsContents(r.value.values, records, |records|))
  {
    var t := s.(sawEof := true);
    assert Take(s, records[n]) == Some(t);
    assert records[n..][0] == records[n] && records[n..][1..] == records[n + 1..];
    OtherContents(s.values, records, n);
    if n + 1 < |records| {
      assert TakeAll(t, records[n + 1..]) == None;
    }
  }

  lemma {:induction false} MisshapenRejects(s: Progress, records: seq<Bytes>, i: nat)
    requires i < |records| && !Shaped(records[i])
    ensures TakeAll(s, records) == None
    decreases |records|
  {
    if i != 0 && Take(s, records[0]).Some? {
      MisshapenRejects(Take(s, records[0]).value, records[1..], i - 1);
    }
  }

  /** The parser accepts exactly the well-formed files, whoever wrote them, and returns exactly
      the bytes their data records carry, each at its address. */
  lemma {:induction false} ParsesExactlyTheWellFormed(records: seq<Bytes>)
    ensures Parsed(records).Some? <==> WellFormed(records)
    ensures WellFormed(records) ==> IsContents(Parsed(records).value, records, |records|)
  {
    if AllShaped(records) {
      assert records[0..] == records;
      ReachEnd(START, records, 0);
    } else {
      var i :| 0 <= i < |records| && !Shaped(records[i]);
      MisshapenRejects(START, records, i);
    }
  }

  /** The two maps assign the same bytes to the same addresses. */
  ghost predicate Agree(x: map<int, byte>, y: map<int, byte>) {
    (forall a :: a in x <==> a in y) && (forall a :: a in x ==> x[a] == y[a])
  }

  /** Round trip: a well-formed encoding of a memory map, of any writer, parses to that map. */
  lemma {:induction false} RoundTrip(m: map<int, byte>, records: seq<Bytes>)
    requires WellFormed(records) && IsContents(m, records, |records|)
    ensures Parsed(records).Some? && Agree(Parsed(records).value, m)
  {
    ParsesExactlyTheWellFormed(records);
    var v := Parsed(records).value;
    forall a | a in v
      ensures a in m && v[a] == m[a]
    {
      var i :| 0 <= i < |records| && Carries(records, i, a);
    }
    forall a | a in m
      ensures a in v
    {
      var i :| 0 <= i < |records| && Carries(records, i, a);
    }
  }

  // ---- writing a file ----

  /** A record with its checksum. */
  function Render(kind: byte, address: nat, p: Bytes): Bytes
    requires |p| < 256 && address < W16
  {
    var body: Bytes := [|p|, address / 256, address % 256, kind] + p;
    body + [(256 - Sum(body) % 256) % 256]
  }

  lemma {:induction false} RenderOk(kind: byte, address: nat, p: Bytes)
    requires |p| < 256 && address < W16
    ensures var r := Render(kind, address, p);
            RecordOk(r) && r[0] == |p| && r[3] == kind && Address(r) == address && Payload(r) == p
  {
    var body: Bytes := [|p|, address / 256, address % 256, kind] + p;
    var r := Render(kind, address, p);
    assert r[..|r| - 1] == body;
    assert Sum(r) == Sum(body) + (256 - Sum(body) % 256) % 256;
  }

  /** A stretch of memory that goes into one record, and the base it is written against: a
      linear one is the upper half of the address, a segment a multiple of 16. */
  datatype Block = Block(kind: byte, word: uint16, address: nat, bytes: Bytes) {
    function Base(): nat { if kind == EXTENDED_LINEAR then word * W16 else word * 16 }

    predicate Holds(a: int) { address <= a < address + |bytes| }

    /** A record may not run past the 64 KiB above its base. */
    predicate Fits() {
      && (kind == EXTENDED_LINEAR || kind == EXTENDED_SEGMENT) && |bytes| < 256
      && Base() <= address < Base() + W16 && address + |bytes| <= Base() + W16
    }
  }

  ghost predicate AllFit(blocks: seq<Block>) { forall b :: b in blocks ==> b.Fits() }

  /** The file for these blocks: an address record wherever the base changes, the data
      records, and the EOF record. */
  ghost function Encoded(blocks: seq<Block>, base: nat): seq<Bytes>
    requires AllFit(blocks)
    decreases |blocks|
  {
    if blocks == [] then [Render(END_OF_FILE, 0, [])]
    else
      var b := blocks[0];
      assert b in blocks;
      var data := Render(DATA, b.address - b.Base(), b.bytes);
      if b.Base() == base then [data] + Encoded(blocks[1..], base)
      else [BaseRecord(b.kind, b.word), data] + Encoded(blocks[1..], b.Base())
  }

  function BaseRecord(kind: byte, word: uint16): Bytes { Render(kind, 0, [word / 256, word % 256]) }

  ghost predicate HeldIn(blocks: seq<Block>, a: int) { exists b :: b in blocks && b.Holds(a) }

  /** The blocks that are left lay out what of m is not yet in v, each address once. */
  ghost predicate LeftToLay(m: map<int, byte>, v: map<int, byte>, blocks: seq<Block>) {
    && (forall a :: a in v ==> a in m && v[a] == m[a])
    && (forall b, a :: b in blocks && b.Holds(a) ==> a !in v && a in m && m[a] == b.bytes[a - b.address])
    && (forall a :: a in m ==> a in v || HeldIn(blocks, a))
    && (forall i, j, a :: 0 <= i < j < |blocks| && blocks[i].Holds(a) ==> !blocks[j].Holds(a))
  }

  /** The blocks cut the memory map into disjoint stretches. */
  ghost predicate CutUp(m: map<int, byte>, blocks: seq<Block>) {
    AllFit(blocks) && LeftToLay(m, map[], blocks)
  }

  lemma {:induction false} FirstIsFree(m: map<int, byte>, v: map<int, byte>, blocks: seq<Block>)
    requires LeftToLay(m, v, blocks) && blocks != []
    ensures Unused(v, blocks[0].address, |blocks[0].bytes|)
    ensures forall a :: blocks[0].Holds(a) ==> a in m && m[a] == blocks[0].bytes[a - blocks[0].address]
  {
    var b := blocks[0];
    assert b in blocks;
    forall a | b.address <= a < b.address + |b.bytes|
      ensures a !in v
    {
      assert b.Holds(a);
    }
  }

  /** Laying the first block keeps what is laid right. */
  lemma {:induction false} LaidIsRight(m: map<int, byte>, v: map<int, byte>, blocks: seq<Block>, w: map<int, byte>)
    requires LeftToLay(m, v, blocks) && blocks != [] && w == Placed(v, blocks[0].address, blocks[0].bytes)
    ensures forall a :: a in w ==> a in m && w[a] == m[a]
  {
    var b := blocks[0];
    FirstIsFree(m, v, blocks);
    forall a | a in w
      ensures a in m && w[a] == m[a]
    {
      if b.address <= a < b.address + |b.bytes| { assert b.Holds(a); }
    }
  }

  /** And leaves the rest to the other blocks. */
  lemma {:induction false} RestIsLeft(m: map<int, byte>, v: map<int, byte>, blocks: seq<Block>, w: map<int, byte>)
    requires LeftToLay(m, v, blocks) && blocks != [] && w == Placed(v, blocks[0].address, blocks[0].bytes)
    ensures forall c, a :: c in blocks[1..] && c.Holds(a) ==> a !in w && a in m && m[a] == c.bytes[a - c.address]
    ensures forall a :: a in m ==> a in w || HeldIn(blocks[1..], a)
  {
    var b := blocks[0];
    forall c, a | c in blocks[1..] && c.Holds(a)
      ensures a !in w && a in m && m[a] == c.bytes[a - c.address]
    {
      var j :| 0 <= j < |blocks[1..]| && blocks[1..][j] == c;
      assert blocks[j + 1] == c && c in blocks;
      assert !b.Holds(a);
    }
    forall a | a in m
      ensures a in w || HeldIn(blocks[1..], a)
    {
      if a !in v {
        var c :| c in blocks && c.Holds(a);
        assert blocks == [b] + blocks[1..];
        assert c == b || c in blocks[1..];
      }
    }
  }

  lemma {:induction false} LayOne(m: map<int, byte>, v: map<int, byte>, blocks: seq<Block>)
    requires LeftToLay(m, v, blocks) && blocks != []
    ensures var b := blocks[0];
            && Unused(v, b.address, |b.bytes|)
            && LeftToLay(m, Placed(v, b.address, b.bytes), blocks[1..])
  {
    hide Placed, HeldIn;
    var w := Placed(v, blocks[0].address, blocks[0].bytes);
    FirstIsFree(m, v, blocks);
    LaidIsRight(m, v, blocks, w);
    RestIsLeft(m, v, blocks, w);
  }

  lemma {:induction false} TakeFirst(s: Progress, r: Bytes, rest: seq<Bytes>, n: Progress)
    requires Take(s, r) == Some(n)
    ensures TakeAll(s, [r] + rest) == TakeAll(n, rest)
  {
    assert ([r] + rest)[1..] == rest;
  }

  lemma {:induction false} TakeData(s: Progress, address: uint16, p: Bytes, start: nat)
    requires |p| < 256 && !s.sawEof && start == s.base + address && Unused(s.values, start, |p|)
    ensures Take(s, Render(DATA, address, p)) == Some(s.(values := Placed(s.values, start, p)))
  {
    RenderOk(DATA, address, p);
  }

  lemma {:induction false} EncodedParses(m: map<int, byte>, s: Progress, blocks: seq<Block>)
    requires !s.sawEof && AllFit(blocks) && LeftToLay(m, s.values, blocks)
    ensures TakeAll(s, Encoded(blocks, s.base)).Some?
    ensures var n := TakeAll(s, Encoded(blocks, s.base)).value; n.sawEof && Agree(n.values, m)
    decreases |blocks|
  {
    if blocks == [] {
      assert forall a :: !HeldIn([], a);
      RenderOk(END_OF_FILE, 0, []);
      TakeFirst(s, Render(END_OF_FILE, 0, []), [], s.(sawEof := true));
      assert [Render(END_OF_FILE, 0, [])] + [] == Encoded([], s.base);
    } else {
      var b := blocks[0];
      assert b in blocks;
      LayOne(m, s.values, blocks);
      var n := Progress(Placed(s.values, b.address, b.bytes), b.Base(), false);
      EncodedParses(m, n, blocks[1..]);
      FirstBlock(s, blocks);
    }
  }

  /** The records of the first block put its bytes where they belong. */
  lemma {:induction false} FirstBlock(s: Progress, blocks: seq<Block>)
    requires !s.sawEof && AllFit(blocks) && blocks != [] && blocks[0] in blocks
    requires Unused(s.values, blocks[0].address, |blocks[0].bytes|)
    ensures AllFit(blocks[1..])
    ensures TakeAll(s, Encoded(blocks, s.base))
         == TakeAll(Progress(Placed(s.values, blocks[0].address, blocks[0].bytes), blocks[0].Base(), false),
                    Encoded(blocks[1..], blocks[0].Base()))
  {
    hide Take, TakeAll, Placed, Render, Unused;
    var b := blocks[0];
    var rest := Encoded(blocks[1..], b.Base());
    assert b.Fits();
    var data := [Render(DATA, b.address - b.Base(), b.bytes)] + rest;
    DataTaken(s.(base := b.Base()), b, rest);
    if b.Base() == s.base {
      assert data == Encoded(blocks, s.base);
    } else {
      BaseTaken(s, b, data);
      assert [BaseRecord(b.kind, b.word)] + data == Encoded(blocks, s.base);
    }
  }

  lemma {:induction false} DataTaken(s: Progress, b: Block, rest: seq<Bytes>)
    requires !s.sawEof && b.Fits() && s.base == b.Base() && Unused(s.values, b.address, |b.bytes|)
    ensures TakeAll(s, [Render(DATA, b.address - b.Base(), b.bytes)] + rest)
         == TakeAll(s.(values := Placed(s.values, b.address, b.bytes)), rest)
  {
    TakeData(s, b.address - b.Base(), b.bytes, b.address);
    TakeFirst(s, Render(DATA, b.address - b.Base(), b.bytes), rest, s.(values := Placed(s.values, b.address, b.bytes)));
  }

  lemma {:induction false} BaseTaken(s: Progress, b: Block, rest: seq<Bytes>)
    requires !s.sawEof && b.Fits()
    ensures TakeAll(s, [BaseRecord(b.kind, b.word)] + rest) == TakeAll(s.(base := b.Base()), rest)
  {
    var p: Bytes := [b.word / 256, b.word % 256];
    assert Word(p) == b.word;
    RenderOk(b.kind, 0, p);
    TakeFirst(s, BaseRecord(b.kind, b.word), rest, s.(base := b.Base()));
  }

  /** Round trip: however a memory map is cut into records that do not run past 64 KiB, and
      whichever kind of base each is written against, parsing the file gives the map back. */
  lemma {:induction false} WriterRoundTrip(m: map<int, byte>, blocks: seq<Block>)
    requires CutUp(m, blocks)
    ensures WellFormed(Encoded(blocks, 0))
    ensures Parsed(Encoded(blocks, 0)).Some? && Agree(Parsed(Encoded(blocks, 0)).value, m)
  {
    EncodedParses(m, START, blocks);
    ParsesExactlyTheWellFormed(Encoded(blocks, 0));
  }

  /** Every finite memory map over 32-bit addresses can be cut up, and so has a file. */
  lemma {:induction false} EveryMapHasAFile(m: map<int, byte>) returns (blocks: seq<Block>)
    requires forall a :: a in m ==> 0 <= a < W32
    ensures CutUp(m, blocks)
    ensures Parsed(Encoded(blocks, 0)).Some? && Agree(Parsed(Encoded(blocks, 0)).value, m)
  {
    blocks := CutIntoBytes(m);
    WriterRoundTrip(m, blocks);
  }

  lemma {:induction false} CutIntoBytes(m: map<int, byte>) returns (blocks: seq<Block>)
    requires forall a :: a in m ==> 0 <= a < W32
    ensures CutUp(m, blocks)
    decreases |m|
  {
    if a :| a in m {
      var rest := m - {a};
      assert rest.Keys == m.Keys - {a};
      blocks := CutIntoBytes(rest);
      var b := Block(EXTENDED_LINEAR, a / W16, a, [m[a]]);
      AddBlock(m, rest, b, blocks);
      blocks := [b] + blocks;
    } else {
      blocks := [];
    }
  }

  lemma {:induction false} AddBlock(m: map<int, byte>, rest: map<int, byte>, b: Block, blocks: seq<Block>)
    requires b.Fits() && |b.bytes| == 1 && b.address in m && m[b.address] == b.bytes[0]
    requires rest == m - {b.address} && CutUp(rest, blocks)
    ensures CutUp(m, [b] + blocks)
  {
    var all := [b] + blocks;
    assert forall a :: b.Holds(a) <==> a == b.address;
    forall a | a in m
      ensures HeldIn(all, a)
    {
      if a == b.address {
        assert b in all && b.Holds(a);
      } else {
        assert a in rest;
        var c :| c in blocks && c.Holds(a);
        assert c in all;
      }
    }
    forall i, j, a | 0 <= i < j < |all| && all[i].Holds(a)
      ensures !all[j].Holds(a)
    {
      assert all[j] == blocks[j - 1] && blocks[j - 1] in blocks;
    }
  }
}
