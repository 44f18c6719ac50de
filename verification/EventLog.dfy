/** The binary format of the TPM event log: nested variable-length records. */
module EventLog {
  import opened Words

  datatype Digest2 = Digest2(alg: UInt16, bytes: seq<Byte>)
  datatype Event = Event(pcr: UInt32, kind: UInt32, digests: seq<Digest2>, data: seq<Byte>)

  const EV_NO_ACTION: UInt32 := 3
  const EV_EFI_HCRTM_EVENT: UInt32 := 0x8000_0010
  const EV_EFI_GPT_EVENT: UInt32 := 0x8000_0006
  const SHA256: UInt16 := 0xB

  function HashSize(alg: UInt16): nat {
    if alg == 0x4 then 20
    else if alg == 0xB then 32
    else if alg == 0xC then 48
    else if alg == 0xD then 64
    else if alg == 0x12 then 32
    else 0
  }

  // ---- Well-formed events and their bytes ----

  predicate DigestOk(d: Digest2) { |d.bytes| == HashSize(d.alg) }

  predicate DigestsOk(ds: seq<Digest2>) {
    forall d :: d in ds ==> DigestOk(d)
  }

  /** EV_EFI_VARIABLE_DRIVER_CONFIG, EV_EFI_VARIABLE_BOOT and EV_EFI_VARIABLE_AUTHORITY */
  predicate IsVariable(kind: UInt32) {
    kind == 0x8000_0001 || kind == 0x8000_0002 || kind == 0x8000_00E0
  }

  /** The size checks on the event data, which depend on the event type. The sum of the lengths of
      an UEFI variable is a 64-bit value that wraps around. */
  predicate BodyOk(kind: UInt32, data: seq<Byte>) {
    if IsVariable(kind) then
      && |data| >= 32
      && |data| >= (32 + ReadU64(data, 16) * 2 + ReadU64(data, 24)) % 0x1_0000_0000_0000_0000
    else if kind == 7 || kind == 0x8000_0008 then |data| >= 16
    else if 0x8000_0003 <= kind <= 0x8000_0005 then |data| >= 32
    else true
  }

  /** A record that fits the format, apart from the checks on its data. */
  predicate RecordOk(e: Event) {
    e.pcr < 32 && |e.digests| < 0x1_0000_0000 && |e.data| < 0x1_0000_0000 && DigestsOk(e.digests)
  }

  predicate EventOk(e: Event) {
    RecordOk(e) && BodyOk(e.kind, e.data)
  }

  predicate EventsOk(es: seq<Event>) {
    forall e :: e in es ==> EventOk(e)
  }

  function DigestsLength(ds: seq<Digest2>): nat {
    if ds == [] then 0 else 2 + |ds[0].bytes| + DigestsLength(ds[1..])
  }

  function EventSize(e: Event): nat {
    DataAt(e) + |e.data|
  }

  /** Offset of the event data in its record. */
  function DataAt(e: Event): nat {
    16 + DigestsLength(e.digests)
  }

  function BytesOfDigests(ds: seq<Digest2>): (s: seq<Byte>)
    ensures |s| == DigestsLength(ds)
  {
    if ds == [] then [] else BytesOfU16(ds[0].alg) + ds[0].bytes + BytesOfDigests(ds[1..])
  }

  function BytesOfEvent(e: Event): (s: seq<Byte>)
    requires RecordOk(e)
    ensures |s| == EventSize(e)
  {
    BytesOfU32(e.pcr) + BytesOfU32(e.kind) + BytesOfU32(|e.digests|) + BytesOfDigests(e.digests)
      + BytesOfU32(|e.data|) + e.data
  }

  function BytesOfEvents(es: seq<Event>): seq<Byte>
    requires EventsOk(es)
  {
    if es == [] then []
    else
      assert EventOk(es[0]);
      BytesOfEvent(es[0]) + BytesOfEvents(es[1..])
  }

  // ---- Parsing ----

  /** foreach_digest2: the digests found in the first `size` bytes, or None when they run short. */
  function ParseDigests(s: seq<Byte>, count: nat, size: nat): (ds: Option<seq<Digest2>>)
    requires size <= |s|
    decreases count
  {
    if count == 0 then Some([])
    else if size < 2 then None
    else
      var alg := ReadU16(s, 0);
      var n := 2 + HashSize(alg);
      if size < n then None
      else
        var rest := ParseDigests(s[n..], count - 1, size - n);
        if rest.None? then None else Some([Digest2(alg, s[2..n])] + rest.value)
  }

  /** parse_event2: the record at the start of the buffer. */
  function ParseEvent(s: seq<Byte>): (e: Option<Event>)
    ensures e.Some? ==> RecordOk(e.value) && EventSize(e.value) <= |s|
                        && s[DataAt(e.value)..EventSize(e.value)] == e.value.data
  {
    if |s| < 12 then None
    else if ReadU32(s, 0) > 31 then None
    else
      var count := ReadU32(s, 8);
      var ds := ParseDigests(s[12..], count, |s| - 12);
      if ds.None? then None
      else
        ParsedDigestsOk(s[12..], count, |s| - 12);
        var n := 12 + DigestsLength(ds.value);
        if |s| < n + 4 then None
        else
          var size := ReadU32(s, n);
          if |s| < n + 4 + size then None
          else Some(Event(ReadU32(s, 0), ReadU32(s, 4), ds.value, s[n + 4..n + 4 + size]))
  }

  /** The whole log, without callbacks. */
  function ParseLog(s: seq<Byte>): (es: Option<seq<Event>>)
    decreases |s|
  {
    if s == [] then Some([])
    else
      var e := ParseEvent(s);
      if e.None? || !BodyOk(e.value.kind, e.value.data) then None
      else
        var rest := ParseLog(s[EventSize(e.value)..]);
        if rest.None? then None else Some([e.value] + rest.value)
  }

  // ---- Digest lists ----

  lemma {:induction false} ParsedDigestsOk(s: seq<Byte>, count: nat, size: nat)
    requires size <= |s| && ParseDigests(s, count, size).Some?
    ensures var ds := ParseDigests(s, count, size).value;
            && |ds| == count && DigestsOk(ds) && DigestsLength(ds) <= size
            && s[..DigestsLength(ds)] == BytesOfDigests(ds)
    decreases count
  {
    hide ParseDigests, DigestsLength, BytesOfDigests, HashSize, ReadU16;
    if count == 0 {
      NoDigestsParse(s, size);
      NothingLong();
    } else {
      ParseFits(s, count, size);
      var alg := ReadU16(s, 0);
      var n := 2 + HashSize(alg);
      ParseUnfolds(s, count, size);
      ParsedDigestsOk(s[n..], count - 1, size - n);
      var rest := ParseDigests(s[n..], count - 1, size - n).value;
      DigestsStep(s, alg, n, rest);
    }
  }

  lemma NothingLong()
    ensures DigestsLength([]) == 0 && BytesOfDigests([]) == []
  {
  }

  lemma ParseFits(s: seq<Byte>, count: nat, size: nat)
    requires size <= |s| && count > 0
    ensures ParseDigests(s, count, size).Some? ==> size >= 2 && size >= 2 + HashSize(ReadU16(s, 0))
  {
  }

  lemma DigestsStep(s: seq<Byte>, alg: UInt16, n: nat, rest: seq<Digest2>)
    requires 2 <= n && n + DigestsLength(rest) <= |s| && alg == ReadU16(s, 0)
    requires s[n..][..DigestsLength(rest)] == BytesOfDigests(rest)
    ensures var ds := [Digest2(alg, s[2..n])] + rest;
            && DigestsLength(ds) == n + DigestsLength(rest)
            && s[..DigestsLength(ds)] == BytesOfDigests(ds)
  {
    var ds := [Digest2(alg, s[2..n])] + rest;
    assert ds[1..] == rest;
    assert BytesOfU16(alg) == s[..2] by { U16Unique(s); }
    assert s[..n] == s[..2] + s[2..n];
    assert s[..n + DigestsLength(rest)] == s[..n] + s[n..][..DigestsLength(rest)];
  }

  lemma U16Unique(s: seq<Byte>)
    requires |s| >= 2
    ensures BytesOfU16(ReadU16(s, 0)) == s[..2]
  {
  }

  lemma ParseUnfolds(s: seq<Byte>, count: nat, size: nat)
    requires size <= |s| && count > 0 && size >= 2
    ensures var alg := ReadU16(s, 0);
            var n := 2 + HashSize(alg);
            size >= n ==>
              ParseDigests(s, count, size)
              == var rest := ParseDigests(s[n..], count - 1, size - n);
                 if rest.None? then None else Some([Digest2(alg, s[2..n])] + rest.value)
  {
  }

  lemma FirstDigest(ds: seq<Digest2>, rest: seq<Byte>)
    requires ds != [] && DigestsOk(ds)
    ensures DigestsOk(ds[1..])
    ensures var s, n := BytesOfDigests(ds) + rest, 2 + HashSize(ds[0].alg);
            && DigestsLength(ds) == n + DigestsLength(ds[1..])
            && ReadU16(s, 0) == ds[0].alg && s[2..n] == ds[0].bytes
            && s[n..] == BytesOfDigests(ds[1..]) + rest
  {
    hide BytesOfDigests, ReadU16, BytesOfU16, DigestsLength, HashSize;
    var s, n := BytesOfDigests(ds) + rest, 2 + HashSize(ds[0].alg);
    assert DigestOk(ds[0]);
    DigestsUnfold(ds);
    var first, others := BytesOfU16(ds[0].alg), BytesOfDigests(ds[1..]);
    Pieces(first, ds[0].bytes, others, rest);
    U16There(first, s);
  }

  lemma DigestsUnfold(ds: seq<Digest2>)
    requires ds != []
    ensures BytesOfDigests(ds) == BytesOfU16(ds[0].alg) + ds[0].bytes + BytesOfDigests(ds[1..])
    ensures DigestsLength(ds) == 2 + |ds[0].bytes| + DigestsLength(ds[1..])
  {
  }

  lemma Pieces(a: seq<Byte>, b: seq<Byte>, c: seq<Byte>, d: seq<Byte>)
    ensures var s := a + b + c + d;
            s[..|a|] == a && s[|a|..|a| + |b|] == b && s[|a| + |b|..] == c + d
  {
  }

  lemma U16There(a: seq<Byte>, s: seq<Byte>)
    requires |a| == 2 && |s| >= 2 && s[..2] == a
    ensures ReadU16(s, 0) == ReadU16(a, 0)
  {
    assert s[..2][0] == s[0] && s[..2][1] == s[1];
  }

  lemma {:induction false} DigestsParse(ds: seq<Digest2>, rest: seq<Byte>, size: nat)
    requires DigestsOk(ds) && DigestsLength(ds) <= size <= DigestsLength(ds) + |rest|
    ensures ParseDigests(BytesOfDigests(ds) + rest, |ds|, size) == Some(ds)
  {
    hide ParseDigests, DigestsLength, BytesOfDigests, HashSize, DigestsOk, ReadU16;
    if ds == [] {
      NoDigestsParse(BytesOfDigests(ds) + rest, size);
    } else {
      FirstDigest(ds, rest);
      DigestsParse(ds[1..], rest, size - 2 - HashSize(ds[0].alg));
      ParseUnfolds(BytesOfDigests(ds) + rest, |ds|, size);
      assert ds == [ds[0]] + ds[1..];
    }
  }

  lemma NoDigestsParse(s: seq<Byte>, size: nat)
    requires size <= |s|
    ensures ParseDigests(s, 0, size) == Some([])
  {
  }

  /** The second pass over the digests, given only the size that the first pass has added up, finds
      all of them again. */
  lemma SecondPassComplete(s: seq<Byte>, count: nat, size: nat)
    requires size <= |s| && ParseDigests(s, count, size).Some?
    ensures var ds := ParseDigests(s, count, size);
            DigestsLength(ds.value) <= size && ParseDigests(s, count, DigestsLength(ds.value)) == ds
  {
    hide ParseDigests, DigestsLength, BytesOfDigests, DigestsOk;
    ParsedDigestsOk(s, count, size);
    var ds := ParseDigests(s, count, size).value;
    var n := DigestsLength(ds);
    DigestsParse(ds, s[n..], n);
    assert s == s[..n] + s[n..];
  }

  // ---- Records ----

  lemma RecordBytes(s: seq<Byte>)
    requires ParseEvent(s).Some?
    ensures BytesOfEvent(ParseEvent(s).value) == s[..EventSize(ParseEvent(s).value)]
  {
    hide ParseDigests, DigestsLength, BytesOfDigests, BytesOfU32, ReadU32;
    var e := ParseEvent(s).value;
    ParsedDigestsOk(s[12..], ReadU32(s, 8), |s| - 12);
    var m, n := DigestsLength(e.digests), EventSize(e);
    U32Unique(s, 0);
    U32Unique(s, 4);
    U32Unique(s, 8);
    U32Unique(s, 12 + m);
    assert s[12..][..m] == s[12..12 + m];
    SixParts(s, 4, 8, 12, 12 + m, 16 + m, n);
  }

  lemma SixParts(s: seq<Byte>, a: nat, b: nat, c: nat, d: nat, e: nat, f: nat)
    requires a <= b <= c <= d <= e <= f <= |s|
    ensures s[..f] == s[0..a] + s[a..b] + s[b..c] + s[c..d] + s[d..e] + s[e..f]
  {
    assert s[0..a] + s[a..b] == s[..b];
    assert s[..b] + s[b..c] == s[..c];
    assert s[..c] + s[c..d] == s[..d];
    assert s[..d] + s[d..e] == s[..e];
  }

  lemma EventParses(e: Event, rest: seq<Byte>)
    requires RecordOk(e)
    ensures ParseEvent(BytesOfEvent(e) + rest) == Some(e)
  {
    hide ParseDigests, DigestsLength, BytesOfDigests, BytesOfU32, ReadU32;
    var s, m := BytesOfEvent(e) + rest, DigestsLength(e.digests);
    RecordFields(e, rest);
    DigestsParse(e.digests, s[12 + m..], |s| - 12);
    assert s[12..] == s[12..12 + m] + s[12 + m..];
  }

  lemma RecordFields(e: Event, rest: seq<Byte>)
    requires RecordOk(e)
    ensures var s, m := BytesOfEvent(e) + rest, DigestsLength(e.digests);
            && |s| == EventSize(e) + |rest|
            && ReadU32(s, 0) == e.pcr && ReadU32(s, 4) == e.kind && ReadU32(s, 8) == |e.digests|
            && s[12..12 + m] == BytesOfDigests(e.digests) && ReadU32(s, 12 + m) == |e.data|
            && s[16 + m..16 + m + |e.data|] == e.data && s[EventSize(e)..] == rest
  {
    hide BytesOfU32, ReadU32, BytesOfDigests, DigestsLength;
    var s, m := BytesOfEvent(e) + rest, DigestsLength(e.digests);
    ReadSlice(s, 0);
    ReadSlice(s, 4);
    ReadSlice(s, 8);
    ReadSlice(s, 12 + m);
    assert s[0..4] == BytesOfU32(e.pcr) && s[4..8] == BytesOfU32(e.kind) && s[8..12] == BytesOfU32(|e.digests|);
    assert s[12 + m..16 + m] == BytesOfU32(|e.data|);
  }

  // ---- Whole logs ----

  lemma LogUnfolds(s: seq<Byte>)
    ensures ParseLog(s) ==
            if s == [] then Some([])
            else
              var e := ParseEvent(s);
              if e.None? || !BodyOk(e.value.kind, e.value.data) then None
              else
                var rest := ParseLog(s[EventSize(e.value)..]);
                if rest.None? then None else Some([e.value] + rest.value)
  {
  }

  /** An accepted log is exactly the concatenation of the well-formed events it is parsed to. */
  lemma {:induction false} LogIsItsEvents(s: seq<Byte>)
    requires ParseLog(s).Some?
    ensures EventsOk(ParseLog(s).value) && s == BytesOfEvents(ParseLog(s).value)
    decreases |s|
  {
    hide ParseEvent, BytesOfEvent, BodyOk, RecordOk, EventSize;
    if s != [] {
      var e := ParseEvent(s).value;
      var n := EventSize(e);
      RecordBytes(s);
      SizePositive(e);
      LogIsItsEvents(s[n..]);
      var es := ParseLog(s[n..]).value;
      assert ([e] + es)[1..] == es;
      assert s == s[..n] + s[n..];
    }
  }

  lemma SizePositive(e: Event)
    ensures EventSize(e) >= 16
  {
  }

  lemma {:induction false} EventsParse(es: seq<Event>)
    requires EventsOk(es)
    ensures ParseLog(BytesOfEvents(es)) == Some(es)
  {
    hide ParseEvent, BytesOfEvent, BodyOk, RecordOk, EventSize;
    if es != [] {
      var e, rest := es[0], BytesOfEvents(es[1..]);
      assert EventOk(e);
      EventParses(e, rest);
      EventsParse(es[1..]);
      SizePositive(e);
      assert |BytesOfEvent(e)| == EventSize(e);
      assert (BytesOfEvent(e) + rest)[EventSize(e)..] == rest;
      assert es == [e] + es[1..];
    }
  }

  /** The parser accepts exactly the concatenations of well-formed events, and splits each in one
      way only. */
  lemma AcceptedLogs(s: seq<Byte>, es: seq<Event>)
    ensures ParseLog(s) == Some(es) <==> EventsOk(es) && s == BytesOfEvents(es)
  {
    if ParseLog(s) == Some(es) {
      LogIsItsEvents(s);
    }
    if EventsOk(es) {
      EventsParse(es);
    }
  }
}
