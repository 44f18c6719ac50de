/** Logs of one event byte by byte: digest sizes, data sizes, and the PCR that the event leaves behind. */
module LogBytes {
  import opened Words
  import opened EventLog
  import opened Replay
  import opened Pcrs

  /** A record with one digest. */
  function OneDigestRecord(pcr: UInt32, kind: UInt32, alg: UInt16, digest: seq<Byte>, data: seq<Byte>): (s: seq<Byte>)
    requires |data| < 0x1_0000_0000
    ensures |s| == 18 + |digest| + |data| && ReadU32(s, 0) == pcr
  {
    ReadSlice(BytesOfU32(pcr) + BytesOfU32(kind), 0);
    BytesOfU32(pcr) + BytesOfU32(kind) + [1, 0, 0, 0] + BytesOfU16(alg) + digest + BytesOfU32(|data|) + data
  }

  lemma RecordIsEvent(e: Event)
    requires RecordOk(e) && |e.digests| == 1
    ensures BytesOfEvent(e) == OneDigestRecord(e.pcr, e.kind, e.digests[0].alg, e.digests[0].bytes, e.data)
  {
    hide ReadU32, ReadU16;
    var d := e.digests[0];
    assert BytesOfU32(1) == [1, 0, 0, 0];
    DigestsUnfold(e.digests);
    assert e.digests[1..] == [];
    assert BytesOfDigests([]) == [];
    assert BytesOfDigests(e.digests) == BytesOfU16(d.alg) + d.bytes;
    assert BytesOfU32(e.pcr) + BytesOfU32(e.kind) + [1, 0, 0, 0] + (BytesOfU16(d.alg) + d.bytes)
           == BytesOfU32(e.pcr) + BytesOfU32(e.kind) + [1, 0, 0, 0] + BytesOfU16(d.alg) + d.bytes;
  }

  /** The digests of SHA-1, SHA-256, SHA-384, SHA-512 and SM3 have their sizes in a record, and a digest
      of any other algorithm has no bytes. */
  lemma DigestSizes(pcr: UInt32, kind: UInt32, alg: UInt16, digest: seq<Byte>, data: seq<Byte>, rest: seq<Byte>)
    requires pcr < 32 && |data| < 0x1_0000_0000
    ensures ParseEvent(OneDigestRecord(pcr, kind, alg, digest, data) + rest)
            == Some(Event(pcr, kind, [Digest2(alg, digest)], data)) <==>
            || (alg, |digest|) in {(0x4, 20), (0xB, 32), (0xC, 48), (0xD, 64), (0x12, 32)}
            || (digest == [] && alg !in {0x4, 0xB, 0xC, 0xD, 0x12})
  {
    hide ParseEvent, BytesOfEvent, OneDigestRecord;
    var d := Digest2(alg, digest);
    var e := Event(pcr, kind, [d], data);
    assert d in e.digests;
    if DigestOk(d) {
      RecordIsEvent(e);
      EventParses(e, rest);
    }
  }

  /** The sizes of event data by event type, with the two lengths in the data of a UEFI variable. */
  predicate DataFits(kind: UInt32, data: seq<Byte>) {
    && (kind in {0x7, 0x8000_0008} ==> |data| >= 16)
    && (kind in {0x8000_0003, 0x8000_0004, 0x8000_0005} ==> |data| >= 32)
    && (kind == 0x8000_0006 ==> data == [] || |data| >= 100)
    && (kind in {0x8000_0001, 0x8000_0002, 0x8000_00E0} ==>
          && |data| >= 32
          && var name: nat, value: nat := ReadU64(data, 16), ReadU64(data, 24);
             |data| >= (32 + 2 * name + value) % 0x1_0000_0000_0000_0000)
  }

  lemma DataFitsExactly(kind: UInt32, data: seq<Byte>)
    ensures DataFits(kind, data) <==> BodyOk(kind, data) && Answer(kind, data)
  {
    hide ReadU64;
  }

  /** What PCR 0 holds before it is extended for its event, of which `seen` is what memory holds from the
      event data on: the locality of an H-CRTM or startup locality event is in its last byte. */
  function StartOf(kind: UInt32, seen: seq<Byte>): Digest
    requires |seen| >= 17
  {
    if kind == 0x8000_0010 then Zeros(31) + [4]
    else if kind == 3 && seen[..16] == Ascii("StartupLocality") + [0] then Zeros(31) + [seen[16]]
    else Zeros(32)
  }

  /** A log of one event with a SHA-256 digest is accepted if and only if the PCR exists (for type 3, which
      extends nothing, up to number 31) and the data fits the event type. The PCR is then extended from its
      start value, unless the type is 3, and all other PCRs are zero. */
  lemma OneEventLog(h: Hash, pcr: UInt32, kind: UInt32, digest: Digest, data: seq<Byte>, past: seq<Byte>)
    requires |data| < 0x1_0000_0000 && |past| >= 17 && past[|past| - 1] == 0
    ensures var s := OneDigestRecord(pcr, kind, 0xB, digest, data);
            Backed(s + past, |s|)
    ensures var s := OneDigestRecord(pcr, kind, 0xB, digest, data);
            var o := Run(h, Reader(false, {}, 0), Fresh(), s + past, 0, |s|);
            && (o.ok <==> pcr < (if kind == 3 then 32 else 24) && DataFits(kind, data))
            && (o.ok ==> forall p :: 0 <= p < 24 ==>
                  var start: Digest := if p == pcr == 0 then StartOf(kind, data + past) else Zeros(32);
                  o.st.pcrs[p] == if p == pcr && kind != 3 then h(start + digest) else start)
  {
    hide Run, RunEvents, Fresh, ReadU32, OneDigestRecord, DataFits, StartOf, BytesOfEvent, ParseEvent;
    var s, r := OneDigestRecord(pcr, kind, 0xB, digest, data), Reader(false, {}, 0);
    assert (s + past)[0..|s|] == s && (s + past)[|s|..] == past;
    if pcr >= 32 {
      RunUnfolds(h, r, Fresh(), s + past, 0, |s|);
      NoSuchPcr(s);
    } else {
      var e := Event(pcr, kind, [Digest2(0xB, digest)], data);
      assert DigestOk(e.digests[0]);
      RecordIsEvent(e);
      OneEventRuns(h, e, past);
    }
  }

  lemma NoSuchPcr(s: seq<Byte>)
    requires |s| >= 4 && ReadU32(s, 0) >= 32
    ensures ParseEvent(s).None?
  {
    hide ParseDigests;
  }

  lemma OneEventRuns(h: Hash, e: Event, past: seq<Byte>)
    requires RecordOk(e) && |e.digests| == 1 && e.digests[0].alg == 0xB && |past| >= 17 && past[|past| - 1] == 0
    ensures var s, digest := BytesOfEvent(e), e.digests[0].bytes;
            && Backed(s + past, |s|) && |digest| == 32
            && var o := Run(h, Reader(false, {}, 0), Fresh(), s + past, 0, |s|);
            && (o.ok <==> e.pcr < (if e.kind == 3 then 32 else 24) && DataFits(e.kind, e.data))
            && (o.ok ==> forall p :: 0 <= p < 24 ==>
                  var start: Digest := if p == e.pcr == 0 then StartOf(e.kind, e.data + past) else Zeros(32);
                  o.st.pcrs[p] == if p == e.pcr && e.kind != 3 then h(start + digest) else start)
  {
    hide Run, RunEvents, BytesOfEvent, ParseEvent, DataFits, BodyOk, Answer, StartOf, Visit, DataAt, EventSize,
         Written, Enter, Fresh, RecordOk;
    var s, r := BytesOfEvent(e), Reader(false, {}, 0);
    var memory := s + past;
    SizePositive(e);
    EventParses(e, []);
    DataAndRest(e, past);
    assert memory[0..|s|] == s + [];
    var o := Visit(h, r, Fresh(), e, e.data + past);
    RunUnfolds(h, r, Fresh(), memory, 0, |s|);
    var m := Written(memory, DataAt(e), e.kind, e.data);
    WrittenBacked(memory, DataAt(e), e.kind, e.data, |s|);
    RunsEnd(h, Enter(r, e, e.data + past), o.st, m, |s|);
    assert Run(h, r, Fresh(), memory, 0, |s|).ok == o.ok && Run(h, r, Fresh(), memory, 0, |s|).st == o.st;
    OneVisit(h, e, e.data + past);
  }

  lemma OneVisit(h: Hash, e: Event, seen: seq<Byte>)
    requires RecordOk(e) && |e.digests| == 1 && e.digests[0].alg == 0xB && |seen| >= 17
    ensures |e.digests[0].bytes| == 32
    ensures var o := Visit(h, Reader(false, {}, 0), Fresh(), e, seen);
            && (o.ok <==> e.pcr < (if e.kind == 3 then 32 else 24) && DataFits(e.kind, e.data))
            && (o.ok ==> forall p :: 0 <= p < 24 ==>
                  var start: Digest := if p == e.pcr == 0 then StartOf(e.kind, seen) else Zeros(32);
                  o.st.pcrs[p] == if p == e.pcr && e.kind != 3 then h(start + e.digests[0].bytes) else start)
  {
    hide BodyOk, Answer, DataFits, Visit, Fold, Sha256s, StartOf, LocalitySet, EventSize;
    var r, digest := Reader(false, {}, 0), e.digests[0].bytes;
    assert DigestOk(e.digests[0]) && e.digests[1..] == [];
    DataFitsExactly(e.kind, e.data);
    OneDigestSize(e);
    VisitAccepts(h, r, Fresh(), e, seen);
    if Visit(h, r, Fresh(), e, seen).ok {
      VisitFolds(h, r, Fresh(), e, seen);
      OneFold(h, e);
      StartIsLocality(e, seen);
    }
  }

  lemma OneFold(h: Hash, e: Event)
    requires |e.digests| == 1 && e.digests[0].alg == 0xB
    ensures forall v: Digest ::
              Fold(h, v, Promised(e)) == if e.kind == 3 then v else h(v + e.digests[0].bytes)
  {
    assert e.digests[1..] == [];
    assert Sha256s(e.digests) == [e.digests[0].bytes];
    forall v: Digest ensures Fold(h, v, [e.digests[0].bytes]) == h(v + e.digests[0].bytes) {
      assert [e.digests[0].bytes][1..] == [];
    }
  }

  lemma StartIsLocality(e: Event, seen: seq<Byte>)
    requires |seen| >= 17
    ensures var l := LocalitySet(false, e, seen);
            (if l.Some? then Zeros(32)[31 := l.value] else Zeros(32))
            == if e.pcr == 0 then StartOf(e.kind, seen) else Zeros(32)
  {
    assert Signature() == Ascii("StartupLocality") + [0];
    forall b: Byte ensures Zeros(32)[31 := b] == Zeros(31) + [b] {
    }
  }
}
