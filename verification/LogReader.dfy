/** The event log reader with its callbacks, updating the replay state in place. */
module LogReader {
  import opened Words
  import opened EventLog
  import Replay

  /** The statics of eventcb.c together with cb_data. */
  class Replayer {
    const hash: Replay.Hash
    const calcPcrs: array<Replay.Digest>
    var activePcr: UInt32
    var noActionPending: bool
    var inits: seq<Replay.Init>

    ghost predicate Valid()
    {
      calcPcrs.Length == 24
    }

    /** The state as a value. */
    ghost function Now(): Replay.State
      requires Valid()
      reads this, calcPcrs
    {
      Replay.State(activePcr, noActionPending, calcPcrs[..], inits)
    }

    constructor (hash: Replay.Hash)
      ensures Valid() && fresh(calcPcrs) && Now() == Replay.Fresh()
      ensures this.hash == hash
    {
      this.hash := hash;
      activePcr, noActionPending, inits := 0, false, [];
      calcPcrs := new Replay.Digest[24](_ => Replay.ZERO);
      new;
      assert calcPcrs[..] == seq<Replay.Digest>(24, _ => Replay.ZERO);
    }

    method InitvalCb(locality: Byte, pcr: UInt32)
      requires Valid()
      modifies this
      ensures Now() == Replay.InitvalCb(old(Now()), locality, pcr)
    {
      activePcr := pcr;
      inits := inits + [Replay.Init(pcr, locality)];
    }

    method HeaderCb(pcr: UInt32, kind: UInt32)
      requires Valid()
      modifies this
      ensures Now() == Replay.HeaderCb(old(Now()), pcr, kind)
    {
      activePcr := pcr;
      if kind == EV_NO_ACTION {
        noActionPending := true;
      }
    }

    method DigestCb(d: Digest2) returns (ok: bool)
      requires Valid()
      modifies this, calcPcrs
      ensures Replay.Outcome(ok, Now()) == Replay.DigestCb(hash, old(Now()), d)
      ensures ok && !old(noActionPending) && d.alg == 0xB ==>
                activePcr < 24 && calcPcrs[activePcr] == hash(old(calcPcrs[activePcr]) + d.bytes)
    {
      if noActionPending {
        noActionPending := false;
        return true;
      }
      if activePcr >= 24 {
        return false;
      }
      if d.alg == SHA256 {
        calcPcrs[activePcr] := hash(calcPcrs[activePcr] + d.bytes);
      }
      return true;
    }

    /** Writes the startup locality into the last byte of PCR 0. */
    method SetLocality(locality: Byte)
      requires Valid()
      modifies calcPcrs
      ensures Now() == old(Now()).(pcrs := Replay.SetLocality(old(Now()).pcrs, locality))
    {
      calcPcrs[0] := calcPcrs[0][31 := locality];
    }

    /** foreach_digest2 with the digest callback, on the digests at `at`. */
    method ForeachDigest2(memory: seq<Byte>, at: nat, pcr: UInt32, count: UInt32, size: nat) returns (ok: bool)
      requires Valid() && at + size <= |memory|
      modifies this, calcPcrs
      ensures Replay.Outcome(ok, Now()) ==
              if pcr > 31 then Replay.Outcome(false, old(Now()))
              else Replay.DigestPass(hash, old(Now()), memory[at..], count, size)
    {
      hide Replay.DigestPass, Replay.DigestCb, HashSize, ReadU16;
      if pcr > 31 {
        return false;
      }
      var digest, left, i := at, size, 0;
      while i < count
        invariant Valid() && 0 <= i <= count && at <= digest <= at + size && digest + left == at + size
        invariant Replay.DigestPass(hash, Now(), memory[digest..], count - i, left)
                  == Replay.DigestPass(hash, old(Now()), memory[at..], count, size)
      {
        PassUnfolds(hash, Now(), memory[digest..], count - i, left);
        if left < 2 {
          return false;
        }
        var alg := ReadU16(memory[digest..], 0);
        var n := 2 + HashSize(alg);
        if left < n {
          return false;
        }
        ok := DigestCb(Digest2(alg, memory[digest..][2..n]));
        if !ok {
          return false;
        }
        assert memory[digest..][n..] == memory[digest + n..];
        left := left - n;
        digest := digest + n;
        i := i + 1;
      }
      PassEnds(hash, Now(), memory[digest..], left);
      return true;
    }

    /** The statements of foreach_event2's loop that come before the callbacks. */
    method EnterEvent(pcr: UInt32, kind: UInt32, eventSize: nat, data: seq<Byte>, r: Replay.Reader, ghost e: Event)
      returns (ok: bool, next: Replay.Reader)
      requires Valid() && |data| >= 17
      requires pcr == e.pcr && kind == e.kind && eventSize == EventSize(e)
      modifies this, calcPcrs
      ensures ok <==> !(Replay.MayStart(r.hcrtm, e) && EventSize(e) < 17)
      ensures ok ==> next == Replay.Enter(r, e, data) && Now() == Replay.EnterState(r, old(Now()), e, data)
      ensures !ok ==> Now() == old(Now())
    {
      hide Replay.Signature, EventSize;
      next := r;
      if kind == EV_EFI_HCRTM_EVENT && pcr == 0 {
        next := next.(hcrtm := true, locality := 4);
        SetLocality(4);
      }
      if !next.hcrtm && kind == EV_NO_ACTION && pcr == 0 {
        if eventSize < 17 {
          return false, next;
        }
        if data[..16] == Replay.Signature() {
          next := next.(locality := data[16]);
          SetLocality(next.locality);
        }
      }
      if pcr !in next.seen {
        next := next.(seen := next.seen + {pcr});
        if pcr != 0 {
          next := next.(locality := 0);
        }
        InitvalCb(next.locality, pcr);
      }
      assert next.seen == r.seen + {pcr};
      return true, next;
    }

    /** event_data_cb, which may write to the log: event_ipl turns tabs into spaces in place. */
    method DataCb(memory: array<Byte>, at: nat, size: nat, kind: UInt32) returns (ok: bool)
      requires at + size <= memory.Length
      modifies memory
      ensures var data := old(memory[at..at + size]);
              && ok == Replay.Answer(kind, data)
              && memory[..] == Replay.Written(old(memory[..]), at, kind, data)
    {
      if size == 0 {
        return true;
      }
      if IsVariable(kind) {
        return size >= 32;
      }
      if kind == EV_EFI_GPT_EVENT {
        return size >= 100;
      }
      if kind == Replay.EV_IPL {
        EventIpl(memory, at);
      }
      return true;
    }

    /** The body of foreach_event2's loop behind parse_event2, for the event e at `at`. */
    method VisitEvent(memory: array<Byte>, at: nat, digestsSize: nat, eventSize: nat, r: Replay.Reader, ghost e: Event)
      returns (ok: bool, next: Replay.Reader)
      requires Valid() && ReadsAs(memory[..], at, e)
      requires digestsSize == DigestsLength(e.digests) && eventSize == EventSize(e)
      modifies this, calcPcrs, memory
      ensures var data, before := at + DataAt(e), old(memory[..]);
              && Replay.Outcome(ok, Now()) == Replay.Visit(hash, r, old(Now()), e, before[data..])
              && (ok ==> next == Replay.Enter(r, e, before[data..]))
              && memory[..] == if ok then Replay.Written(before, data, e.kind, e.data) else before
    {
      hide Replay.DigestCbs, Replay.DigestPass, Replay.Enter, Replay.EnterState, Replay.MayStart, Replay.Untab,
           DigestsLength, BodyOk, ParseDigests, ReadU32;
      var bytes := memory[..];
      var pcr, kind, count := ReadU32(bytes, at), ReadU32(bytes, at + 4), ReadU32(bytes, at + 8);
      var data := at + 16 + digestsSize;
      var dataSize := ReadU32(bytes, data - 4);
      ok, next := EnterEvent(pcr, kind, eventSize, bytes[data..], r, e);
      if !ok {
        return;
      }
      HeaderCb(pcr, kind);
      Replay.PassVisits(hash, Now(), bytes[at + 12..], count, digestsSize);
      ok := ForeachDigest2(bytes, at + 12, pcr, count, digestsSize);
      if !ok {
        return;
      }
      assert memory[data..data + dataSize] == bytes[data..data + dataSize];
      if !BodyOk(kind, bytes[data..data + dataSize]) {
        return false, next;
      }
      ok := DataCb(memory, data, dataSize, kind);
    }

    /** foreach_event2: the log is the `size` bytes at `start`; memory does not end there. */
    method ForeachEvent2(memory: array<Byte>, start: nat, size: nat) returns (ok: bool)
      requires Valid() && Replay.Backed(memory[..], start + size)
      modifies this, calcPcrs, memory
      ensures Replay.Final(ok, Now(), memory[..]) ==
              Replay.Run(hash, Replay.Reader(false, {}, 0), old(Now()), old(memory[..]), start, start + size)
    {
      hide Replay.Run, Replay.Visit, Replay.Enter, Replay.Written, ParseEvent, EventSize, DataAt, ReadsAs;
      var end := start + size;
      var at, r := start, Replay.Reader(false, {}, 0);
      while at < end
        invariant Valid() && start <= at <= end && Replay.Backed(memory[..], end)
        invariant Replay.Run(hash, r, Now(), memory[..], at, end)
                  == Replay.Run(hash, Replay.Reader(false, {}, 0), old(Now()), old(memory[..]), start, end)
        decreases end - at
      {
        Replay.RunUnfolds(hash, r, Now(), memory[..], at, end);
        var parsed, eventSize, digestsSize := ParseEvent2(memory[..], at, end - at);
        if !parsed {
          return false;
        }
        ghost var e := ParseEvent(memory[..][at..end]).value;
        ParsedReadsAs(memory[..], at, end);
        ok, r := VisitEvent(memory, at, digestsSize, eventSize, r, e);
        if !ok {
          return false;
        }
        SizePositive(e);
        at := at + eventSize;
      }
      Replay.RunsEnd(hash, r, Now(), memory[..], end);
      return true;
    }
  }

  /** event_ipl: replaces tabs by spaces up to the first NUL, wherever that is. */
  method EventIpl(memory: array<Byte>, at: nat)
    requires at <= memory.Length
    modifies memory
    ensures memory[..] == Replay.Untab(old(memory[..]), at)
  {
    hide Replay.FirstNul;
    ghost var before := memory[..];
    var d := at;
    while d < memory.Length && memory[d] != 0
      invariant at <= d <= memory.Length
      invariant forall i :: at <= i < d ==> before[i] != 0 && memory[i] == if before[i] == 9 then 32 else before[i]
      invariant forall i :: (0 <= i < at || d <= i < memory.Length) ==> memory[i] == before[i]
    {
      if memory[d] == 9 {
        memory[d] := 32;
      }
      d := d + 1;
    }
    Replay.NulNotBefore(before, at, d);
    if d < memory.Length {
      Replay.NulBefore(before, at, d);
    }
  }

  /** The record at `at` is e, and its data is followed by enough memory. */
  ghost predicate ReadsAs(memory: seq<Byte>, at: nat, e: Event) {
    && RecordOk(e)
    && at + EventSize(e) + 17 <= |memory|
    && ReadU32(memory, at) == e.pcr && ReadU32(memory, at + 4) == e.kind && ReadU32(memory, at + 8) == |e.digests|
    && ReadU32(memory, at + DataAt(e) - 4) == |e.data|
    && ParseDigests(memory[at + 12..], |e.digests|, DigestsLength(e.digests)) == Some(e.digests)
    && memory[at + DataAt(e)..at + EventSize(e)] == e.data
  }

  lemma ParsedReadsAs(memory: seq<Byte>, at: nat, end: nat)
    requires at <= end && end + 17 <= |memory| && ParseEvent(memory[at..end]).Some?
    ensures ReadsAs(memory, at, ParseEvent(memory[at..end]).value)
  {
    hide ParseEvent, BytesOfEvent, ReadsAs;
    var e := ParseEvent(memory[at..end]).value;
    RecordBytes(memory[at..end]);
    var rest := memory[at + EventSize(e)..];
    assert memory[at..end][..EventSize(e)] == memory[at..at + EventSize(e)];
    assert memory[at..] == memory[at..at + EventSize(e)] + rest;
    WrittenReadsAs(memory, at, e, rest);
  }

  lemma WrittenReadsAs(memory: seq<Byte>, at: nat, e: Event, rest: seq<Byte>)
    requires at <= |memory| && RecordOk(e) && memory[at..] == BytesOfEvent(e) + rest && |rest| >= 17
    ensures ReadsAs(memory, at, e)
  {
    hide ReadU32, BytesOfEvent, BytesOfDigests, DigestsLength, ParseDigests, DigestsOk;
    var m, s := DigestsLength(e.digests), memory[at..];
    RecordFields(e, rest);
    ReadShifted(memory, at, 0);
    ReadShifted(memory, at, 4);
    ReadShifted(memory, at, 8);
    ReadShifted(memory, at, 12 + m);
    DigestsParse(e.digests, s[12 + m..], m);
    assert s[12..] == s[12..12 + m] + s[12 + m..] == memory[at + 12..];
    assert memory[at + DataAt(e)..at + EventSize(e)] == s[DataAt(e)..EventSize(e)];
  }

  lemma ReadShifted(memory: seq<Byte>, at: nat, k: nat)
    requires at + k + 4 <= |memory|
    ensures ReadU32(memory[at..], k) == ReadU32(memory, at + k)
  {
    var t := memory[at..];
    assert t[k] == memory[at + k] && t[k + 1] == memory[at + k + 1];
    assert t[k + 2] == memory[at + k + 2] && t[k + 3] == memory[at + k + 3];
  }

  /** foreach_digest2 with the accumulating callback: the size of the digests at `at`. */
  method SumDigests(memory: seq<Byte>, at: nat, pcr: UInt32, count: UInt32, size: nat) returns (ok: bool, total: nat)
    requires at + size <= |memory|
    ensures ok <==> pcr <= 31 && ParseDigests(memory[at..at + size], count, size).Some?
    ensures ok ==> total == DigestsLength(ParseDigests(memory[at..at + size], count, size).value)
  {
    hide ParseDigests, DigestsLength, HashSize, ReadU16;
    total := 0;
    if pcr > 31 {
      return false, total;
    }
    var end := at + size;
    var digest, left, i := at, size, 0;
    ghost var all := ParseDigests(memory[at..end], count, size);
    while i < count
      invariant 0 <= i <= count && at <= digest <= end && digest + left == end
      invariant all.Some? <==> ParseDigests(memory[digest..end], count - i, left).Some?
      invariant all.Some? ==> DigestsLength(all.value)
                              == total + DigestsLength(ParseDigests(memory[digest..end], count - i, left).value)
    {
      if left < 2 {
        ParseFits(memory[digest..end], count - i, left);
        return false, total;
      }
      var n := 2 + HashSize(ReadU16(memory[digest..end], 0));
      if left < n {
        ParseFits(memory[digest..end], count - i, left);
        return false, total;
      }
      NextDigest(memory, digest, end, count - i);
      total := total + n;
      left := left - n;
      digest := digest + n;
      i := i + 1;
    }
    NoDigestsParse(memory[digest..end], left);
    NoLength();
    return true, total;
  }

  lemma NoLength()
    ensures DigestsLength([]) == 0
  {
  }

  lemma NextDigest(memory: seq<Byte>, digest: nat, end: nat, count: nat)
    requires digest + 2 <= end <= |memory| && count > 0
    requires end - digest >= 2 + HashSize(ReadU16(memory[digest..end], 0))
    ensures var n := 2 + HashSize(ReadU16(memory[digest..end], 0));
            var all, rest := ParseDigests(memory[digest..end], count, end - digest),
                             ParseDigests(memory[digest + n..end], count - 1, end - digest - n);
            && (all.Some? <==> rest.Some?)
            && (all.Some? ==> DigestsLength(all.value) == n + DigestsLength(rest.value))
  {
    hide ParseDigests, HashSize, ReadU16;
    var s := memory[digest..end];
    var n := 2 + HashSize(ReadU16(s, 0));
    ParseUnfolds(s, count, end - digest);
    assert s[n..] == memory[digest + n..end];
    var rest := ParseDigests(s[n..], count - 1, end - digest - n);
    if rest.Some? {
      var d := Digest2(ReadU16(s, 0), s[2..n]);
      assert ([d] + rest.value)[1..] == rest.value;
    }
  }

  /** parse_event2: sizes of the record at `at`, whose buffer ends at `at + size`. */
  method ParseEvent2(memory: seq<Byte>, at: nat, size: nat) returns (ok: bool, eventSize: nat, digestsSize: nat)
    requires at + size <= |memory|
    ensures ok <==> ParseEvent(memory[at..at + size]).Some?
    ensures ok ==> var e := ParseEvent(memory[at..at + size]).value;
                   eventSize == EventSize(e) && digestsSize == DigestsLength(e.digests)
  {
    hide ParseDigests, DigestsLength, ReadU32;
    eventSize, digestsSize := 0, 0;
    if size < 12 {
      return false, eventSize, digestsSize;
    }
    var s := memory[at..at + size];
    eventSize := 12;
    assert memory[at + 12..at + size] == s[12..];
    ok, digestsSize := SumDigests(memory, at + 12, ReadU32(s, 0), ReadU32(s, 8), size - 12);
    if !ok {
      return false, eventSize, digestsSize;
    }
    ParsedDigestsOk(s[12..], ReadU32(s, 8), size - 12);
    eventSize := eventSize + digestsSize;
    if size < eventSize + 4 {
      return false, eventSize, digestsSize;
    }
    var dataSize := ReadU32(s, eventSize);
    eventSize := eventSize + 4;
    if size < eventSize + dataSize {
      return false, eventSize, digestsSize;
    }
    eventSize := eventSize + dataSize;
    return true, eventSize, digestsSize;
  }

  lemma PassUnfolds(h: Replay.Hash, st: Replay.State, s: seq<Byte>, count: nat, size: nat)
    requires size <= |s| && count > 0
    ensures Replay.DigestPass(h, st, s, count, size)
            == if size < 2 || size < 2 + HashSize(ReadU16(s, 0)) then Replay.Outcome(false, st)
               else
                 var n := 2 + HashSize(ReadU16(s, 0));
                 var o := Replay.DigestCb(h, st, Digest2(ReadU16(s, 0), s[2..n]));
                 if !o.ok then o else Replay.DigestPass(h, o.st, s[n..], count - 1, size - n)
  {
  }

  lemma PassEnds(h: Replay.Hash, st: Replay.State, s: seq<Byte>, size: nat)
    requires size <= |s|
    ensures Replay.DigestPass(h, st, s, 0, size) == Replay.Outcome(true, st)
  {
  }
}
