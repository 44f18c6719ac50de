/** Whole log files: the SpecID record in front of the events, or a log in SHA-1 format. */
module LogFile {
  import opened Words
  import opened EventLog
  import Replay
  import opened LogReader

  /** The SpecID record: `head` is what precedes its algorithm count in the event data. */
  datatype SpecId = SpecId(dataSize: UInt32, head: seq<Byte>, algorithms: seq<UInt32>, vendor: seq<Byte>)

  predicate SpecIdOk(spec: SpecId) {
    && spec.dataSize >= 28 && |spec.head| == 24
    && 0 < |spec.algorithms| < 0x1_0000_0000 && |spec.vendor| < 0x100
  }

  function Words4(ws: seq<UInt32>): (s: seq<Byte>)
    ensures |s| == 4 * |ws|
  {
    if ws == [] then [] else BytesOfU32(ws[0]) + Words4(ws[1..])
  }

  function BytesOfSpecId(spec: SpecId): (s: seq<Byte>)
    requires SpecIdOk(spec)
    ensures |s| == 61 + 4 * |spec.algorithms| + |spec.vendor|
  {
    BytesOfU32(0) + BytesOfU32(EV_NO_ACTION) + Zeros(20) + BytesOfU32(spec.dataSize)
      + spec.head + BytesOfU32(|spec.algorithms|) + Words4(spec.algorithms) + [|spec.vendor|] + spec.vendor
  }

  /** specid_event: where the events begin, or None. */
  function SpecIdEvent(s: seq<Byte>): (next: Option<nat>)
    ensures next.Some? ==> next.value <= |s|
  {
    if |s| < 32 then None
    else if ReadU32(s, 4) != EV_NO_ACTION || ReadU32(s, 0) != 0 then None
    else if !AllZero(s[8..28]) then None
    else
      var size := ReadU32(s, 28);
      if size < 28 || |s| < 32 + size then None
      else
        var n := ReadU32(s, 56);
        if n == 0 || |s| < 60 + 4 * n || |s| < 61 + 4 * n then None
        else
          var vendor := s[60 + 4 * n];
          if |s| < 61 + 4 * n + vendor as int then None else Some(61 + 4 * n + vendor)
  }

  predicate AllZero(s: seq<Byte>) {
    forall i :: 0 <= i < |s| ==> s[i] == 0
  }

  function WordsAt(s: seq<Byte>, at: nat, n: nat): (ws: seq<UInt32>)
    requires at + 4 * n <= |s|
    ensures |ws| == n
    decreases n
  {
    if n == 0 then [] else [ReadU32(s, at)] + WordsAt(s, at + 4, n - 1)
  }

  lemma {:induction false} WordsRead(s: seq<Byte>, at: nat, n: nat)
    requires at + 4 * n <= |s|
    ensures Words4(WordsAt(s, at, n)) == s[at..at + 4 * n]
    decreases n
  {
    hide ReadU32, BytesOfU32;
    if n > 0 {
      WordsRead(s, at + 4, n - 1);
      U32Unique(s, at);
      assert ([ReadU32(s, at)] + WordsAt(s, at + 4, n - 1))[1..] == WordsAt(s, at + 4, n - 1);
      assert s[at..at + 4] + s[at + 4..at + 4 * n] == s[at..at + 4 * n];
    }
  }

  /** The record that specid_event has accepted. */
  function SpecIdOf(s: seq<Byte>): SpecId
    requires SpecIdEvent(s).Some?
  {
    var n := ReadU32(s, 56);
    SpecId(ReadU32(s, 28), s[32..56], WordsAt(s, 60, n), s[61 + 4 * n..SpecIdEvent(s).value])
  }

  lemma SpecIdRead(s: seq<Byte>)
    requires SpecIdEvent(s).Some?
    ensures var spec, next := SpecIdOf(s), SpecIdEvent(s).value;
            SpecIdOk(spec) && 32 + spec.dataSize <= |s| && s[..next] == BytesOfSpecId(spec)
  {
    hide BytesOfU32, ReadU32, Words4, WordsAt;
    var spec, next := SpecIdOf(s), SpecIdEvent(s).value;
    var n: nat := ReadU32(s, 56);
    U32Unique(s, 0);
    U32Unique(s, 4);
    U32Unique(s, 28);
    U32Unique(s, 56);
    WordsRead(s, 60, n);
    assert s[8..28] == Zeros(20);
    assert s[60 + 4 * n..61 + 4 * n] == [|spec.vendor|];
    SixParts(s, 4, 8, 28, 32, 56, 60);
    Rest(s, 60, 60 + 4 * n, 61 + 4 * n, next);
  }

  lemma Rest(s: seq<Byte>, a: nat, b: nat, c: nat, d: nat)
    requires a <= b <= c <= d <= |s|
    ensures s[..d] == s[..a] + s[a..b] + s[b..c] + s[c..d]
  {
    assert s[..a] + s[a..b] == s[..b];
    assert s[..b] + s[b..c] == s[..c];
  }

  lemma SpecIdParses(spec: SpecId, rest: seq<Byte>)
    requires SpecIdOk(spec) && 32 + spec.dataSize <= |BytesOfSpecId(spec)| + |rest|
    ensures SpecIdEvent(BytesOfSpecId(spec) + rest) == Some(|BytesOfSpecId(spec)|)
  {
    hide BytesOfU32, ReadU32, Words4;
    var s := BytesOfSpecId(spec) + rest;
    var n := |spec.algorithms|;
    ReadSlice(s, 0);
    ReadSlice(s, 4);
    ReadSlice(s, 28);
    ReadSlice(s, 56);
    assert s[0..4] == BytesOfU32(0) && s[4..8] == BytesOfU32(EV_NO_ACTION) && s[8..28] == Zeros(20);
    assert s[28..32] == BytesOfU32(spec.dataSize) && s[56..60] == BytesOfU32(n);
    assert s[60 + 4 * n] == |spec.vendor|;
  }

  /** specid_event accepts exactly a well-formed record followed by enough bytes, and finds its end. */
  lemma SpecIdExactly(s: seq<Byte>, next: nat)
    ensures SpecIdEvent(s) == Some(next) <==>
            exists spec :: SpecIdOk(spec) && 32 + spec.dataSize <= |s|
                           && next == |BytesOfSpecId(spec)| <= |s| && s[..next] == BytesOfSpecId(spec)
  {
    hide BytesOfSpecId, SpecIdEvent, SpecIdOf, SpecIdOk;
    if SpecIdEvent(s) == Some(next) {
      SpecIdRead(s);
    }
    forall spec | SpecIdOk(spec) && 32 + spec.dataSize <= |s| && next == |BytesOfSpecId(spec)| <= |s|
                  && s[..next] == BytesOfSpecId(spec)
      ensures SpecIdEvent(s) == Some(next)
    {
      assert s == s[..next] + s[next..];
      SpecIdParses(spec, s[next..]);
    }
  }

  // ---- Logs in SHA-1 format ----

  /** foreach_sha1_log_event on the records at `at` .. `end`. Of the state only the active PCR number
      changes; the data callback writes to the log as in the other format. */
  function Sha1Run(st: Replay.State, memory: seq<Byte>, at: nat, end: nat): Replay.Final
    requires at <= end <= |memory|
    decreases end - at
  {
    if at == end then Replay.Final(true, st, memory)
    else if end - at < 32 then Replay.Final(false, st, memory)
    else
      var n := 32 + ReadU32(memory, at + 28);
      if end - at < n then Replay.Final(false, st, memory)
      else
        var pcr, kind, data := ReadU32(memory, at), ReadU32(memory, at + 4), memory[at + 32..at + n];
        var st' := if kind == EV_NO_ACTION then st else st.(active := pcr);
        if BodyOk(kind, data) && Replay.Answer(kind, data) then
          Sha1Run(st', Replay.Written(memory, at + 32, kind, data), at + n, end)
        else
          Replay.Final(false, st', memory)
  }

  /** parse_eventlog on the first `size` bytes of memory. */
  function RunLog(h: Replay.Hash, st: Replay.State, memory: seq<Byte>, size: nat): Replay.Final
    requires Replay.Backed(memory, size)
  {
    if size < 32 then Replay.Final(false, st, memory)
    else if ReadU32(memory, 4) == EV_NO_ACTION then
      var next := SpecIdEvent(memory[..size]);
      if next.None? then Replay.Final(false, st, memory)
      else Replay.Run(h, Replay.Reader(false, {}, 0), st, memory, next.value, size)
    else Sha1Run(st, memory, 0, size)
  }

  /** A log file made of a SpecID record and well-formed events is accepted if and only if the events
      are harmless and visited with success, and then it leaves the state of these visits. */
  lemma LogFileRuns(h: Replay.Hash, st: Replay.State, memory: seq<Byte>, size: nat,
                    spec: SpecId, es: seq<Event>)
    requires Replay.Backed(memory, size) && SpecIdOk(spec) && EventsOk(es)
    requires memory[..size] == BytesOfSpecId(spec) + BytesOfEvents(es) && 32 + spec.dataSize <= size
    ensures var run := RunLog(h, st, memory, size);
            var visits := Replay.RunEvents(h, Replay.Reader(false, {}, 0), st, es, memory[size..]);
            && (run.ok <==> Replay.Harmless(es) && visits.ok)
            && (run.ok ==> run.st == visits.st)
  {
    hide BytesOfSpecId, BytesOfEvents, Replay.Run, Replay.RunEvents, EventsOk, ReadU32, Replay.Harmless;
    var s, n := memory[..size], |BytesOfSpecId(spec)|;
    SpecIdParses(spec, BytesOfEvents(es));
    assert s[n..] == BytesOfEvents(es) && s[n..] == memory[n..size];
    ReadSlice(memory, 4);
    ReadSlice(s, 4);
    assert memory[4..8] == s[4..8];
    Replay.RunVisits(h, Replay.Reader(false, {}, 0), st, memory, n, size, es);
  }

  /** parse_eventlog on the `size` bytes at the start of memory, with the callbacks of cb. */
  method ParseEventLog(cb: Replayer, memory: array<Byte>, size: nat) returns (ok: bool)
    requires cb.Valid() && Replay.Backed(memory[..], size)
    modifies cb, cb.calcPcrs, memory
    ensures Replay.Final(ok, cb.Now(), memory[..])
            == RunLog(cb.hash, old(cb.Now()), old(memory[..]), size)
  {
    hide Replay.Run, Sha1Run, SpecIdEvent;
    if size < 32 {
      return false;
    }
    if ReadU32(memory[..], 4) == EV_NO_ACTION {
      assert memory[..][..size] == memory[..size];
      var next := SpecIdEvent(memory[..size]);
      if next.None? {
        return false;
      }
      ok := cb.ForeachEvent2(memory, next.value, size - next.value);
    } else {
      ok := ForeachSha1Event(cb, memory, size);
    }
  }

  method ForeachSha1Event(cb: Replayer, memory: array<Byte>, size: nat) returns (ok: bool)
    requires cb.Valid() && size <= memory.Length
    modifies cb, memory
    ensures Replay.Final(ok, cb.Now(), memory[..]) == Sha1Run(old(cb.Now()), old(memory[..]), 0, size)
  {
    hide Sha1Run, ReadU32, BodyOk, Replay.Written, Replay.Answer;
    var at := 0;
    while at < size
      invariant 0 <= at <= size && cb.Valid()
      invariant Sha1Run(cb.Now(), memory[..], at, size)
                == Sha1Run(old(cb.Now()), old(memory[..]), 0, size)
      decreases size - at
    {
      Sha1Unfolds(cb.Now(), memory[..], at, size);
      if size - at < 32 {
        return false;
      }
      var dataSize: nat := ReadU32(memory[..], at + 28);
      if size - at < 32 + dataSize {
        return false;
      }
      var kind := ReadU32(memory[..], at + 4);
      if kind != EV_NO_ACTION {
        cb.activePcr := ReadU32(memory[..], at);
      }
      assert memory[..][at + 32..at + 32 + dataSize] == memory[at + 32..at + 32 + dataSize];
      if !BodyOk(kind, memory[at + 32..at + 32 + dataSize]) {
        return false;
      }
      RefusedUnwritten(memory[..], at + 32, kind, memory[at + 32..at + 32 + dataSize]);
      ok := cb.DataCb(memory, at + 32, dataSize, kind);
      if !ok {
        return false;
      }
      at := at + 32 + dataSize;
    }
    Sha1Ends(cb.Now(), memory[..], size);
    return true;
  }

  lemma RefusedUnwritten(memory: seq<Byte>, at: nat, kind: UInt32, data: seq<Byte>)
    requires at <= |memory|
    ensures !Replay.Answer(kind, data) ==> Replay.Written(memory, at, kind, data) == memory
  {
  }

  lemma Sha1Ends(st: Replay.State, memory: seq<Byte>, end: nat)
    requires end <= |memory|
    ensures Sha1Run(st, memory, end, end) == Replay.Final(true, st, memory)
  {
  }

  lemma Sha1Unfolds(st: Replay.State, memory: seq<Byte>, at: nat, end: nat)
    requires at < end <= |memory|
    ensures Sha1Run(st, memory, at, end) ==
            if end - at < 32 || end - at < 32 + ReadU32(memory, at + 28) then Replay.Final(false, st, memory)
            else
              var n := 32 + ReadU32(memory, at + 28);
              var kind, data := ReadU32(memory, at + 4), memory[at + 32..at + n];
              var st' := if kind == EV_NO_ACTION then st else st.(active := ReadU32(memory, at));
              if BodyOk(kind, data) && Replay.Answer(kind, data) then
                Sha1Run(st', Replay.Written(memory, at + 32, kind, data), at + n, end)
              else
                Replay.Final(false, st', memory)
  {
  }
}
