/** Which logs in SHA-1 format are accepted, and when they are read as they were written. */
module Sha1Log {
  import opened Words
  import opened EventLog
  import Replay
  import opened LogFile

  datatype Record = Record(pcr: UInt32, kind: UInt32, digest: seq<Byte>, data: seq<Byte>)

  /** A record of the format whose data passes all checks. */
  predicate RecordAccepted(r: Record) {
    |r.digest| == 20 && |r.data| < 0x1_0000_0000 && BodyOk(r.kind, r.data) && Replay.Answer(r.kind, r.data)
  }

  predicate AllAccepted(rs: seq<Record>) {
    forall r :: r in rs ==> RecordAccepted(r)
  }

  function BytesOfRecord(r: Record): (s: seq<Byte>)
    requires RecordAccepted(r)
    ensures |s| == 32 + |r.data|
  {
    BytesOfU32(r.pcr) + BytesOfU32(r.kind) + r.digest + BytesOfU32(|r.data|) + r.data
  }

  function BytesOfRecords(rs: seq<Record>): seq<Byte>
    requires AllAccepted(rs)
  {
    if rs == [] then []
    else
      assert RecordAccepted(rs[0]);
      BytesOfRecord(rs[0]) + BytesOfRecords(rs[1..])
  }

  ghost predicate RecordAt(memory: seq<Byte>, at: nat, end: nat, r: Record)
    requires end <= |memory|
  {
    RecordAccepted(r) && at + 32 + |r.data| <= end && memory[at..at + 32 + |r.data|] == BytesOfRecord(r)
  }

  /** The log at `at` .. `end` is read as these records: each is found in the memory that the data
      callbacks of the records before it have left. */
  ghost predicate Reads(memory: seq<Byte>, at: nat, end: nat, rs: seq<Record>)
    requires at <= end <= |memory|
    decreases |rs|
  {
    if rs == [] then at == end
    else
      && RecordAt(memory, at, end, rs[0])
      && Reads(Replay.Written(memory, at + 32, rs[0].kind, rs[0].data), at + 32 + |rs[0].data|, end, rs[1..])
  }

  // ---- One record ----

  /** The record in the bytes at `at`. */
  function Parsed(memory: seq<Byte>, at: nat): Record
    requires at + 32 <= |memory| && at + 32 + ReadU32(memory, at + 28) <= |memory|
  {
    Record(ReadU32(memory, at), ReadU32(memory, at + 4), memory[at + 8..at + 28],
           memory[at + 32..at + 32 + ReadU32(memory, at + 28)])
  }

  lemma RecordFields(memory: seq<Byte>, at: nat, end: nat, r: Record)
    requires end <= |memory| && RecordAt(memory, at, end, r)
    ensures ReadU32(memory, at + 28) == |r.data| && Parsed(memory, at) == r
  {
    hide ReadU32, BytesOfU32, BodyOk;
    var n := 32 + |r.data|;
    RecordParts(r);
    Part(memory, at, n, 0, 4);
    Part(memory, at, n, 4, 8);
    Part(memory, at, n, 8, 28);
    Part(memory, at, n, 28, 32);
    Part(memory, at, n, 32, n);
    ReadSlice(memory, at);
    ReadSlice(memory, at + 4);
    ReadSlice(memory, at + 28);
  }

  lemma RecordParts(r: Record)
    requires RecordAccepted(r)
    ensures var s := BytesOfRecord(r);
            && s[0..4] == BytesOfU32(r.pcr) && s[4..8] == BytesOfU32(r.kind) && s[8..28] == r.digest
            && s[28..32] == BytesOfU32(|r.data|) && s[32..32 + |r.data|] == r.data
  {
    hide BytesOfU32, BodyOk;
  }

  lemma Part(memory: seq<Byte>, at: nat, n: nat, a: nat, b: nat)
    requires a <= b <= n && at + n <= |memory|
    ensures memory[at..at + n][a..b] == memory[at + a..at + b]
  {
    var s, t := memory[at..at + n][a..b], memory[at + a..at + b];
    assert |s| == |t|;
    assert forall i :: 0 <= i < |s| ==> s[i] == t[i];
  }

  lemma ParsedIsThere(memory: seq<Byte>, at: nat, end: nat)
    requires end <= |memory| && at + 32 <= end && at + 32 + ReadU32(memory, at + 28) <= end
    requires RecordAccepted(Parsed(memory, at))
    ensures RecordAt(memory, at, end, Parsed(memory, at))
  {
    hide ReadU32, BytesOfU32, BodyOk;
    var r := Parsed(memory, at);
    U32Unique(memory, at);
    U32Unique(memory, at + 4);
    U32Unique(memory, at + 28);
    var n := 32 + |r.data|;
    var s := memory[at..at + n];
    SixParts(s, 4, 8, 28, 32, 32, n);
    Part(memory, at, n, 0, 4);
    Part(memory, at, n, 4, 8);
    Part(memory, at, n, 8, 28);
    Part(memory, at, n, 28, 32);
    Part(memory, at, n, 32, n);
    assert s[..n] == s && s[32..32] == [];
  }

  lemma RunStep(st: Replay.State, memory: seq<Byte>, at: nat, end: nat)
    requires at < end <= |memory|
    ensures Sha1Run(st, memory, at, end).ok <==>
            && at + 32 <= end && at + 32 + ReadU32(memory, at + 28) <= end
            && var r := Parsed(memory, at);
            && BodyOk(r.kind, r.data) && Replay.Answer(r.kind, r.data)
            && Sha1Run(if r.kind == EV_NO_ACTION then st else st.(active := r.pcr),
                       Replay.Written(memory, at + 32, r.kind, r.data), at + 32 + |r.data|, end).ok
    ensures Sha1Run(st, memory, at, end).ok ==>
              var r := Parsed(memory, at);
              Sha1Run(st, memory, at, end).st
              == Sha1Run(if r.kind == EV_NO_ACTION then st else st.(active := r.pcr),
                         Replay.Written(memory, at + 32, r.kind, r.data), at + 32 + |r.data|, end).st
  {
    hide BodyOk, ReadU32, Replay.Written, Replay.Answer;
    Sha1Unfolds(st, memory, at, end);
  }

  lemma {:induction false} AcceptedIsRead(st: Replay.State, memory: seq<Byte>, at: nat,
                                          end: nat) returns (rs: seq<Record>)
    requires at <= end <= |memory| && Sha1Run(st, memory, at, end).ok
    ensures Reads(memory, at, end, rs)
    decreases end - at
  {
    hide Sha1Run, BodyOk, ReadU32, BytesOfRecord, Replay.Written, Replay.Answer;
    if at == end {
      return [];
    }
    RunStep(st, memory, at, end);
    var r := Parsed(memory, at);
    var m, next := Replay.Written(memory, at + 32, r.kind, r.data), at + 32 + |r.data|;
    var rest := AcceptedIsRead(if r.kind == EV_NO_ACTION then st else st.(active := r.pcr), m, next, end);
    ParsedIsThere(memory, at, end);
    rs := [r] + rest;
    assert rs[1..] == rest;
  }

  /** The PCR number of the last record whose type is not 3. */
  function LastActive(active: UInt32, rs: seq<Record>): UInt32
    decreases |rs|
  {
    if rs == [] then active else LastActive(if rs[0].kind == 3 then active else rs[0].pcr, rs[1..])
  }

  /** A log that is read changes nothing of the state but the active PCR number: no PCR is extended. */
  lemma {:induction false} ReadIsAccepted(st: Replay.State, memory: seq<Byte>, at: nat, end: nat, rs: seq<Record>)
    requires at <= end <= |memory| && Reads(memory, at, end, rs)
    ensures Sha1Run(st, memory, at, end).ok
    ensures Sha1Run(st, memory, at, end).st == st.(active := LastActive(st.active, rs))
    decreases |rs|
  {
    hide Sha1Run, BodyOk, ReadU32, BytesOfRecord, Replay.Written, Replay.Answer;
    if rs == [] {
      Sha1Ends(st, memory, end);
    } else {
      var r := rs[0];
      RecordFields(memory, at, end, r);
      RunStep(st, memory, at, end);
      ReadIsAccepted(if r.kind == EV_NO_ACTION then st else st.(active := r.pcr),
                     Replay.Written(memory, at + 32, r.kind, r.data), at + 32 + |r.data|, end, rs[1..]);
    }
  }

  /** foreach_sha1_log_event accepts exactly the logs that are read as records whose data passes. */
  lemma AcceptedReads(st: Replay.State, memory: seq<Byte>, at: nat, end: nat)
    requires at <= end <= |memory|
    ensures Sha1Run(st, memory, at, end).ok <==> exists rs :: Reads(memory, at, end, rs)
  {
    hide Sha1Run, Reads;
    if Sha1Run(st, memory, at, end).ok {
      var rs := AcceptedIsRead(st, memory, at, end);
    }
    forall rs | Reads(memory, at, end, rs) ensures Sha1Run(st, memory, at, end).ok {
      ReadIsAccepted(st, memory, at, end, rs);
    }
  }

  // ---- Logs that are read as written ----

  /** The data callback's write leaves what follows alone: there is a NUL in the data, or no tab before
      the first NUL behind it. */
  predicate Spares(r: Record, rest: seq<Byte>) {
    Replay.Writes(r.kind, r.data) && Replay.FirstNul(r.data, 0) == |r.data| ==>
      forall i :: 0 <= i < Replay.FirstNul(rest, 0) ==> rest[i] != 9
  }

  predicate AllSpared(rs: seq<Record>)
    requires AllAccepted(rs)
  {
    rs == [] || (Spares(rs[0], BytesOfRecords(rs[1..])) && AllSpared(rs[1..]))
  }

  /** From a position that the search for a NUL reaches, it goes on as if it had started there. */
  lemma {:induction false} NulBehind(memory: seq<Byte>, at: nat, next: nat)
    requires at <= next <= |memory| && Replay.FirstNul(memory, at) >= next
    ensures Replay.FirstNul(memory, at) == Replay.FirstNul(memory, next)
    decreases next - at
  {
    if at < next {
      NulBehind(memory, at + 1, next);
    }
  }

  lemma NulInside(memory: seq<Byte>, next: nat, end: nat)
    requires next <= end <= |memory|
    ensures var i, j := Replay.FirstNul(memory[next..end], 0), Replay.FirstNul(memory, next);
            if i < end - next then j == next + i else j >= end
  {
    hide Replay.FirstNul;
    var rest := memory[next..end];
    var i := Replay.FirstNul(rest, 0);
    forall k | next <= k < next + i ensures memory[k] != 0 {
      assert memory[k] == rest[k - next];
    }
    Replay.NulNotBefore(memory, next, next + i);
    if i < end - next {
      assert memory[next + i] == rest[i];
      Replay.NulBefore(memory, next, next + i);
    }
  }

  lemma RestCompared(memory: seq<Byte>, m: seq<Byte>, next: nat, end: nat, n: nat)
    requires next <= end <= |memory| == |m| && n <= end - next
    requires forall i :: next <= i < next + n ==> m[i] == if memory[i] == 9 then 32 else memory[i]
    requires forall i :: next + n <= i < end ==> m[i] == memory[i]
    ensures var rest := memory[next..end];
            m[next..end] == rest <==> forall i :: 0 <= i < n ==> rest[i] != 9
  {
    var rest, now := memory[next..end], m[next..end];
    forall i | 0 <= i < |rest| ensures now[i] == if i < n && rest[i] == 9 then 32 else rest[i] {
      assert now[i] == m[next + i] && rest[i] == memory[next + i];
    }
    if now == rest {
      assert forall i :: 0 <= i < n ==> now[i] == rest[i];
    }
  }

  lemma WriteSpares(memory: seq<Byte>, at: nat, end: nat, r: Record)
    requires end <= |memory| && RecordAt(memory, at, end, r)
    ensures var m, next := Replay.Written(memory, at + 32, r.kind, r.data), at + 32 + |r.data|;
            m[next..end] == memory[next..end] <==> Spares(r, memory[next..end])
  {
    hide BytesOfRecord, BodyOk, Replay.FirstNul;
    RecordFields(memory, at, end, r);
    var data, next := at + 32, at + 32 + |r.data|;
    if Replay.Writes(r.kind, r.data) {
      Replay.NulWithin(memory, data, r.data);
      var m, rest := Replay.Untab(memory, data), memory[next..end];
      if Replay.FirstNul(memory, data) >= next {
        NulBehind(memory, data, next);
        NulInside(memory, next, end);
        RestCompared(memory, m, next, end, Replay.FirstNul(rest, 0));
      }
    }
  }

  /** `m` has spaces in place of some tabs of `memory`. */
  predicate Untabbed(memory: seq<Byte>, m: seq<Byte>) {
    |m| == |memory| && forall i :: 0 <= i < |m| ==> m[i] == memory[i] || (memory[i] == 9 && m[i] == 32)
  }

  lemma {:induction false} ReadAsWritten(memory: seq<Byte>, m: seq<Byte>, at: nat, end: nat, rs: seq<Record>)
    requires at <= end <= |memory| && AllAccepted(rs) && memory[at..end] == BytesOfRecords(rs)
    requires |m| == |memory| && Untabbed(memory, m) && Reads(m, at, end, rs)
    ensures m[at..end] == memory[at..end]
    decreases |rs|
  {
    hide BytesOfRecord, BodyOk, Replay.Written, Replay.Answer, Untabbed, BytesOfRecords;
    if rs == [] {
      assert at == end;
    } else {
      var r, next := rs[0], at + 32 + |rs[0].data|;
      var m' := Replay.Written(m, at + 32, r.kind, r.data);
      Held(memory, at, end, rs);
      WrittenUntabs(m, at + 32, r.kind, r.data);
      UntabbedTwice(memory, m, m');
      ReadAsWritten(memory, m', next, end, rs[1..]);
      NeverBack(memory, m, m', next, end);
      Cut(m, at, next, end);
      Cut(memory, at, next, end);
    }
  }

  lemma UntabbedTwice(memory: seq<Byte>, m: seq<Byte>, m': seq<Byte>)
    requires Untabbed(memory, m) && Untabbed(m, m')
    ensures Untabbed(memory, m') && |m'| == |m| == |memory|
  {
  }

  /** A space does not become a tab again. */
  lemma NeverBack(memory: seq<Byte>, m: seq<Byte>, m': seq<Byte>, next: nat, end: nat)
    requires next <= end <= |memory| == |m| == |m'| && Untabbed(memory, m) && Untabbed(m, m')
    requires m'[next..end] == memory[next..end]
    ensures m[next..end] == memory[next..end]
  {
    forall i | next <= i < end ensures m[i] == memory[i] {
      assert m'[next..end][i - next] == memory[next..end][i - next];
    }
  }

  lemma Cut(s: seq<Byte>, a: nat, b: nat, c: nat)
    requires a <= b <= c <= |s|
    ensures s[a..c] == s[a..b] + s[b..c]
  {
  }

  lemma Held(memory: seq<Byte>, at: nat, end: nat, rs: seq<Record>)
    requires at <= end <= |memory| && AllAccepted(rs) && rs != [] && memory[at..end] == BytesOfRecords(rs)
    ensures RecordAt(memory, at, end, rs[0])
    ensures AllAccepted(rs[1..]) && memory[at + 32 + |rs[0].data|..end] == BytesOfRecords(rs[1..])
  {
    hide BytesOfRecord, BodyOk, Replay.Answer;
    var s, n := memory[at..end], 32 + |rs[0].data|;
    assert RecordAccepted(rs[0]);
    assert s[..n] == memory[at..at + n] && s[n..] == memory[at + n..end];
    assert s[..n] == BytesOfRecord(rs[0]) && s[n..] == BytesOfRecords(rs[1..]);
  }

  /** A log in SHA-1 format is read as the records it was written as if and only if every write of a
      data callback spares what follows. */
  lemma {:induction false} ReadsExactly(memory: seq<Byte>, at: nat, end: nat, rs: seq<Record>)
    requires at <= end <= |memory| && AllAccepted(rs) && memory[at..end] == BytesOfRecords(rs)
    ensures Reads(memory, at, end, rs) <==> AllSpared(rs)
    decreases |rs|
  {
    hide BytesOfRecord, BytesOfRecords, BodyOk, Replay.FirstNul, Replay.Answer, Replay.Writes, Spares;
    if rs == [] {
      NothingWritten();
      assert |memory[at..end]| == end - at;
    } else {
      Held(memory, at, end, rs);
      var r, next := rs[0], at + 32 + |rs[0].data|;
      var m := Replay.Written(memory, at + 32, r.kind, r.data);
      WriteSpares(memory, at, end, r);
      WrittenUntabs(memory, at + 32, r.kind, r.data);
      if Reads(memory, at, end, rs) {
        ReadAsWritten(memory, m, next, end, rs[1..]);
      }
      if m[next..end] == memory[next..end] {
        ReadsExactly(m, next, end, rs[1..]);
      }
    }
  }

  lemma NothingWritten()
    ensures BytesOfRecords([]) == []
  {
  }

  lemma WrittenUntabs(memory: seq<Byte>, at: nat, kind: UInt32, data: seq<Byte>)
    requires at <= |memory|
    ensures Untabbed(memory, Replay.Written(memory, at, kind, data))
  {
  }
}
